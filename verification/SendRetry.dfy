/**
 send_session_data_to_service: push, and on failure signal the service and push
 again, five times at most.
 */
module SendRetry {
  import opened ReplyLoop

  const ATTEMPTS: nat := 5

  /** What attempt k meets: whether the ring took the push, how the signal ended, how a restart ended. */
  datatype Attempt = Attempt(pushed: bool, signal: CommResult, restart: CommResult)
  type Env = nat -> Attempt

  /** The result variable as attempt k finds it. */
  function Carried(env: Env, k: nat): CommResult {
    if k == 0 then Ok
    else if env(k - 1).signal == Error then env(k - 1).restart
    else env(k - 1).signal
  }

  /** Attempt k pushes and finds nothing wrong before it. */
  predicate Delivers(env: Env, k: nat) {
    env(k).pushed && Carried(env, k) == Ok
  }

  /** Attempt k loses the connection for good. */
  predicate GivesUp(env: Env, k: nat) {
    env(k).signal == Error && env(k).restart == Error
  }

  /** The loop is still going before attempt k. */
  ghost predicate Runs(env: Env, k: nat) {
    forall j :: 0 <= j < k ==> !Delivers(env, j) && !GivesUp(env, j)
  }

  function Copies(env: Env, k: nat): nat {
    if k == 0 then 0 else Copies(env, k - 1) + (if env(k - 1).pushed then 1 else 0)
  }

  /** Pushes that went through while an earlier trouble was still carried. */
  function Strays(env: Env, k: nat): nat {
    if k == 0 then 0
    else Strays(env, k - 1) + (if env(k - 1).pushed && Carried(env, k - 1) != Ok then 1 else 0)
  }

  /** Nothing is wrong before attempt k: it is the first, or the signal or the restart before it went well. */
  ghost predicate Clean(env: Env, k: nat) {
    || k == 0
    || env(k - 1).signal == Ok
    || (env(k - 1).signal == Error && env(k - 1).restart == Ok)
  }

  /** Attempt k is one that succeeds, and no attempt before it did, or lost the connection for good. */
  ghost predicate SucceedsAt(env: Env, k: nat) {
    && env(k).pushed && Clean(env, k)
    && forall j :: 0 <= j < k ==>
         && !(env(j).pushed && Clean(env, j))
         && !(env(j).signal == Error && env(j).restart == Error)
  }

  lemma DeliversIff(env: Env, k: nat)
    ensures Delivers(env, k) <==> env(k).pushed && Clean(env, k)
    ensures GivesUp(env, k) <==> env(k).signal == Error && env(k).restart == Error
  {
  }

  /** A send that ended at attempt k succeeded iff one of five attempts is such, and then that is the one. */
  lemma EndDecides(env: Env, k: nat)
    requires k < 5 && Runs(env, k) && (Delivers(env, k) || GivesUp(env, k) || k == 4)
    ensures Delivers(env, k) <==> exists j: nat :: j < 5 && SucceedsAt(env, j)
    ensures forall j: nat :: j < 5 && SucceedsAt(env, j) ==> j == k
  {
    forall j: nat ensures Delivers(env, j) <==> env(j).pushed && Clean(env, j) { DeliversIff(env, j); }
    forall j: nat | j < 5 && SucceedsAt(env, j) ensures j == k && Delivers(env, k) {
      DeliversIff(env, j);
      DeliversIff(env, k);
    }
    if Delivers(env, k) {
      forall j | 0 <= j < k
        ensures !(env(j).pushed && Clean(env, j)) && !(env(j).signal == Error && env(j).restart == Error)
      {
        DeliversIff(env, j);
        assert !Delivers(env, j) && !GivesUp(env, j);
      }
      assert SucceedsAt(env, k);
    }
  }

  /** `pushes` counts the attempts made and `copies` the copies of the message pushed. */
  method Send(env: Env) returns (res: CommResult, pushes: nat, copies: nat)
    ensures 1 <= pushes <= ATTEMPTS && copies == Copies(env, pushes)
    ensures Runs(env, pushes - 1)
    ensures res == Ok <==> Delivers(env, pushes - 1)
    ensures res != Ok ==> res == Error && (pushes == ATTEMPTS || GivesUp(env, pushes - 1))
    ensures res == Ok <==> exists k: nat :: k < 5 && SucceedsAt(env, k)
    ensures forall k: nat :: k < 5 && SucceedsAt(env, k) ==> pushes == k + 1
  {
    res := Ok;
    copies := 0;
    var attempt := 0;
    while attempt < ATTEMPTS
      invariant 0 <= attempt <= ATTEMPTS
      invariant Runs(env, attempt)
      invariant res == Carried(env, attempt) && copies == Copies(env, attempt)
    {
      var ok := env(attempt).pushed;
      if ok {
        copies := copies + 1;
      }
      if res == Ok && ok {
        EndDecides(env, attempt);
        return Ok, attempt + 1, copies;
      }
      res := env(attempt).signal;
      if res == Error {
        res := env(attempt).restart;
        if res == Error {
          EndDecides(env, attempt);
          return Error, attempt + 1, copies;
        }
      }
      attempt := attempt + 1;
    }
    EndDecides(env, ATTEMPTS - 1);
    return Error, ATTEMPTS, copies;
  }

  lemma {:induction false} CopiesAreStrays(env: Env, k: nat)
    requires Runs(env, k)
    ensures Copies(env, k) == Strays(env, k) <= k
    ensures k > 0 ==> Copies(env, k) <= k - 1
  {
    if k > 0 {
      CopiesAreStrays(env, k - 1);
      assert !Delivers(env, k - 1);
    }
  }

  lemma {:induction false} NoStraysIff(env: Env, k: nat)
    ensures Strays(env, k) == 0 <==> forall j :: 0 <= j < k && env(j).pushed ==> Carried(env, j) == Ok
  {
    if k > 0 { NoStraysIff(env, k - 1); }
  }

  /**
   The copies pushed by a send that ended at attempt k, into whichever ring was current: one for the delivery
   and one for every stray; exactly one iff no earlier push went through with a trouble carried; never more than four.
   */
  lemma SendAccounts(env: Env, k: nat)
    requires k < ATTEMPTS && Runs(env, k)
    ensures Delivers(env, k) ==> Copies(env, k + 1) == 1 + Strays(env, k)
    ensures Delivers(env, k) ==>
              (Copies(env, k + 1) == 1 <==> forall j :: 0 <= j < k && env(j).pushed ==> Carried(env, j) == Ok)
    ensures (forall j :: 0 <= j <= k ==> Carried(env, j) == Ok) && Delivers(env, k) ==> Copies(env, k + 1) == 1
    ensures Copies(env, k + 1) <= ATTEMPTS - 1
  {
    CopiesAreStrays(env, k);
    NoStraysIff(env, k);
    if !Delivers(env, k) && k + 1 == ATTEMPTS {
      assert !Delivers(env, 0);
      CopiesFirstLost(env, k + 1);
    }
  }

  lemma {:induction false} CopiesFirstLost(env: Env, k: nat)
    requires k >= 1 && !env(0).pushed
    ensures Copies(env, k) <= k - 1
  {
    if k > 1 { CopiesFirstLost(env, k - 1); }
  }

  /** A send can fail and have pushed four copies. */
  lemma FailureWithFourCopies() returns (env: Env)
    ensures Runs(env, ATTEMPTS) && !Delivers(env, ATTEMPTS - 1) && Copies(env, ATTEMPTS) == ATTEMPTS - 1
  {
    env := k => if k == 0 then Attempt(false, Timeout, Ok) else Attempt(true, Timeout, Ok);
    assert Copies(env, 1) == 0 && Copies(env, 2) == 1 && Copies(env, 3) == 2 && Copies(env, 4) == 3;
  }
}
