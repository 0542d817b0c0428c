/**
 SendRequestHeaders, SendRequestBody, SendRequestEnd and SendResponseBody: run a
 sender thread, poll while the verdict is delayed, and finalize under the fail mode.
 */
module DelayedVerdict {
  import opened ReplyLoop

  datatype Answer = AnswerInspect | AnswerAccept | AnswerDrop

  /** How a thread ended: in time or not, with what result, and what it left as the session verdict. */
  datatype Run = Run(finished: bool, res: CommResult, verdict: Verdict)

  /** What the transaction comes down to before the fail mode is applied. */
  datatype Decision = Failed | Decided(verdict: Verdict)

  function Conclude(r: Run): Decision {
    if r.finished && (r.res == Ok || r.res == Forbidden) then Decided(r.verdict) else Failed
  }

  predicate Open(r: Run) {
    r.finished && r.verdict == Delayed
  }

  /** The first poll that does not leave the verdict open decides; if none that is allowed does, it is a failure. */
  function DecideByPolls(polls: nat -> Run, k: nat, retries: nat): Decision
    decreases retries - k
  {
    if k >= retries then Failed
    else if Open(polls(k)) then DecideByPolls(polls, k + 1, retries)
    else Conclude(polls(k))
  }

  function Decide(first: Run, polls: nat -> Run, retries: nat): Decision {
    if Open(first) then DecideByPolls(polls, 0, retries) else Conclude(first)
  }

  function Answered(d: Decision, failOpen: bool): Answer {
    match d
    case Failed => if failOpen then AnswerAccept else AnswerDrop
    case Decided(v) =>
      if v.Accept? then AnswerAccept else if Blocks(v) then AnswerDrop else AnswerInspect
  }

  // ---------------------------------------------------------------- which thread decides

  /** Poll i is the first from k on that does not end in time with the verdict still delayed. */
  ghost predicate FirstClosed(polls: nat -> Run, k: nat, i: nat) {
    && k <= i
    && !(polls(i).finished && polls(i).verdict == Delayed)
    && forall j: nat :: k <= j < i ==> polls(j).finished && polls(j).verdict == Delayed
  }

  ghost predicate ClosedBy(polls: nat -> Run, k: nat, retries: nat, r: Run) {
    exists i: nat :: i < retries && FirstClosed(polls, k, i) && r == polls(i)
  }

  /** The thread that decides: the first one or, if that left the verdict delayed, the first poll that did not. */
  ghost predicate Deciding(first: Run, polls: nat -> Run, retries: nat, r: Run) {
    if first.finished && first.verdict == Delayed then ClosedBy(polls, 0, retries, r) else r == first
  }

  /** The deciding thread ended in time, without an error, and left verdict v. */
  ghost predicate Settles(first: Run, polls: nat -> Run, retries: nat, v: Verdict) {
    exists r :: Deciding(first, polls, retries, r) && r.finished && (r.res == Ok || r.res == Forbidden)
      && r.verdict == v
  }

  lemma ClosedShifts(polls: nat -> Run, k: nat, retries: nat, r: Run)
    requires Open(polls(k))
    ensures ClosedBy(polls, k, retries, r) <==> ClosedBy(polls, k + 1, retries, r)
  {
    var next := k + 1;
    if i: nat :| i < retries && FirstClosed(polls, k, i) && r == polls(i) {
      assert FirstClosed(polls, next, i);
    }
    if i: nat :| i < retries && FirstClosed(polls, next, i) && r == polls(i) {
      assert FirstClosed(polls, k, i);
    }
  }

  lemma {:induction false} PollsDecide(polls: nat -> Run, k: nat, retries: nat)
    requires k <= retries
    ensures forall r :: ClosedBy(polls, k, retries, r) ==> DecideByPolls(polls, k, retries) == Conclude(r)
    ensures DecideByPolls(polls, k, retries).Decided? ==>
              exists r :: ClosedBy(polls, k, retries, r) && Conclude(r) == DecideByPolls(polls, k, retries)
    decreases retries - k
  {
    if k < retries {
      if Open(polls(k)) {
        var next := k + 1;
        PollsDecide(polls, next, retries);
        forall r ensures ClosedBy(polls, k, retries, r) <==> ClosedBy(polls, next, retries, r) {
          ClosedShifts(polls, k, retries, r);
        }
        if DecideByPolls(polls, next, retries).Decided? {
          var r :| ClosedBy(polls, next, retries, r) && Conclude(r) == DecideByPolls(polls, next, retries);
          assert ClosedBy(polls, k, retries, r);
        }
      } else {
        assert FirstClosed(polls, k, k);
        forall i: nat | FirstClosed(polls, k, i) ensures i == k {
        }
        assert ClosedBy(polls, k, retries, polls(k));
      }
    }
  }

  /** The decision is the deciding thread's verdict, and a failure if there is no such thread or it failed. */
  lemma DecideSettles(first: Run, polls: nat -> Run, retries: nat)
    ensures forall v :: Settles(first, polls, retries, v) <==> Decide(first, polls, retries) == Decided(v)
  {
    PollsDecide(polls, 0, retries);
    forall v ensures Settles(first, polls, retries, v) <==> Decide(first, polls, retries) == Decided(v) {
      if Decide(first, polls, retries) == Decided(v) {
        var r :| Deciding(first, polls, retries, r) && Conclude(r) == Decided(v);
      }
    }
  }

  class Transaction {
    const failOpen: bool
    const retries: nat
    var verdict: Verdict
    var res: CommResult

    constructor (failOpen: bool, retries: nat, verdict: Verdict)
      ensures this.failOpen == failOpen && this.retries == retries && this.verdict == verdict
    {
      this.failOpen, this.retries, this.verdict := failOpen, retries, verdict;
      res := Ok;
    }

    /** NanoRunInThreadTimeout, by what the thread leaves behind. */
    method RunThread(r: Run) returns (finished: bool)
      modifies this
      ensures finished == r.finished && res == r.res && verdict == r.verdict
    {
      res, verdict := r.res, r.verdict;
      return r.finished;
    }

    /** FinalizeFailedResponse, SendThreadTimeoutVerdict and SendCorruptMemoryVerdict agree on this. */
    method FailMode() returns (answer: Answer)
      modifies this`verdict
      ensures answer == Answered(Failed, failOpen)
      ensures verdict == if failOpen then Accept else Drop
    {
      if failOpen {
        verdict := Accept;
        return AnswerAccept;
      }
      verdict := Drop;
      return AnswerDrop;
    }

    /** HandleDelayedVerdict */
    method HandleDelayed(polls: nat -> Run) returns (timedOut: bool, polled: nat)
      requires verdict == Delayed
      modifies this
      ensures polled <= retries
      ensures DecideByPolls(polls, 0, retries) ==
                if timedOut || (res != Ok && res != Forbidden) then Failed else Decided(verdict)
      ensures !timedOut && (res == Ok || res == Forbidden) ==> verdict != Delayed
      ensures forall k :: 0 <= k < polled - 1 ==> Open(polls(k))
      ensures forall i: nat :: i < retries && FirstClosed(polls, 0, i) ==> polled == i + 1
      ensures (forall i: nat :: i < retries ==> !FirstClosed(polls, 0, i)) ==> polled == retries
    {
      polled := 0;
      while polled < retries
        invariant 0 <= polled <= retries && verdict == Delayed
        invariant DecideByPolls(polls, 0, retries) == DecideByPolls(polls, polled, retries)
        invariant forall k :: 0 <= k < polled ==> Open(polls(k))
      {
        var finished := RunThread(polls(polled));
        polled := polled + 1;
        assert !finished || verdict != Delayed ==> FirstClosed(polls, 0, polled - 1);
        if !finished {
          return true, polled;
        }
        if verdict != Delayed {
          return false, polled;
        }
      }
      res := Error;
      return false, polled;
    }

    /**
     For every behaviour of the threads: bounded polling; the session keeps the verdict of the thread that decides
     and the answer accepts or drops exactly as that thread's verdict does; if none settles it, both follow the
     fail mode.  The session is never left delayed.
     */
    method Send(corrupt: bool, first: Run, polls: nat -> Run) returns (answer: Answer, polled: nat)
      modifies this
      ensures polled <= retries
      ensures answer == Answered(if corrupt then Failed else Decide(first, polls, retries), failOpen)
      ensures verdict != Delayed
      ensures answer == AnswerAccept <==> verdict == Accept
      ensures answer == AnswerDrop <==> Blocks(verdict)
      ensures forall v :: !corrupt && Settles(first, polls, retries, v) ==>
                && verdict == v
                && (answer == AnswerAccept <==> v == Accept)
                && (answer == AnswerDrop <==> v == Drop || v == CustomResponse)
      ensures corrupt || !(first.finished && first.verdict == Delayed) ==> polled == 0
      ensures !corrupt && first.finished && first.verdict == Delayed ==>
                && (forall i: nat :: i < retries && FirstClosed(polls, 0, i) ==> polled == i + 1)
                && ((forall i: nat :: i < retries ==> !FirstClosed(polls, 0, i)) ==> polled == retries)
      ensures corrupt || (forall v :: !Settles(first, polls, retries, v)) ==>
                if failOpen then answer == AnswerAccept && verdict == Accept
                else answer == AnswerDrop && verdict == Drop
    {
      DecideSettles(first, polls, retries);
      polled := 0;
      if corrupt {
        answer := FailMode();
        return;
      }
      var finished := RunThread(first);
      if !finished {
        answer := FailMode();
        return;
      }
      if verdict == Delayed {
        var timedOut;
        timedOut, polled := HandleDelayed(polls);
        if timedOut {
          answer := FailMode();
          return;
        }
      }
      if res != Forbidden && res != Ok {
        answer := FailMode();
        return;
      }
      match verdict {
        case Accept => answer := AnswerAccept;
        case Drop => answer := AnswerDrop;
        case CustomResponse => answer := AnswerDrop;
        case _ => answer := AnswerInspect;
      }
    }
  }

  // ---------------------------------------------------------------- where a block comes from

  /** One thread as the service sees it: was everything sent, was the receive signalled, and what replies came. */
  datatype Service = Service(sent: bool, signalled: bool, replies: seq<Reply>)

  /**
   A sender thread in sync mode, on a session with verdict `verdict` that owes `owed` replies once its messages
   are counted.  `onFail` is the result it leaves if a send fails; `asks` is whether it waits for the verdict.
   */
  datatype Task = Task(owed: nat, verdict: Verdict, onFail: CommResult, asks: bool, svc: Service)

  function TaskRun(sid: nat, t: Task): Run {
    if !t.svc.sent then Run(true, t.onFail, t.verdict)
    else if !t.asks then Run(true, Ok, t.verdict)
    else if t.owed == 0 then Run(true, Ok, Inspect)
    else if !t.svc.signalled then Run(true, Error, t.verdict)
    else
      var o := Fold(sid, t.owed, t.verdict, t.svc.replies);
      Run(true, o.res, o.verdict)
  }

  /** nano_request_delayed_verdict, on a session that owed `owed` replies before. */
  function Poll(owed: nat, svc: Service): Task {
    Task(owed + 1, Delayed, Ok, true, svc)
  }

  /** Reply k is the first at which the loop may stop, and it blocks. */
  ghost predicate BlocksAt(sid: nat, remaining: nat, rs: seq<Reply>, k: nat) {
    && Stop(sid, remaining, rs, k)
    && (rs[k - 1].verdict == Drop || rs[k - 1].verdict == CustomResponse)
    && forall j :: 0 <= j < k ==> !Stop(sid, remaining, rs, j)
  }

  /** The service blocks in its replies or, if the thread did not get to wait for them, had blocked before. */
  ghost predicate TaskBlocks(sid: nat, t: Task) {
    if t.svc.sent && t.asks then
      t.owed > 0 && t.svc.signalled && exists k: nat :: BlocksAt(sid, t.owed, t.svc.replies, k)
    else
      Blocks(t.verdict) && (t.svc.sent || t.onFail == Ok || t.onFail == Forbidden)
  }

  lemma FoldBlocksIff(sid: nat, owed: nat, verdict: Verdict, rs: seq<Reply>)
    requires owed > 0
    ensures var o := Fold(sid, owed, verdict, rs);
            (o.res == Ok || o.res == Forbidden) && Blocks(o.verdict) <==> exists k: nat :: BlocksAt(sid, owed, rs, k)
  {
    FoldStopsFirst(sid, owed, verdict, rs);
    var o := Fold(sid, owed, verdict, rs);
    forall k: nat | BlocksAt(sid, owed, rs, k) ensures k == o.used {
      assert k <= o.used;
    }
    assert o.res == Forbidden ==> BlocksAt(sid, owed, rs, o.used);
  }

  /** A thread ends in a block iff the first reply at which the loop may stop is the session's own block. */
  lemma TaskBlocksIff(sid: nat, t: Task)
    ensures var d := Conclude(TaskRun(sid, t));
            d.Decided? && Blocks(d.verdict) <==> TaskBlocks(sid, t)
  {
    if t.svc.sent && t.asks && t.owed > 0 && t.svc.signalled {
      FoldBlocksIff(sid, t.owed, t.verdict, t.svc.replies);
    }
  }

  /** What a thread that waited for its replies ends with, and which of them decides. */
  lemma TaskVerdict(sid: nat, t: Task)
    ensures var r := TaskRun(sid, t);
            && r.finished
            && (!t.svc.sent ==> r.res == t.onFail && r.verdict == t.verdict)
            && (t.svc.sent && !t.asks ==> r.res == Ok && r.verdict == t.verdict)
            && (t.svc.sent && t.asks && t.owed == 0 ==> r.res == Ok && r.verdict == Inspect)
            && (t.svc.sent && t.asks && t.owed > 0 && !t.svc.signalled ==> r.res == Error && r.verdict == t.verdict)
            && (t.svc.sent && t.asks && t.owed > 0 && t.svc.signalled ==>
                 exists k: nat ::
                   && Reads(sid, t.owed, t.svc.replies, k)
                   && VerdictAfter(sid, t.verdict, t.svc.replies, k, r.verdict)
                   && EndsWith(sid, t.owed, t.svc.replies, k, r.res))
  {
    if t.svc.sent && t.asks && t.owed > 0 && t.svc.signalled {
      ReadsSome(sid, t.owed, t.verdict, t.svc.replies);
      FoldVerdict(sid, t.owed, t.verdict, t.svc.replies);
    }
  }

  /** Reply k is the first at which the loop may stop, and it holds the request. */
  ghost predicate DelayedAt(sid: nat, remaining: nat, rs: seq<Reply>, k: nat) {
    && Stop(sid, remaining, rs, k)
    && rs[k - 1].verdict == Delayed
    && forall j :: 0 <= j < k ==> !Stop(sid, remaining, rs, j)
  }

  /** A thread that waited and ended well leaves its verdict open, to be polled for, iff its stop reply is DELAYED. */
  lemma OpenIffDelayed(sid: nat, t: Task)
    requires t.svc.sent && t.asks && t.owed > 0 && t.svc.signalled && TaskRun(sid, t).res != Error
    ensures Open(TaskRun(sid, t)) <==> exists k: nat :: DelayedAt(sid, t.owed, t.svc.replies, k)
  {
    var rs := t.svc.replies;
    FoldStopsFirst(sid, t.owed, t.verdict, rs);
    var o := Fold(sid, t.owed, t.verdict, rs);
    forall k: nat | DelayedAt(sid, t.owed, rs, k) ensures k == o.used {
      assert k <= o.used;
    }
    assert o.verdict == Delayed ==> DelayedAt(sid, t.owed, rs, o.used);
  }

  /** Poll i is the first from k on that is not left open, it ends in time, and the service blocks in it. */
  ghost predicate BlockReached(sid: nat, tasks: nat -> Task, polls: nat -> Run, k: nat, i: nat) {
    && k <= i
    && polls(i).finished
    && TaskBlocks(sid, tasks(i))
    && forall j: nat :: k <= j < i ==> Open(polls(j))
  }

  ghost predicate SomeBlock(sid: nat, tasks: nat -> Task, polls: nat -> Run, k: nat, retries: nat) {
    exists i: nat :: i < retries && BlockReached(sid, tasks, polls, k, i)
  }

  /** What a thread left open it did not block. */
  lemma OpenDoesNotBlock(sid: nat, t: Task)
    requires Open(TaskRun(sid, t))
    ensures !TaskBlocks(sid, t)
  {
    TaskBlocksIff(sid, t);
    if t.svc.sent && t.asks && t.owed > 0 && t.svc.signalled {
      FoldStopsFirst(sid, t.owed, t.verdict, t.svc.replies);
    }
  }

  lemma BlockShifts(sid: nat, tasks: nat -> Task, polls: nat -> Run, k: nat, retries: nat)
    requires Open(polls(k)) && polls(k) == TaskRun(sid, tasks(k))
    ensures SomeBlock(sid, tasks, polls, k, retries) <==> SomeBlock(sid, tasks, polls, k + 1, retries)
  {
    OpenDoesNotBlock(sid, tasks(k));
    var next := k + 1;
    if i: nat :| i < retries && BlockReached(sid, tasks, polls, k, i) {
      assert BlockReached(sid, tasks, polls, next, i);
    }
    if i: nat :| i < retries && BlockReached(sid, tasks, polls, next, i) {
      assert BlockReached(sid, tasks, polls, k, i);
    }
  }

  lemma {:induction false} PollsDropOnBlock(sid: nat, tasks: nat -> Task, polls: nat -> Run, k: nat, retries: nat)
    requires k <= retries
    requires forall i: nat :: polls(i).finished ==> polls(i) == TaskRun(sid, tasks(i))
    ensures Answered(DecideByPolls(polls, k, retries), true) == AnswerDrop <==> SomeBlock(sid, tasks, polls, k, retries)
    decreases retries - k
  {
    if k < retries {
      TaskBlocksIff(sid, tasks(k));
      assert polls(k).finished ==> polls(k) == TaskRun(sid, tasks(k));
      if Open(polls(k)) {
        PollsDropOnBlock(sid, tasks, polls, k + 1, retries);
        BlockShifts(sid, tasks, polls, k, retries);
      } else {
        forall i: nat | i < retries && BlockReached(sid, tasks, polls, k, i) ensures i == k {
        }
        assert polls(k).finished && TaskBlocks(sid, tasks(k)) ==> BlockReached(sid, tasks, polls, k, k);
      }
    }
  }

  /**
   A fail-open attachment drops iff its first thread ends in time and the service blocks in it or, if it leaves
   the verdict delayed, in the first allowed poll that is not left open and ends in time.  Any thread may time out.
   */
  lemma FailOpenDropsOnServiceBlock(
      sid: nat, task: Task, first: Run, tasks: nat -> Task, polls: nat -> Run, retries: nat)
    requires first.finished ==> first == TaskRun(sid, task)
    requires forall i: nat :: polls(i).finished ==> polls(i) == TaskRun(sid, tasks(i))
    ensures Answered(Decide(first, polls, retries), true) == AnswerDrop <==>
              && first.finished
              && if Open(first) then SomeBlock(sid, tasks, polls, 0, retries) else TaskBlocks(sid, task)
  {
    TaskBlocksIff(sid, task);
    PollsDropOnBlock(sid, tasks, polls, 0, retries);
  }

  // ---------------------------------------------------------------- where a pass comes from

  /** Reply k is the first at which the loop may stop, and it does not block. */
  ghost predicate PassesAt(sid: nat, remaining: nat, rs: seq<Reply>, k: nat) {
    && Stop(sid, remaining, rs, k)
    && rs[k - 1].verdict != Drop && rs[k - 1].verdict != CustomResponse
    && forall j :: 0 <= j < k ==> !Stop(sid, remaining, rs, j)
  }

  /**
   The service passes in its replies, or none was owed; or the thread did not get to wait for them, left a result
   that is no failure, and the session had not been blocked before.
   */
  ghost predicate TaskPasses(sid: nat, t: Task) {
    if t.svc.sent && t.asks then
      t.owed == 0 || (t.svc.signalled && exists k: nat :: PassesAt(sid, t.owed, t.svc.replies, k))
    else
      !Blocks(t.verdict) && (t.svc.sent || t.onFail == Ok || t.onFail == Forbidden)
  }

  lemma FoldPassesIff(sid: nat, owed: nat, verdict: Verdict, rs: seq<Reply>)
    requires owed > 0
    ensures var o := Fold(sid, owed, verdict, rs);
            (o.res == Ok || o.res == Forbidden) && !Blocks(o.verdict) <==> exists k: nat :: PassesAt(sid, owed, rs, k)
  {
    FoldStopsFirst(sid, owed, verdict, rs);
    var o := Fold(sid, owed, verdict, rs);
    forall k: nat | PassesAt(sid, owed, rs, k) ensures k == o.used {
      assert k <= o.used;
    }
    assert o.res == Ok ==> PassesAt(sid, owed, rs, o.used);
  }

  lemma TaskPassesIff(sid: nat, t: Task)
    ensures var d := Conclude(TaskRun(sid, t));
            d.Decided? && !Blocks(d.verdict) <==> TaskPasses(sid, t)
  {
    if t.svc.sent && t.asks && t.owed > 0 && t.svc.signalled {
      FoldPassesIff(sid, t.owed, t.verdict, t.svc.replies);
    }
  }

  /** Poll i is the first from k on that is not left open, it ends in time, and the service passes in it. */
  ghost predicate PassReached(sid: nat, tasks: nat -> Task, polls: nat -> Run, k: nat, i: nat) {
    && k <= i
    && polls(i).finished && !Open(polls(i))
    && TaskPasses(sid, tasks(i))
    && forall j: nat :: k <= j < i ==> Open(polls(j))
  }

  ghost predicate SomePass(sid: nat, tasks: nat -> Task, polls: nat -> Run, k: nat, retries: nat) {
    exists i: nat :: i < retries && PassReached(sid, tasks, polls, k, i)
  }

  lemma PassShifts(sid: nat, tasks: nat -> Task, polls: nat -> Run, k: nat, retries: nat)
    requires Open(polls(k))
    ensures SomePass(sid, tasks, polls, k, retries) <==> SomePass(sid, tasks, polls, k + 1, retries)
  {
    var next := k + 1;
    if i: nat :| i < retries && PassReached(sid, tasks, polls, k, i) {
      assert PassReached(sid, tasks, polls, next, i);
    }
    if i: nat :| i < retries && PassReached(sid, tasks, polls, next, i) {
      assert PassReached(sid, tasks, polls, k, i);
    }
  }

  lemma {:induction false} PollsDropUnlessPassed(sid: nat, tasks: nat -> Task, polls: nat -> Run, k: nat, retries: nat)
    requires k <= retries
    requires forall i: nat :: polls(i).finished ==> polls(i) == TaskRun(sid, tasks(i))
    ensures Answered(DecideByPolls(polls, k, retries), false) == AnswerDrop <==>
              !SomePass(sid, tasks, polls, k, retries)
    decreases retries - k
  {
    if k < retries {
      TaskPassesIff(sid, tasks(k));
      assert polls(k).finished ==> polls(k) == TaskRun(sid, tasks(k));
      if Open(polls(k)) {
        PollsDropUnlessPassed(sid, tasks, polls, k + 1, retries);
        PassShifts(sid, tasks, polls, k, retries);
      } else {
        forall i: nat | i < retries && PassReached(sid, tasks, polls, k, i) ensures i == k {
        }
        assert polls(k).finished && TaskPasses(sid, tasks(k)) ==> PassReached(sid, tasks, polls, k, k);
      }
    }
  }

  /**
   The dual: a fail-close attachment drops unless its first thread ends in time and the service passes in it or,
   if it leaves the verdict delayed, in the first allowed poll that is not left open and ends in time.
   */
  lemma FailCloseDropsUnlessServicePasses(
      sid: nat, task: Task, first: Run, tasks: nat -> Task, polls: nat -> Run, retries: nat)
    requires first.finished ==> first == TaskRun(sid, task)
    requires forall i: nat :: polls(i).finished ==> polls(i) == TaskRun(sid, tasks(i))
    ensures Answered(Decide(first, polls, retries), false) == AnswerDrop <==>
              !(&& first.finished
                && if Open(first) then SomePass(sid, tasks, polls, 0, retries) else TaskPasses(sid, task))
  {
    TaskPassesIff(sid, task);
    PollsDropUnlessPassed(sid, tasks, polls, 0, retries);
  }

  /**
   A sync send that fails at the end of a transaction leaves no error: a fail-close attachment on a session under
   inspection answers that inspection goes on, although nothing reached the service.
   */
  lemma UnsentEndIsNotDropped(sid: nat, owed: nat, polls: nat -> Run, retries: nat)
    ensures var task := Task(owed, Inspect, Ok, true, Service(false, false, []));
            Answered(Decide(TaskRun(sid, task), polls, retries), false) == AnswerInspect
  {
  }

  /** In a delayed-verdict poll there is nothing to have blocked before: only the replies can block. */
  lemma PollBlocksIff(sid: nat, owed: nat, svc: Service)
    ensures var remaining := owed + 1;
            TaskBlocks(sid, Poll(owed, svc)) <==>
              svc.sent && svc.signalled && exists k: nat :: BlocksAt(sid, remaining, svc.replies, k)
    ensures var d := Conclude(TaskRun(sid, Poll(owed, svc)));
            d.Decided? && Blocks(d.verdict) <==> TaskBlocks(sid, Poll(owed, svc))
  {
    TaskBlocksIff(sid, Poll(owed, svc));
    assert Poll(owed, svc).owed == owed + 1;
  }
}
