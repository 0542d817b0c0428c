/**
 service_reply_receiver: consuming the service's verdicts for one session, and the
 count of replies still owed.
 */
module ReplyLoop {

  datatype Verdict =
    | Inspect | Accept | Drop | Inject | Irrelevant | Reconf | Delayed
    | LimitResponseHeaders | CustomResponse | Unknown(code: nat)

  datatype CommResult = Ok | Error | Abort | Again | Forbidden | Declined | Timeout

  datatype Mode = Sync | Async

  datatype Reply = Reply(session: nat, verdict: Verdict)

  /** After one of these the service sends nothing more for the session. */
  predicate Terminal(v: Verdict) {
    v.Accept? || v.Drop? || v.CustomResponse?
  }

  predicate Blocks(v: Verdict) {
    v.Drop? || v.CustomResponse?
  }

  /** The session verdict a reply leaves behind. */
  function Effective(v: Verdict): Verdict {
    if v.Inject? || v.LimitResponseHeaders? then Inspect else v
  }

  /** A reply that answers one of the session's messages. */
  predicate Own(sid: nat, r: Reply) {
    !r.verdict.Reconf? && r.session == sid
  }

  function OwnCount(sid: nat, rs: seq<Reply>): nat {
    if rs == [] then 0
    else OwnCount(sid, rs[..|rs| - 1]) + (if Own(sid, rs[|rs| - 1]) then 1 else 0)
  }

  /** Result, session verdict, replies still owed, and how many replies were consumed. */
  datatype Outcome = Outcome(res: CommResult, verdict: Verdict, remaining: nat, used: nat)

  /** The loop as a fold over the reply stream; a stream that ends is a receive that failed. */
  function Fold(sid: nat, remaining: nat, verdict: Verdict, rs: seq<Reply>): Outcome
    decreases |rs|
  {
    if remaining == 0 then Outcome(Ok, verdict, 0, 0)
    else if rs == [] then Outcome(Error, verdict, remaining, 0)
    else
      var r := rs[0];
      if !r.verdict.Reconf? && r.session != sid then
        Bump(Fold(sid, remaining, verdict, rs[1..]))
      else if Terminal(r.verdict) then
        Outcome(if Blocks(r.verdict) then Forbidden else Ok, r.verdict, 0, 1)
      else
        Bump(Fold(sid, if r.verdict.Reconf? then remaining else remaining - 1, Effective(r.verdict), rs[1..]))
  }

  function Bump(o: Outcome): Outcome {
    o.(used := o.used + 1)
  }

  /** Reading k replies is where the loop may stop: the k-th is the session's own, and is final or the last one owed. */
  predicate Stop(sid: nat, remaining: nat, rs: seq<Reply>, k: nat) {
    && 1 <= k <= |rs|
    && Own(sid, rs[k - 1])
    && (|| rs[k - 1].verdict.Accept? || rs[k - 1].verdict.Drop? || rs[k - 1].verdict.CustomResponse?
        || OwnCount(sid, rs[..k]) == remaining)
  }

  /** The session verdict that each kind of reply is to leave. */
  ghost predicate Recorded(v: Verdict, left: Verdict) {
    match v
    case Inspect => left == Inspect
    case Inject => left == Inspect
    case LimitResponseHeaders => left == Inspect
    case Accept => left == Accept
    case Drop => left == Drop
    case CustomResponse => left == CustomResponse
    case Irrelevant => left == Irrelevant
    case Reconf => left == Reconf
    case Delayed => left == Delayed
    case Unknown(code) => left == Unknown(code)
  }

  /** A reply the loop does not skip. */
  ghost predicate Heeded(sid: nat, r: Reply) {
    r.verdict.Reconf? || r.session == sid
  }

  /** After k replies on a session with verdict v0: the last one heeded decides, or v0 stays if there is none. */
  ghost predicate VerdictAfter(sid: nat, v0: Verdict, rs: seq<Reply>, k: nat, left: Verdict)
    requires k <= |rs|
  {
    && ((forall i :: 0 <= i < k ==> !Heeded(sid, rs[i])) ==> left == v0)
    && (forall j :: 0 <= j < k && Heeded(sid, rs[j]) && (forall i :: j < i < k ==> !Heeded(sid, rs[i])) ==>
          Recorded(rs[j].verdict, left))
  }

  /** How a receive that read k replies is to end. */
  ghost predicate EndsWith(sid: nat, remaining: nat, rs: seq<Reply>, k: nat, res: CommResult) {
    if !Stop(sid, remaining, rs, k) then res == Error
    else if rs[k - 1].verdict.Drop? || rs[k - 1].verdict.CustomResponse? then res == Forbidden
    else res == Ok
  }

  lemma {:induction false} OwnCountCons(sid: nat, r: Reply, rs: seq<Reply>)
    ensures OwnCount(sid, [r] + rs) == (if Own(sid, r) then 1 else 0) + OwnCount(sid, rs)
    decreases |rs|
  {
    var all := [r] + rs;
    if rs == [] {
      assert all[..0] == [];
    } else {
      OwnCountCons(sid, r, rs[..|rs| - 1]);
      assert all[..|all| - 1] == [r] + rs[..|rs| - 1];
    }
  }

  lemma OwnCountPrefix(sid: nat, rs: seq<Reply>, k: nat)
    requires rs != [] && 1 <= k <= |rs|
    ensures OwnCount(sid, rs[..k]) == (if Own(sid, rs[0]) then 1 else 0) + OwnCount(sid, rs[1..][..k - 1])
  {
    OwnCountCons(sid, rs[0], rs[1..][..k - 1]);
    assert rs[..k] == [rs[0]] + rs[1..][..k - 1];
  }

  /** A stop in the rest of the stream is a stop in the whole, one later. */
  lemma StopShifts(sid: nat, remaining: nat, rs: seq<Reply>, k: nat)
    requires rs != [] && 1 <= remaining && 1 <= k <= |rs| - 1
    requires Own(sid, rs[0]) ==> remaining >= 2 && !Terminal(rs[0].verdict)
    ensures Stop(sid, remaining, rs, k + 1) <==>
              Stop(sid, if Own(sid, rs[0]) then remaining - 1 else remaining, rs[1..], k)
  {
    OwnCountPrefix(sid, rs, k + 1);
    assert rs[1..][k - 1] == rs[k];
  }

  /**
   What the loop computes, without the loop: it stops at the first stop, having consumed exactly that
   prefix; it refuses iff that reply blocks; with no stop it consumes everything and fails.
   */
  lemma {:induction false} FoldStopsFirst(sid: nat, remaining: nat, verdict: Verdict, rs: seq<Reply>)
    requires 1 <= remaining
    ensures var o := Fold(sid, remaining, verdict, rs);
            && o.used <= |rs|
            && (forall j :: 0 <= j < o.used ==> !Stop(sid, remaining, rs, j))
            && (o.res == Error <==> !Stop(sid, remaining, rs, o.used))
            && (o.res == Error ==> o.used == |rs| && o.remaining == remaining - OwnCount(sid, rs) && o.remaining > 0)
            && (o.res != Error ==>
                 && Recorded(rs[o.used - 1].verdict, o.verdict)
                 && o.remaining == 0)
            && EndsWith(sid, remaining, rs, o.used, o.res)
    decreases |rs|
  {
    if rs != [] {
      var own := Own(sid, rs[0]);
      OwnCountPrefix(sid, rs, 1);
      OwnCountPrefix(sid, rs, |rs|);
      assert rs[1..][..|rs| - 1] == rs[1..] && rs[..|rs|] == rs;
      assert rs[1..][..0] == [];
      if !(own && (Terminal(rs[0].verdict) || remaining == 1)) {
        var rem' := if own then remaining - 1 else remaining;
        var v' := if own || rs[0].verdict.Reconf? then Effective(rs[0].verdict) else verdict;
        FoldStopsFirst(sid, rem', v', rs[1..]);
        var o' := Fold(sid, rem', v', rs[1..]);
        assert Fold(sid, remaining, verdict, rs) == Bump(o');
        assert !Stop(sid, remaining, rs, 1) && !Stop(sid, remaining, rs, 0);
        forall j | 1 <= j <= |rs| - 1
          ensures Stop(sid, remaining, rs, j + 1) <==> Stop(sid, rem', rs[1..], j)
        {
          StopShifts(sid, remaining, rs, j);
        }
        forall j | 0 <= j < o'.used + 1 ensures !Stop(sid, remaining, rs, j) {
          if j >= 2 { assert !Stop(sid, rem', rs[1..], j - 1); }
        }
      }
    }
  }

  /** One reply in front of the others, heeded or not. */
  lemma VerdictAfterCons(sid: nat, v0: Verdict, rs: seq<Reply>, k: nat, v1: Verdict, left: Verdict)
    requires rs != [] && 1 <= k <= |rs| && VerdictAfter(sid, v1, rs[1..], k - 1, left)
    requires if Heeded(sid, rs[0]) then Recorded(rs[0].verdict, v1) else v1 == v0
    ensures VerdictAfter(sid, v0, rs, k, left)
  {
    assert forall i :: 0 <= i < k - 1 ==> rs[1..][i] == rs[i + 1];
    assert forall i :: 1 <= i < k ==> rs[i] == rs[1..][i - 1];
  }

  /** One reply that does not end the loop. */
  lemma FoldGoesOn(sid: nat, remaining: nat, verdict: Verdict, rs: seq<Reply>)
    returns (remaining': nat, verdict': Verdict)
    requires 1 <= remaining && rs != []
    requires !(Own(sid, rs[0]) && (Terminal(rs[0].verdict) || remaining == 1))
    ensures 1 <= remaining'
    ensures Fold(sid, remaining, verdict, rs) == Bump(Fold(sid, remaining', verdict', rs[1..]))
    ensures if Heeded(sid, rs[0]) then Recorded(rs[0].verdict, verdict') else verdict' == verdict
  {
    remaining' := if Own(sid, rs[0]) then remaining - 1 else remaining;
    verdict' := if Heeded(sid, rs[0]) then Effective(rs[0].verdict) else verdict;
  }

  lemma FoldEnds(sid: nat, remaining: nat, verdict: Verdict, rs: seq<Reply>)
    requires 1 <= remaining && rs != []
    requires Own(sid, rs[0]) && (Terminal(rs[0].verdict) || remaining == 1)
    ensures Fold(sid, remaining, verdict, rs).used == 1
    ensures Recorded(rs[0].verdict, Fold(sid, remaining, verdict, rs).verdict)
  {
  }

  /** The verdict the loop leaves, whether it ends well or the replies run out. */
  lemma {:induction false} FoldVerdict(sid: nat, remaining: nat, verdict: Verdict, rs: seq<Reply>)
    requires 1 <= remaining
    ensures var o := Fold(sid, remaining, verdict, rs);
            o.used <= |rs| && VerdictAfter(sid, verdict, rs, o.used, o.verdict)
    decreases |rs|
  {
    if rs != [] {
      if Own(sid, rs[0]) && (Terminal(rs[0].verdict) || remaining == 1) {
        FoldEnds(sid, remaining, verdict, rs);
      } else {
        var rem', v' := FoldGoesOn(sid, remaining, verdict, rs);
        FoldVerdict(sid, rem', v', rs[1..]);
        var o' := Fold(sid, rem', v', rs[1..]);
        VerdictAfterCons(sid, verdict, rs, o'.used + 1, v', o'.verdict);
      }
    }
  }

  /** The verdict of a successful receive is never one the loop must translate or that is not about the session. */
  lemma OkVerdicts(sid: nat, remaining: nat, verdict: Verdict, rs: seq<Reply>)
    requires 1 <= remaining
    ensures var o := Fold(sid, remaining, verdict, rs);
            && (o.res == Ok ==>
                 && !o.verdict.Reconf? && !o.verdict.Inject? && !o.verdict.LimitResponseHeaders?
                 && !Blocks(o.verdict))
            && (o.res == Forbidden <==> o.res != Error && Blocks(o.verdict))
            && o.res in {Ok, Error, Forbidden}
  {
    FoldStopsFirst(sid, remaining, verdict, rs);
  }

  /** The custom-response branch pops the main queue whichever queue it read. */
  predicate Misplaced(o: Outcome, usesMain: bool) {
    !usesMain && o.res == Forbidden && o.verdict.CustomResponse?
  }

  /** What is left in the queue that was read. */
  function LeftOver(o: Outcome, rs: seq<Reply>, usesMain: bool): seq<Reply>
    requires o.used <= |rs|
  {
    if Misplaced(o, usesMain) && 1 <= o.used then rs[o.used - 1..] else rs[o.used..]
  }

  /** The loop reads k replies: up to the first stop, or all of them if there is none. */
  ghost predicate Reads(sid: nat, remaining: nat, rs: seq<Reply>, k: nat) {
    && k <= |rs|
    && (forall j :: 0 <= j < k ==> !Stop(sid, remaining, rs, j))
    && (Stop(sid, remaining, rs, k) || k == |rs|)
  }

  /** The k-th reply is where the loop stops, and it is a custom response. */
  ghost predicate CustomAt(sid: nat, remaining: nat, rs: seq<Reply>, k: nat) {
    Stop(sid, remaining, rs, k) && rs[k - 1].verdict.CustomResponse?
  }

  /** What a receive does to the queue it reads from and to the other one. */
  function QueuesAfter(o: Outcome, rs: seq<Reply>, other: seq<Reply>, usesMain: bool): (seq<Reply>, seq<Reply>)
    requires o.used <= |rs|
  {
    (LeftOver(o, rs, usesMain), if Misplaced(o, usesMain) && other != [] then other[1..] else other)
  }

  /** The k replies read left their queue and no more; or they stopped at a custom response on the sync queue. */
  ghost predicate Popped(rs: seq<Reply>, other: seq<Reply>, rs': seq<Reply>, other': seq<Reply>,
                         k: nat, misplaced: bool)
  {
    if !misplaced then k <= |rs| && rs' == rs[k..] && other' == other
    else 1 <= k <= |rs| && rs' == rs[k - 1..] && other' == if other == [] then [] else other[1..]
  }

  /**
   A receive that reads k replies takes exactly these from their queue and leaves the other queue alone iff the
   queue is the main one or the reply it stops at is not a custom response.  Otherwise the custom response
   stays at the head of the sync queue and the main queue loses its own head.
   */
  lemma PopsWhatItReadIff(sid: nat, remaining: nat, verdict: Verdict, rs: seq<Reply>, other: seq<Reply>,
                          usesMain: bool, k: nat)
    requires 1 <= remaining && Reads(sid, remaining, rs, k)
    ensures var o := Fold(sid, remaining, verdict, rs);
            && o.used == k
            && var (rs', other') := QueuesAfter(o, rs, other, usesMain);
               && (rs' == rs[k..] && other' == other <==> usesMain || !CustomAt(sid, remaining, rs, k))
               && Popped(rs, other, rs', other', k, !usesMain && CustomAt(sid, remaining, rs, k))
  {
    FoldStopsFirst(sid, remaining, verdict, rs);
  }

  lemma ReadsSome(sid: nat, remaining: nat, verdict: Verdict, rs: seq<Reply>)
    requires 1 <= remaining
    ensures var o := Fold(sid, remaining, verdict, rs);
            Reads(sid, remaining, rs, o.used) && EndsWith(sid, remaining, rs, o.used, o.res)
  {
    FoldStopsFirst(sid, remaining, verdict, rs);
  }

  /** What a receive is to do, told by the replies alone: how many it reads, how it ends, what it leaves. */
  ghost predicate Meets(sid: nat, remaining: nat, v0: Verdict, rs: seq<Reply>, other: seq<Reply>, usesMain: bool,
                        res: CommResult, v: Verdict, rs': seq<Reply>, other': seq<Reply>)
  {
    exists k: nat ::
      && Reads(sid, remaining, rs, k)
      && EndsWith(sid, remaining, rs, k, res)
      && VerdictAfter(sid, v0, rs, k, v)
      && Popped(rs, other, rs', other', k, !usesMain && CustomAt(sid, remaining, rs, k))
  }

  lemma FoldMeets(sid: nat, remaining: nat, verdict: Verdict, rs: seq<Reply>, other: seq<Reply>, usesMain: bool)
    requires 1 <= remaining
    ensures var o := Fold(sid, remaining, verdict, rs);
            && o.used <= |rs|
            && var (rs', other') := QueuesAfter(o, rs, other, usesMain);
               Meets(sid, remaining, verdict, rs, other, usesMain, o.res, o.verdict, rs', other')
  {
    ReadsSome(sid, remaining, verdict, rs);
    FoldVerdict(sid, remaining, verdict, rs);
    PopsWhatItReadIff(sid, remaining, verdict, rs, other, usesMain, Fold(sid, remaining, verdict, rs).used);
  }

  /**
   One session's custom response on the sync queue, another session's verdict on the main queue: the receive
   loses the other verdict, and the next receive reads the same custom response again.
   */
  lemma CustomResponseIsReadTwice()
    ensures var sync, main := [Reply(1, CustomResponse)], [Reply(2, Accept)];
            var o := Fold(1, 1, Inspect, sync);
            && o.res == Forbidden && o.used == 1
            && QueuesAfter(o, sync, main, false) == (sync, [])
            && Fold(1, 1, Inspect, QueuesAfter(o, sync, main, false).0).res == Forbidden
  {
    assert [Reply(2, Accept)][1..] == [];
    assert [Reply(1, CustomResponse)][0..] == [Reply(1, CustomResponse)];
  }

  /** One session's data, and the two reply queues of its attachment as the rings denote them. */
  class Session {
    const id: nat
    const asyncEnabled: bool
    var verdict: Verdict
    var remaining: nat
    var mainQueue: seq<Reply>
    var syncQueue: seq<Reply>
    /** Messages sent, and own replies consumed, since the last final verdict. */
    ghost var sent: nat
    ghost var answered: nat

    constructor (id: nat, asyncEnabled: bool, mainQueue: seq<Reply>, syncQueue: seq<Reply>)
      ensures this.id == id && this.asyncEnabled == asyncEnabled
      ensures verdict == Inspect && remaining == 0
      ensures this.mainQueue == mainQueue && this.syncQueue == syncQueue
      ensures Books() == Account(0, Inspect, 0, 0) && Balanced()
    {
      this.id, this.asyncEnabled := id, asyncEnabled;
      verdict, remaining := Inspect, 0;
      sent, answered := 0, 0;
      this.mainQueue, this.syncQueue := mainQueue, syncQueue;
    }

    ghost function Books(): Account
      reads this
    {
      Account(remaining, verdict, sent, answered)
    }

    /** The replies owed are the messages sent less those answered. */
    ghost predicate Balanced()
      reads this
    {
      remaining == sent - answered
    }

    /** get_nano_service_ipc: is it the main queue? */
    predicate UsesMain(mode: Mode) {
      !asyncEnabled || mode == Async
    }

    function Queue(mode: Mode): (q: seq<Reply>)
      reads this
      ensures q == if asyncEnabled && mode == Sync then syncQueue else mainQueue
    {
      if UsesMain(mode) then mainQueue else syncQueue
    }

    function OtherQueue(mode: Mode): (q: seq<Reply>)
      reads this
      ensures q == if asyncEnabled && mode == Sync then mainQueue else syncQueue
    {
      if UsesMain(mode) then syncQueue else mainQueue
    }

    /** handle_counter_new_message_sent */
    method CountSent(amount: nat, mode: Mode)
      modifies this`remaining, this`sent
      ensures remaining == if mode == Async then old(remaining) else old(remaining) + amount
      ensures Books() == Step(id, old(Books()), Sent(amount, mode))
      ensures old(Balanced()) ==> Balanced()
    {
      if mode == Async {
        return;
      }
      remaining := remaining + amount;
      sent := sent + amount;
    }

    method PopData(main: bool)
      modifies this`mainQueue, this`syncQueue
      ensures mainQueue == if main && old(mainQueue) != [] then old(mainQueue)[1..] else old(mainQueue)
      ensures syncQueue == if !main && old(syncQueue) != [] then old(syncQueue)[1..] else old(syncQueue)
    {
      if main {
        if mainQueue != [] { mainQueue := mainQueue[1..]; }
      } else {
        if syncQueue != [] { syncQueue := syncQueue[1..]; }
      }
    }

    /**
     `signalled` is how the signal loop before the receive ended.
     */
    method Receive(signalled: bool, mode: Mode) returns (res: CommResult)
      modifies this
      ensures old(remaining) == 0 ==>
                res == Ok && verdict == Inspect && remaining == 0
                && Queue(mode) == old(Queue(mode)) && OtherQueue(mode) == old(OtherQueue(mode))
      ensures old(remaining) != 0 && !signalled ==>
                res == Error && verdict == old(verdict) && remaining == old(remaining)
                && Queue(mode) == old(Queue(mode)) && OtherQueue(mode) == old(OtherQueue(mode))
      ensures old(remaining) != 0 && signalled ==>
                var o := Fold(id, old(remaining), old(verdict), old(Queue(mode)));
                && res == o.res && verdict == o.verdict && remaining == o.remaining
                && o.used <= |old(Queue(mode))|
                && Queue(mode) == LeftOver(o, old(Queue(mode)), UsesMain(mode))
                && OtherQueue(mode) == if Misplaced(o, UsesMain(mode)) && old(OtherQueue(mode)) != []
                                       then old(OtherQueue(mode))[1..] else old(OtherQueue(mode))
      ensures old(remaining) != 0 && signalled ==>
                Meets(id, old(remaining), old(verdict), old(Queue(mode)), old(OtherQueue(mode)), UsesMain(mode),
                      res, verdict, Queue(mode), OtherQueue(mode))
      ensures Books() == Step(id, old(Books()), Received(signalled, old(Queue(mode))))
      ensures old(Balanced()) ==> Balanced()
    {
      ghost var rs, before := Queue(mode), Books();
      StepKeepsBalance(id, before, Received(signalled, rs));
      if remaining == 0 {
        verdict := Inspect;
        return Ok;
      }
      if !signalled {
        return Error;
      }
      res := Consume(mode);
      if res != Error && Terminal(verdict) {
        sent, answered := 0, 0;
      } else {
        answered := answered + OwnCount(id, rs[..Fold(id, before.owed, before.verdict, rs).used]);
      }
    }

    /** One reply that is not skipped: count it, record it and, if it is final, end the loop. */
    method Handle(reply: Reply, mode: Mode) returns (done: bool, res: CommResult)
      requires remaining != 0 && Queue(mode) != [] && reply == Queue(mode)[0]
      modifies this`verdict, this`remaining, this`mainQueue, this`syncQueue
      ensures done <==> Terminal(reply.verdict)
      ensures verdict == Effective(reply.verdict) && Recorded(reply.verdict, verdict)
      ensures done <==> reply.verdict.Accept? || reply.verdict.Drop? || reply.verdict.CustomResponse?
      ensures done ==> remaining == 0 && res == if reply.verdict.Accept? then Ok else Forbidden
      ensures !done ==> remaining == if reply.verdict.Reconf? then old(remaining) else old(remaining) - 1
      ensures if reply.verdict.CustomResponse? && !UsesMain(mode) then
                && Queue(mode) == old(Queue(mode))
                && OtherQueue(mode) == if old(OtherQueue(mode)) != [] then old(OtherQueue(mode))[1..] else []
              else
                Queue(mode) == old(Queue(mode))[1..] && OtherQueue(mode) == old(OtherQueue(mode))
    {
      done, res := false, Ok;
      if !reply.verdict.Reconf? {
        remaining := remaining - 1;
      }
      verdict := reply.verdict;
      match verdict {
        case Drop =>
          remaining := 0;
          PopData(UsesMain(mode));
          return true, Forbidden;
        case CustomResponse =>
          remaining := 0;
          PopData(true);
          return true, Forbidden;
        case Accept =>
          remaining := 0;
          PopData(UsesMain(mode));
          return true, Ok;
        case Inject =>
          verdict := Inspect;
        case LimitResponseHeaders =>
          verdict := Inspect;
        case _ =>
      }
      PopData(UsesMain(mode));
    }

    /** What the receive loop does, told by the replies alone. */
    method Consume(mode: Mode) returns (res: CommResult)
      requires remaining != 0
      modifies this`verdict, this`remaining, this`mainQueue, this`syncQueue
      ensures var o := Fold(id, old(remaining), old(verdict), old(Queue(mode)));
              && o.used <= |old(Queue(mode))|
              && res == o.res && verdict == o.verdict && remaining == o.remaining
              && Queue(mode) == LeftOver(o, old(Queue(mode)), UsesMain(mode))
              && OtherQueue(mode) == if Misplaced(o, UsesMain(mode)) && old(OtherQueue(mode)) != []
                                     then old(OtherQueue(mode))[1..] else old(OtherQueue(mode))
      ensures Meets(id, old(remaining), old(verdict), old(Queue(mode)), old(OtherQueue(mode)), UsesMain(mode),
                    res, verdict, Queue(mode), OtherQueue(mode))
    {
      FoldMeets(id, remaining, verdict, Queue(mode), OtherQueue(mode), UsesMain(mode));
      res := ConsumeAll(mode);
    }

    /** The receive loop. */
    method ConsumeAll(mode: Mode) returns (res: CommResult)
      requires remaining != 0
      modifies this`verdict, this`remaining, this`mainQueue, this`syncQueue
      ensures var o := Fold(id, old(remaining), old(verdict), old(Queue(mode)));
              && o.used <= |old(Queue(mode))|
              && res == o.res && verdict == o.verdict && remaining == o.remaining
              && Queue(mode) == LeftOver(o, old(Queue(mode)), UsesMain(mode))
              && OtherQueue(mode) == if Misplaced(o, UsesMain(mode)) && old(OtherQueue(mode)) != []
                                     then old(OtherQueue(mode))[1..] else old(OtherQueue(mode))
    {
      ghost var rs := Queue(mode);
      ghost var k := 0;
      ghost var goal := Fold(id, remaining, verdict, rs);
      while remaining != 0
        invariant 0 <= k <= |rs|
        invariant Queue(mode) == rs[k..]
        invariant OtherQueue(mode) == old(OtherQueue(mode))
        invariant goal == Fold(id, remaining, verdict, rs[k..]).(used := Fold(id, remaining, verdict, rs[k..]).used + k)
        decreases |Queue(mode)|
      {
        if Queue(mode) == [] {
          return Error;
        }
        var reply := Queue(mode)[0];
        assert rs[k..][1..] == rs[k + 1..];
        if !reply.verdict.Reconf? && reply.session != id {
          PopData(UsesMain(mode));
        } else {
          var done;
          done, res := Handle(reply, mode);
          if done {
            return;
          }
        }
        k := k + 1;
      }
      return Ok;
    }
  }

  // ---------------------------------------------------------------- replies owed

  datatype Event = Sent(amount: nat, mode: Mode) | Received(signalled: bool, replies: seq<Reply>)

  /** Replies owed, and the messages sent and answered since the last final verdict. */
  datatype Account = Account(owed: nat, verdict: Verdict, sent: nat, answered: nat)

  function Step(sid: nat, a: Account, e: Event): Account {
    match e
    case Sent(k, Async) => a
    case Sent(k, Sync) => a.(owed := a.owed + k, sent := a.sent + k)
    case Received(signalled, rs) =>
      if a.owed == 0 then a.(verdict := Inspect)
      else if !signalled then a
      else
        var o := Fold(sid, a.owed, a.verdict, rs);
        if o.res != Error && Terminal(o.verdict) then Account(o.remaining, o.verdict, 0, 0)
        else a.(owed := o.remaining, verdict := o.verdict,
                answered := a.answered + OwnCount(sid, rs[..if o.used <= |rs| then o.used else |rs|]))
  }

  function RunEvents(sid: nat, a: Account, es: seq<Event>): Account
    decreases |es|
  {
    if es == [] then a else RunEvents(sid, Step(sid, a, es[0]), es[1..])
  }

  lemma StepKeepsBalance(sid: nat, a: Account, e: Event)
    ensures a.owed == a.sent - a.answered ==> var z := Step(sid, a, e); z.owed == z.sent - z.answered
    ensures e.Received? && a.owed > 0 ==> Fold(sid, a.owed, a.verdict, e.replies).used <= |e.replies|
  {
    if e.Received? && a.owed > 0 {
      FoldStopsFirst(sid, a.owed, a.verdict, e.replies);
      assert e.replies[..|e.replies|] == e.replies;
    }
  }

  /** Every run: the replies owed are the messages sent less the own replies consumed, since the last final verdict. */
  lemma {:induction false} OwedIsSentLessAnswered(sid: nat, a: Account, es: seq<Event>)
    requires a.owed == a.sent - a.answered
    ensures var z := RunEvents(sid, a, es); z.owed == z.sent - z.answered
    decreases |es|
  {
    if es != [] {
      StepKeepsBalance(sid, a, es[0]);
      OwedIsSentLessAnswered(sid, Step(sid, a, es[0]), es[1..]);
    }
  }
}
