/**
 Store by store or in one go: a push, peek or pop that nobody interrupts takes the
 steps of Interleaving to the ring that the closed form of Ring gives.
 */
module Uninterrupted {
  import opened Ring
  import opened RingLayout
  import opened RingFifo
  import opened Interleaving

  /** With no operation under way the ring is the quiet ring. */
  lemma QuietWords(y: Sys, b: seq<Word>, l: Layout)
    requires InvWith(y, b, l) && y.prod.PIdle? && y.cons.CIdle?
    ensures y.ring.words == b && y.ring.(words := b) == y.ring
  {
    forall i | 0 <= i < |b| ensures y.ring.words[i] == b[i] {
      assert y.ring.words[i] == Expected(y, b, i);
    }
  }

  /** How many stores a push still has to make before it publishes. */
  ghost function StoresLeft(g: Ring, p: Producer): int
    requires 1 <= g.s && p.PWriting?
  {
    (if Wraps(g, p.msg) then g.n - p.gapEnd else 0) + (if p.header then 0 else 1) + (|p.msg| - p.copied)
    + (PushBase(g, |p.msg|) + Segs(|p.msg|, g.s) - p.tailEnd)
  }

  /** One store before the last: one fewer left, for the same message. */
  lemma StoreProgress(y: Sys)
    requires Shaped(y.ring) && ProducerOk(y.ring, y.prod) && y.prod.PWriting? && !Stored(y.ring, y.prod)
    ensures var z := StoreNext(y);
            && z == y.(ring := z.ring, prod := z.prod) && z.prod.PWriting? && z.prod.msg == y.prod.msg
            && z.ring == y.ring.(words := z.ring.words, data := z.ring.data)
            && 0 <= StoresLeft(z.ring, z.prod) < StoresLeft(y.ring, y.prod)
  {
    PushShape(y.ring, y.prod);
  }

  /** The stores of a push do not change what it will have written. */
  lemma StoreKeepsGoal(y: Sys, b: seq<Word>, l: Layout)
    requires InvWith(y, b, l) && y.prod.PWriting? && !Stored(y.ring, y.prod)
    ensures var o := Offset(PushBase(y.ring, |y.prod.msg|), y.ring.s);
            && o + |y.prod.msg| <= |y.ring.data| && |StoreNext(y).ring.data| == |y.ring.data|
            && Overwrite(StoreNext(y).ring.data, o, y.prod.msg) == Overwrite(y.ring.data, o, y.prod.msg)
  {
    PushSegmentsAreFree(y.ring, y.prod);
    StoresOnlyThere(y);
  }

  /** The ring a push under way leads to. */
  ghost predicate Goal(y: Sys, b: seq<Word>, h: Ring) {
    var q := y.ring.(words := b);
    && y.prod.PWriting? && Sized(q) && |y.prod.msg| <= MAX_WRITE && q.writePos < q.n && Segs(|y.prod.msg|, q.s) <= q.n
    && h == Written(q, y.prod.msg)
  }

  lemma GoalStays(y: Sys, b: seq<Word>, l: Layout, h: Ring)
    requires InvWith(y, b, l) && Goal(y, b, h) && !Stored(y.ring, y.prod)
    ensures Goal(StoreNext(y), b, h)
  {
    StoreProgress(y);
    StoreKeepsGoal(y, b, l);
  }

  /** The system when a push of `msg` has ended and left ring h. */
  function Pushed(y: Sys, h: Ring, msg: Message): Sys {
    y.(ring := h, prod := PIdle, pushed := y.pushed + [msg],
       log := y.log + [Seen(y.ring, PushOp([msg]), Obs(0, []))])
  }

  lemma GoalReached(y: Sys, b: seq<Word>, l: Layout, h: Ring)
    requires InvWith(y, b, l) && Goal(y, b, h) && Stored(y.ring, y.prod) && y.cons.CIdle?
    ensures StoreNext(y) == Pushed(y, h, y.prod.msg)
  {
    PublishKeeps(y, b, l);
    PublishedRing(y, b, l);
    QuietWords(StoreNext(y), PushWords(y.ring.(words := b), |y.prod.msg|), Appended(y.ring, l, y.prod.msg));
  }

  /** Left alone, a push leads to the ring that the closed form gives. */
  lemma {:induction false} StoreRun(y: Sys, b: seq<Word>, l: Layout, h: Ring) returns (steps: seq<Step>)
    requires InvWith(y, b, l) && Goal(y, b, h) && y.cons.CIdle?
    ensures Schedule(y, steps)
    ensures After(y, steps) == Pushed(y, h, y.prod.msg)
    decreases StoresLeft(y.ring, y.prod)
  {
    if Stored(y.ring, y.prod) {
      GoalReached(y, b, l, h);
      steps := [];
    } else {
      StoreProgress(y);
      StoreKeepsQuiet(y, b, l);
      GoalStays(y, b, l, h);
      steps := StoreRun(StoreNext(y), b, l, h);
    }
    steps := ScheduleCons(y, Store, steps);
  }

  /** A push that nobody interrupts is the sequential push. */
  lemma PushAlone(y: Sys, msg: Message) returns (steps: seq<Step>)
    requires Inv(y) && y.prod.PIdle? && y.cons.CIdle? && Enabled(y, StartPush(msg))
    ensures Schedule(y, steps)
    ensures Push(y.ring, [msg]).code == 0
    ensures After(y, steps) ==
              y.(ring := Push(y.ring, [msg]).ring, pushed := y.pushed + [msg],
                 log := y.log + [Call(y.ring, PushOp([msg]))])
  {
    var b, l :| InvWith(y, b, l);
    QuietWords(y, b, l);
    StartPushKeeps(y, b, l, msg);
    ConcatOne(msg);
    steps := StoreRun(Do(y, StartPush(msg)), b, l, Push(y.ring, [msg]).ring);
    steps := ScheduleCons(y, StartPush(msg), steps);
  }

  /** The words when only the consumer is at work. */
  lemma ConsumerWords(y: Sys, b: seq<Word>, l: Layout)
    requires InvWith(y, b, l) && y.prod.PIdle?
    ensures y.ring.words == Fill(b, y.ring.readPos, Cleared(y.cons, y.ring.readPos), EMPTY)
  {
    forall i | 0 <= i < |b|
      ensures y.ring.words[i] == Fill(b, y.ring.readPos, Cleared(y.cons, y.ring.readPos), EMPTY)[i]
    {
      assert y.ring.words[i] == Expected(y, b, i);
    }
  }

  lemma SkipEndIs(ws: seq<Word>, p: nat, n: nat, e: nat)
    requires p <= e <= n <= |ws| && (forall i :: p <= i < e ==> ws[i] == SKIP) && (e < n ==> ws[e] != SKIP)
    ensures SkipEnd(ws, p, n) == e
  {
  }

  lemma {:induction false} ScanRun(y: Sys, b: seq<Word>, l: Layout) returns (steps: seq<Step>)
    requires InvWith(y, b, l) && y.prod.PIdle? && y.cons.Scanning?
    ensures Schedule(y, steps)
    ensures Sized(y.ring.(words := b))
    ensures var h := Peek(y.ring.(words := b)).ring;
            After(y, steps) == y.(ring := h, cons := CIdle, log := y.log + [Seen(y.ring, PeekOp, Obs(0, Shown(h)))])
    decreases y.ring.n - y.cons.at
  {
    var q := y.ring.(words := b);
    var at := y.cons.at;
    if at < y.ring.n && y.ring.words[at] == SKIP {
      ScanStepKeeps(y, b, l);
      steps := ScanRun(AdvanceNext(y), b, l);
      assert AdvanceNext(y).ring.(words := b) == q;
    } else {
      ConsumerWords(y, b, l);
      SkipEndIs(b, q.readPos, q.n, at);
      steps := [];
      assert After(AdvanceNext(y), steps) == AdvanceNext(y);
    }
    steps := ScheduleCons(y, Advance, steps);
  }

  /** A peek that nobody interrupts is the sequential peek. */
  lemma PeekAlone(y: Sys) returns (steps: seq<Step>)
    requires Inv(y) && y.prod.PIdle? && y.cons.CIdle? && Enabled(y, StartPeek)
    ensures Schedule(y, steps)
    ensures After(y, steps) == y.(ring := Peek(y.ring).ring, log := y.log + [Call(y.ring, PeekOp)])
  {
    var b, l :| InvWith(y, b, l);
    QuietWords(y, b, l);
    MoveKeeps(y, b, l, Scanning(y.ring.readPos));
    steps := ScanRun(Do(y, StartPeek), b, l);
    steps := ScheduleCons(y, StartPeek, steps);
  }

  /** The system when a pop that had read `got` has ended and left ring h. */
  function Released(y: Sys, h: Ring, got: Message): Sys {
    y.(ring := h, cons := CIdle, popped := y.popped + [got], log := y.log + [Seen(y.ring, PopOp, Obs(0, []))])
  }

  /** Draining and publishing, alone. */
  lemma {:induction false} DrainRun(y: Sys, b: seq<Word>, l: Layout) returns (steps: seq<Step>)
    requires InvWith(y, b, l) && y.prod.PIdle? && (y.cons.Draining? || y.cons.Publishing?)
    ensures Schedule(y, steps)
    ensures After(y, steps) ==
              Released(y, AfterPop(y.ring.(words := b), if y.cons.Draining? then y.ring.n else y.cons.at), y.cons.got)
    decreases y.cons.Draining?, y.ring.n - y.cons.at
  {
    if y.cons.Publishing? {
      ConsumerWords(y, b, l);
      steps := [];
    } else {
      DrainKeeps(y, b, l);
      DrainFrame(y, b);
      steps := DrainRun(AdvanceNext(y), b, l);
    }
    steps := ScheduleCons(y, Advance, steps);
  }

  lemma DrainFrame(y: Sys, b: seq<Word>)
    requires y.cons.Draining? && y.cons.at <= y.ring.n
    ensures var z := AdvanceNext(y);
            && z == y.(ring := z.ring, cons := z.cons)
            && z.ring.(words := b) == y.ring.(words := b)
            && z.cons == if y.cons.at < y.ring.n then Draining(y.cons.at + 1, y.cons.got)
                         else Publishing(y.ring.n, y.cons.got)
  {
  }

  /** The test behind the head decides as the sequential pop does. */
  lemma TestOutcome(y: Sys, b: seq<Word>, l: Layout)
    requires InvWith(y, b, l) && y.prod.PIdle? && y.cons.Clearing? && y.cons.at == y.cons.end
    ensures !Hazard(y)
    ensures Sized(y.ring.(words := b)) && y.ring.readPos < y.ring.n
    ensures var z := AdvanceNext(y);
            && z == y.(cons := z.cons) && (z.cons.Draining? || z.cons.Publishing?)
            && Pop(y.ring.(words := b)).ring ==
                 AfterPop(y.ring.(words := b), if z.cons.Draining? then y.ring.n else z.cons.at)
  {
    var at := PopEnds(y.ring.(words := b), l);
    assert y.cons.at < |b| ==> y.ring.words[y.cons.at] == Expected(y, b, y.cons.at) == b[y.cons.at];
    assert !Hazard(y) by {
      if Hazard(y) { HazardNeeds(y); }
    }
  }

  lemma TestRun(y: Sys, b: seq<Word>, l: Layout) returns (steps: seq<Step>, z: Sys)
    requires InvWith(y, b, l) && y.prod.PIdle? && y.cons.Clearing? && y.cons.at == y.cons.end
    ensures !Hazard(y) && Schedule(AdvanceNext(y), steps) && z == After(AdvanceNext(y), steps)
    ensures Sized(y.ring.(words := b)) && y.ring.readPos < y.ring.n
    ensures z.ring == Pop(y.ring.(words := b)).ring
    ensures z == Released(y, z.ring, y.cons.got)
  {
    TestOutcome(y, b, l);
    TestKeeps(y, b, l);
    steps := DrainRun(AdvanceNext(y), b, l);
    z := After(AdvanceNext(y), steps);
  }

  /** What one clearing step of a pop leaves as it was. */
  lemma ClearStepFrame(y: Sys, b: seq<Word>)
    requires y.cons.Clearing? && y.cons.at < y.cons.end
    ensures var z := AdvanceNext(y);
            && z == y.(ring := z.ring, cons := Clearing(y.cons.at + 1, y.cons.end, y.cons.got))
            && z.ring.(words := b) == y.ring.(words := b)
  {
  }

  lemma {:induction false} PopRun(y: Sys, b: seq<Word>, l: Layout) returns (steps: seq<Step>, z: Sys)
    requires InvWith(y, b, l) && y.prod.PIdle? && y.cons.Clearing? && y.cons.at <= y.cons.end
    ensures Schedule(y, steps) && z == After(y, steps)
    ensures Sized(y.ring.(words := b)) && y.ring.readPos < y.ring.n
    ensures z.ring == Pop(y.ring.(words := b)).ring
    ensures z == Released(y, z.ring, y.cons.got)
    decreases y.cons.end - y.cons.at
  {
    if y.cons.at < y.cons.end {
      ClearStepKeeps(y, b, l);
      ClearStepFrame(y, b);
      steps, z := PopRun(AdvanceNext(y), b, l);
    } else {
      steps, z := TestRun(y, b, l);
    }
    steps := ScheduleCons(y, Advance, steps);
  }

  /** A pop that nobody interrupts is the sequential pop. */
  lemma PopAlone(y: Sys) returns (steps: seq<Step>)
    requires Inv(y) && y.prod.PIdle? && y.cons.CIdle? && Enabled(y, StartPop)
    ensures Schedule(y, steps)
    ensures After(y, steps) ==
              y.(ring := Pop(y.ring).ring, popped := y.popped + [Shown(y.ring)], log := y.log + [Call(y.ring, PopOp)])
  {
    var b, l :| InvWith(y, b, l);
    QuietWords(y, b, l);
    StartPopKeeps(y, b, l);
    var z;
    steps, z := PopRun(Do(y, StartPop), b, l);
    steps := ScheduleCons(y, StartPop, steps);
  }
}
