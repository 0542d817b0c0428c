/**
 What an overtaken skip word does later.  Once both sides are done, the system differs from
 a sound one only in words from that skip word on; when the writer has come up to it, the
 pop of the last message takes it for a skip run.
 */
module StaleSkip {
  import opened Ring
  import opened RingLayout
  import opened RingFifo
  import opened Interleaving
  import opened Uninterrupted
  import opened SkipTest

  /** y is y' but for the words from i on, and a skip word stands at i. */
  ghost predicate Twin(y: Sys, y': Sys, i: nat) {
    && y == y'.(ring := y'.ring.(words := y.ring.words))
    && |y.ring.words| == |y'.ring.words|
    && i < y.ring.n <= |y.ring.words|
    && (forall j :: 0 <= j < i ==> y.ring.words[j] == y'.ring.words[j])
    && y.ring.words[i] == SKIP
  }

  // ---------------------------------------------------------------- after the overtaking

  /** The system with the words it should have. */
  ghost function Straight(z: Sys, b: seq<Word>): Sys
    requires 1 <= z.ring.s && (z.prod.PWriting? ==> |z.prod.msg| <= MAX_WRITE)
  {
    z.(ring := z.ring.(words := seq(|b|, j requires 0 <= j < |b| => Expected(z, b, j))))
  }

  lemma StraightIsBehind(z: Sys, b: seq<Word>, l: Layout, i: nat)
    requires Passed(z, b, l, i) && Stored(z.ring, z.prod)
    ensures Behind(Straight(z, b), b, l) && Twin(z, Straight(z, b), i)
  {
    var z' := Straight(z, b);
    WordsDoNotMatter(z.ring, z'.ring.words, l, z.prod, z.cons);
    assert z'.ring.(words := b) == z.ring.(words := b);
    forall j | 0 <= j < |b| ensures z'.ring.words[j] == Expected(z', b, j) {
    }
    forall j | 0 <= j < i ensures z.ring.words[j] == z'.ring.words[j] {
      assert z.ring.words[j] == Expected(z, b, j) || i <= j;
    }
  }

  lemma {:induction false} TwinFinish(y: Sys, y': Sys, i: nat)
    requires Twin(y, y', i)
    requires (y.cons.Draining? && i < y.cons.at <= y.ring.n) || (y.cons.Publishing? && y.cons.at == y.ring.n)
    ensures Twin(FinishPop(y), FinishPop(y'), i)
    decreases if y.cons.Draining? && y.cons.at < y.ring.n then y.ring.n - y.cons.at else 0, y.cons.Draining?
  {
    if y.cons.Draining? {
      TwinFinish(AdvanceNext(y), AdvanceNext(y'), i);
    }
  }

  lemma {:induction false} FinishPopRun(y: Sys) returns (steps: seq<Step>)
    requires Shaped(y.ring) && ((y.cons.Draining? && y.cons.at <= y.ring.n) || y.cons.Publishing?)
    ensures RawRun(y, steps, FinishPop(y))
    decreases if y.cons.Draining? && y.cons.at < y.ring.n then y.ring.n - y.cons.at else 0, y.cons.Draining?
  {
    steps := [];
    if y.cons.Draining? {
      steps := FinishPopRun(AdvanceNext(y));
    }
    RawRunCons(y, Advance, steps, FinishPop(y));
    steps := [Advance] + steps;
  }

  /** Both sides idle, the ring not wrapped, messages queued up to the writer, and a skip word at or behind it. */
  ghost predicate Waiting(y: Sys, y': Sys, i: nat) {
    && Twin(y, y', i)
    && Inv(y')
    && y'.prod.PIdle? && y'.cons.CIdle?
    && y'.ring.readPos < y'.ring.writePos <= i
  }

  lemma BothEndWaiting(z: Sys, b: seq<Word>, l: Layout, i: nat)
    requires Passed(z, b, l, i) && Stored(z.ring, z.prod)
    ensures var x := StoreNext(z);
            && Shaped(x.ring)
            && ((x.cons.Draining? && x.cons.at <= x.ring.n) || x.cons.Publishing?)
            && Waiting(FinishPop(x), FinishPop(StoreNext(Straight(z, b))), i)
  {
    var z' := Straight(z, b);
    StraightIsBehind(z, b, l, i);
    BehindPublish(z', b, l);
    var x, x' := StoreNext(z), StoreNext(z');
    assert x.ring == z.ring.(writePos := Segs(|z.prod.msg|, z.ring.s)) && x.cons == z.cons;
    assert Twin(x, x', i);
    TwinFinish(x, x', i);
    FinishPopKeeps(x');
    FinishPopLeaves(x', i);
  }

  /** The push ends, then the pop. */
  lemma BothEnd(z: Sys, b: seq<Word>, l: Layout, i: nat) returns (steps: seq<Step>, y: Sys, y': Sys)
    requires Passed(z, b, l, i) && Stored(z.ring, z.prod)
    ensures RawRun(z, steps, y) && Waiting(y, y', i)
  {
    BothEndWaiting(z, b, l, i);
    y, y' := FinishPop(StoreNext(z)), FinishPop(StoreNext(Straight(z, b)));
    var rest := FinishPopRun(StoreNext(z));
    RawRunCons(z, Store, rest, y);
    steps := [Store] + rest;
  }

  // ---------------------------------------------------------------- pushes in front of the skip word

  /** A store in front of the skip word. */
  lemma TwinStore(y: Sys, y': Sys, i: nat)
    requires Twin(y, y', i) && 1 <= y.ring.s && y.prod.PWriting?
    requires StoreTarget(y'.ring, y'.prod).AtWord? ==> StoreTarget(y'.ring, y'.prod).i < i
    ensures Twin(StoreNext(y), StoreNext(y'), i)
  {
  }

  lemma TargetInFront(g: Ring, p: Producer, i: nat)
    requires Shaped(g) && ProducerOk(g, p) && p.PWriting? && g.writePos + Segs(|p.msg|, g.s) <= i < g.n
    ensures StoreTarget(g, p).AtWord? ==> StoreTarget(g, p).i < i
  {
    PushShape(g, p);
  }

  lemma TwinStoreStep(y: Sys, y': Sys, b: seq<Word>, l: Layout, h: Ring, i: nat)
    requires Twin(y, y', i) && InvWith(y', b, l) && Goal(y', b, h) && y'.cons.CIdle? && !Stored(y'.ring, y'.prod)
    requires y'.ring.writePos + Segs(|y'.prod.msg|, y'.ring.s) <= i
    ensures var x, x' := StoreNext(y), StoreNext(y');
            && Twin(x, x', i) && InvWith(x', b, l) && Goal(x', b, h) && x'.cons.CIdle?
            && x'.ring.writePos + Segs(|x'.prod.msg|, x'.ring.s) <= i
            && 0 <= StoresLeft(x'.ring, x'.prod) < StoresLeft(y'.ring, y'.prod)
            && Pushed(x', h, x'.prod.msg) == Pushed(y', h, y'.prod.msg)
  {
    TargetInFront(y'.ring, y'.prod, i);
    TwinStore(y, y', i);
    StoreProgress(y');
    StoreKeepsQuiet(y', b, l);
    GoalStays(y', b, l, h);
  }

  lemma TwinPublish(y: Sys, y': Sys, b: seq<Word>, l: Layout, h: Ring, i: nat)
    requires Twin(y, y', i) && InvWith(y', b, l) && Goal(y', b, h) && y'.cons.CIdle? && Stored(y'.ring, y'.prod)
    ensures Twin(StoreNext(y), Pushed(y', h, y'.prod.msg), i)
  {
    GoalReached(y', b, l, h);
    TwinStore(y, y', i);
  }

  lemma {:induction false} TwinStoreRun(y: Sys, y': Sys, b: seq<Word>, l: Layout, h: Ring, i: nat)
    returns (steps: seq<Step>, z: Sys)
    requires Twin(y, y', i) && InvWith(y', b, l) && Goal(y', b, h) && y'.cons.CIdle?
    requires y'.ring.writePos + Segs(|y'.prod.msg|, y'.ring.s) <= i
    ensures RawRun(y, steps, z) && Twin(z, Pushed(y', h, y'.prod.msg), i)
    decreases StoresLeft(y'.ring, y'.prod)
  {
    var rest: seq<Step> := [];
    if Stored(y'.ring, y'.prod) {
      TwinPublish(y, y', b, l, h, i);
      z := StoreNext(y);
    } else {
      TwinStoreStep(y, y', b, l, h, i);
      rest, z := TwinStoreRun(StoreNext(y), StoreNext(y'), b, l, h, i);
    }
    RawRunCons(y, Store, rest, z);
    steps := [Store] + rest;
  }

  /** A single byte goes into the next segment. */
  lemma SingleFits(y: Sys, i: nat)
    requires Inv(y) && y.prod.PIdle? && y.cons.CIdle? && y.ring.readPos < y.ring.writePos < i < y.ring.n
    ensures Shaped(y.ring) && Enabled(y, StartPush(Zeros(1))) && Segs(1, y.ring.s) == 1
    ensures Push(y.ring, [Zeros(1)]).ring == Written(y.ring, Zeros(1))
    ensures var h := Written(y.ring, Zeros(1));
            && h.readPos == y.ring.readPos && h.writePos == y.ring.writePos + 1
            && Inv(Pushed(Do(y, StartPush(Zeros(1))), h, Zeros(1)))
  {
    var g := y.ring;
    SegsIsCeiling(1, g.s);
    assert Segs(1, g.s) == 1;
    AcceptsInPlace(g.n, g.writePos, g.readPos, 1);
    ConcatOne(Zeros(1));
    PushAloneKeeps(y, Zeros(1));
  }

  lemma GoalStarts(y: Sys, b: seq<Word>, l: Layout, msg: Message)
    requires InvWith(y, b, l) && y.prod.PIdle? && y.cons.CIdle? && Enabled(y, StartPush(msg))
    ensures Segs(|msg|, y.ring.s) <= y.ring.n && Goal(Do(y, StartPush(msg)), b, Written(y.ring, msg))
  {
    SegsIsCeiling(|msg|, y.ring.s);
    SpaceCheckDoesNotWrap(y.ring.n, y.ring.writePos, y.ring.readPos, Segs(|msg|, y.ring.s));
    QuietWords(y, b, l);
  }

  lemma TwinStart(y: Sys, y': Sys, i: nat, msg: Message)
    requires Twin(y, y', i) && Enabled(y', StartPush(msg))
    ensures Enabled(y, StartPush(msg)) && Twin(Do(y, StartPush(msg)), Do(y', StartPush(msg)), i)
  {
  }

  /** One more segment filled. */
  lemma WaitingPush(y: Sys, y': Sys, i: nat) returns (steps: seq<Step>, z: Sys, z': Sys)
    requires Waiting(y, y', i) && y'.ring.writePos < i
    ensures RawRun(y, steps, z) && Waiting(z, z', i) && z'.ring.writePos == y'.ring.writePos + 1
  {
    var b, l :| InvWith(y', b, l);
    SingleFits(y', i);
    TwinStart(y, y', i, Zeros(1));
    StartPushKeeps(y', b, l, Zeros(1));
    GoalStarts(y', b, l, Zeros(1));
    var h := Written(y'.ring, Zeros(1));
    var x, x' := Do(y, StartPush(Zeros(1))), Do(y', StartPush(Zeros(1)));
    var rest;
    rest, z := TwinStoreRun(x, x', b, l, h, i);
    z' := Pushed(x', h, Zeros(1));
    RawRunCons(y, StartPush(Zeros(1)), rest, z);
    steps := [StartPush(Zeros(1))] + rest;
  }

  lemma PushAloneKeeps(y: Sys, msg: Message)
    requires Inv(y) && y.prod.PIdle? && y.cons.CIdle? && Enabled(y, StartPush(msg))
    ensures Push(y.ring, [msg]).code == 0
    ensures Inv(y.(ring := Push(y.ring, [msg]).ring, pushed := y.pushed + [msg],
                   log := y.log + [Call(y.ring, PushOp([msg]))]))
  {
    var steps := PushAlone(y, msg);
    EveryInterleavingIsFifo(y, steps);
  }

  /** Pushes until the writer stands on the skip word. */
  lemma {:induction false} FillUp(y: Sys, y': Sys, i: nat) returns (steps: seq<Step>, z: Sys, z': Sys)
    requires Waiting(y, y', i)
    ensures RawRun(y, steps, z) && Waiting(z, z', i) && z'.ring.writePos == i
    decreases i - y'.ring.writePos
  {
    if y'.ring.writePos == i {
      steps, z, z' := [], y, y';
    } else {
      var first, x, x' := WaitingPush(y, y', i);
      var rest;
      rest, z, z' := FillUp(x, x', i);
      RawRunAppend(y, first, x, rest, z);
      steps := first + rest;
    }
  }

  // ---------------------------------------------------------------- pops in front of the skip word

  lemma TwinClearWord(y: Sys, y': Sys, i: nat)
    requires Twin(y, y', i) && y'.cons.Clearing? && y'.cons.at < y'.cons.end <= i
    ensures var x, x' := AdvanceNext(y), AdvanceNext(y');
            && Twin(x, x', i)
            && x' == y'.(ring := x'.ring, cons := Clearing(y'.cons.at + 1, y'.cons.end, y'.cons.got))
            && x'.ring == y'.ring.(words := x'.ring.words)
  {
  }

  lemma TwinClearStep(y: Sys, y': Sys, i: nat)
    requires Twin(y, y', i) && Inv(y') && y'.cons.Clearing? && y'.cons.at < y'.cons.end <= i
    ensures var x, x' := AdvanceNext(y), AdvanceNext(y');
            && Shaped(y.ring)
            && Twin(x, x', i) && Inv(x')
            && x' == y'.(ring := x'.ring, cons := Clearing(y'.cons.at + 1, y'.cons.end, y'.cons.got))
            && x'.ring == y'.ring.(words := x'.ring.words)
  {
    TwinClearWord(y, y', i);
    assert Shaped(y'.ring) && !Hazard(y') && Enabled(y', Advance);
    StepKeeps(y', Advance);
  }

  /** The loop of a pop over its head, in front of the skip word. */
  lemma {:induction false} TwinClear(y: Sys, y': Sys, i: nat) returns (steps: seq<Step>, z: Sys, z': Sys)
    requires Twin(y, y', i) && Inv(y') && y'.cons.Clearing? && y'.cons.at <= y'.cons.end <= i
    ensures RawRun(y, steps, z) && Twin(z, z', i) && Inv(z')
    ensures z' == y'.(ring := z'.ring, cons := Clearing(y'.cons.end, y'.cons.end, y'.cons.got))
    ensures z'.ring == y'.ring.(words := z'.ring.words)
    decreases y'.cons.end - y'.cons.at
  {
    if y'.cons.at == y'.cons.end {
      steps, z, z' := [], y, y';
    } else {
      TwinClearStep(y, y', i);
      var rest;
      rest, z, z' := TwinClear(AdvanceNext(y), AdvanceNext(y'), i);
      RawRunCons(y, Advance, rest, z);
      steps := [Advance] + rest;
    }
  }

  /** The head of a ring that is not wrapped, and where it ends. */
  lemma HeadEnds(y: Sys)
    requires Inv(y) && y.cons.CIdle? && y.ring.readPos < y.ring.writePos
    ensures Enabled(y, StartPop)
    ensures var end := y.ring.readPos + Segs(y.ring.words[y.ring.readPos], y.ring.s);
            && end <= y.ring.writePos
            && |y.pushed| >= |y.popped| + 1
            && (end == y.ring.writePos <==> |y.pushed| == |y.popped| + 1)
  {
    var b, l :| InvWith(y, b, l);
    UsedIsQuiet(y, b, l, y.ring.readPos);
    TilesBounds(y.ring.s, b, y.ring.data, y.ring.readPos + Segs(|l.front[0]|, y.ring.s), y.ring.writePos, l.front[1..]);
  }

  /** The test in front of the skip word finds the next message. */
  lemma TwinTest(y: Sys, y': Sys, i: nat)
    requires Twin(y, y', i) && Inv(y') && y'.prod.PIdle? && y'.cons.Clearing? && y'.cons.at == y'.cons.end < i
    requires y'.ring.readPos < y'.cons.end < y'.ring.writePos <= i
    ensures Shaped(y.ring) && Inv(AdvanceNext(y'))
    ensures AdvanceNext(y) == y.(cons := Publishing(y'.cons.end, y'.cons.got))
    ensures AdvanceNext(y') == y'.(cons := Publishing(y'.cons.end, y'.cons.got))
  {
    StepKeeps(y', Advance);
  }

  lemma TwinRelease(y: Sys, y': Sys, i: nat)
    requires Twin(y, y', i) && Inv(y') && y'.prod.PIdle? && y'.cons.Publishing?
    requires y'.cons.at < y'.ring.writePos <= i
    ensures Waiting(AdvanceNext(y), AdvanceNext(y'), i)
  {
    StepKeeps(y', Advance);
  }

  /** The test and the store to readPos, in front of the skip word. */
  lemma TwinPopEnds(y: Sys, y': Sys, i: nat) returns (steps: seq<Step>, z: Sys, z': Sys)
    requires Twin(y, y', i) && Inv(y') && y'.prod.PIdle? && y'.cons.Clearing? && y'.cons.at == y'.cons.end < i
    requires y'.ring.readPos < y'.cons.end < y'.ring.writePos <= i
    ensures RawRun(y, steps, z) && Waiting(z, z', i)
    ensures z'.ring.writePos == y'.ring.writePos && z'.pushed == y'.pushed && |z'.popped| == |y'.popped| + 1
  {
    TwinTest(y, y', i);
    var x, x' := AdvanceNext(y), AdvanceNext(y');
    TwinRelease(x, x', i);
    z, z' := AdvanceNext(x), AdvanceNext(x');
    RawRunCons(x, Advance, [], z);
    RawRunCons(y, Advance, [Advance] + [], z);
    steps := [Advance] + ([Advance] + []);
  }

  /** A pop begins, on both. */
  lemma TwinStartPop(y: Sys, y': Sys, i: nat)
    requires Waiting(y, y', i)
    ensures Enabled(y, StartPop) && Enabled(y', StartPop)
    ensures var x, x' := Do(y, StartPop), Do(y', StartPop);
            && Twin(x, x', i) && Inv(x') && x' == y'.(cons := x'.cons) && x'.cons.Clearing?
            && x'.cons.at == y'.ring.readPos < x'.cons.end <= y'.ring.writePos
            && (x'.cons.end == y'.ring.writePos <==> |y'.pushed| == |y'.popped| + 1)
            && |y'.pushed| > |y'.popped| && y'.pushed[..|y'.popped|] == y'.popped
            && x'.cons.got == y'.pushed[|y'.popped|]
  {
    HeadEnds(y');
    StepKeeps(y', StartPop);
    HeadIsLong(Do(y', StartPop));
  }

  /** One message out, not the last. */
  lemma WaitingPop(y: Sys, y': Sys, i: nat) returns (steps: seq<Step>, z: Sys, z': Sys)
    requires Waiting(y, y', i) && |y'.pushed| >= |y'.popped| + 2
    ensures RawRun(y, steps, z) && Waiting(z, z', i) && z'.ring.writePos == y'.ring.writePos
    ensures z'.pushed == y'.pushed && |z'.popped| == |y'.popped| + 1
  {
    TwinStartPop(y, y', i);
    var x, x' := Do(y, StartPop), Do(y', StartPop);
    var first, w, w' := TwinClear(x, x', i);
    var second;
    second, z, z' := TwinPopEnds(w, w', i);
    RawRunAppend(x, first, w, second, z);
    RawRunCons(y, StartPop, first + second, z);
    steps := [StartPop] + (first + second);
  }

  lemma HeadIsLong(y: Sys)
    requires Inv(y) && y.cons.Clearing?
    ensures y.cons.end > y.ring.readPos && y.pushed[..|y.popped|] == y.popped && |y.pushed| > |y.popped|
    ensures y.cons.got == y.pushed[|y.popped|]
  {
  }

  /** The test finds the stale skip word, and the pop ends at segment 0. */
  lemma StalePopEnds(y: Sys, i: nat) returns (steps: seq<Step>, z: Sys)
    requires Shaped(y.ring) && y.prod.PIdle? && y.cons.Clearing? && y.cons.at == y.cons.end == i == y.ring.writePos
    requires 0 < i < y.ring.n && y.ring.words[i] == SKIP && y.pushed == y.popped + [y.cons.got]
    ensures RawRun(y, steps, z) && z.prod.PIdle? && z.cons.CIdle?
    ensures z.popped == z.pushed && z.ring.readPos != z.ring.writePos
  {
    var v := AdvanceNext(y);
    assert v == y.(cons := Draining(i, y.cons.got));
    FinishPopLands(v);
    FinishPopIdle(v);
    z := FinishPop(v);
    var rest := FinishPopRun(v);
    RawRunCons(y, Advance, rest, z);
    steps := [Advance] + rest;
  }

  lemma {:induction false} FinishPopIdle(y: Sys)
    requires y.cons.Draining? || y.cons.Publishing?
    ensures FinishPop(y).cons.CIdle? && FinishPop(y).prod == y.prod
    decreases if y.cons.Draining? && y.cons.at < y.ring.n then y.ring.n - y.cons.at else 0, y.cons.Draining?
  {
    if y.cons.Draining? { FinishPopIdle(AdvanceNext(y)); }
  }

  /** The last message out, with the skip word right behind it. */
  lemma LastPop(y: Sys, y': Sys, i: nat) returns (steps: seq<Step>, z: Sys)
    requires Waiting(y, y', i) && |y'.pushed| == |y'.popped| + 1 && y'.ring.writePos == i
    ensures RawRun(y, steps, z) && z.prod.PIdle? && z.cons.CIdle?
    ensures z.popped == z.pushed && z.ring.readPos != z.ring.writePos
  {
    TwinStartPop(y, y', i);
    var x, x' := Do(y, StartPop), Do(y', StartPop);
    var first, w, w' := TwinClear(x, x', i);
    assert w.pushed == w.popped + [w.cons.got];
    var second;
    second, z := StalePopEnds(w, i);
    RawRunAppend(x, first, w, second, z);
    RawRunCons(y, StartPop, first + second, z);
    steps := [StartPop] + (first + second);
  }

  lemma {:induction false} PopAll(y: Sys, y': Sys, i: nat) returns (steps: seq<Step>, z: Sys)
    requires Waiting(y, y', i) && y'.ring.writePos == i
    ensures RawRun(y, steps, z) && z.prod.PIdle? && z.cons.CIdle?
    ensures z.popped == z.pushed && z.ring.readPos != z.ring.writePos
    decreases |y'.pushed| - |y'.popped|
  {
    HeadEnds(y');
    if |y'.pushed| == |y'.popped| + 1 {
      steps, z := LastPop(y, y', i);
    } else {
      var first, x, x' := WaitingPop(y, y', i);
      var rest;
      rest, z := PopAll(x, x', i);
      RawRunAppend(y, first, x, rest, z);
      steps := first + rest;
    }
  }

  /**
   After every run in which the drain overtook the producer, although the push is published before the pop ends:
   let both end, push single bytes until the writer stands on the skip word left behind, and pop everything, one
   call after the other.  Then all is released and the ring is not empty.
   */
  lemma OvertakenShowsPhantomLater(y: Sys, steps: seq<Step>, z: Sys) returns (more: seq<Step>, x: Sys)
    requires Inv(y) && Hazard(y)
    requires RawRun(AdvanceNext(y), steps, z) && z.popped == y.popped && |z.pushed| == |y.pushed|
    requires 1 <= z.ring.s && z.prod.PWriting? && Stored(z.ring, z.prod)
    requires Overtakes(AdvanceNext(y), steps)
    ensures RawRun(z, more, x) && x.prod.PIdle? && x.cons.CIdle?
    ensures x.popped == x.pushed && x.ring.readPos != x.ring.writePos
  {
    var b, l :| InvWith(y, b, l);
    HazardFaces(y);
    HazardIsBehind(y, b, l);
    BehindRun(y, AdvanceNext(y), b, l, steps, z);
    var i :| Passed(z, b, l, i);
    var s1, x1, x1' := BothEnd(z, b, l, i);
    var s2, x2, x2' := FillUp(x1, x1', i);
    var s3;
    s3, x := PopAll(x2, x2', i);
    RawRunAppend(z, s1, x1, s2, x2);
    RawRunAppend(z, s1 + s2, x2, s3, x);
    more := s1 + s2 + s3;
  }

  /** A whole run, from a created ring of eight segments, in which this happens. */
  lemma LaterPhantomIsReachable(data: seq<Byte>)
    returns (first: seq<Step>, y: Sys, steps: seq<Step>, z: Sys, more: seq<Step>, x: Sys)
    requires |data| == Offset(8, 1024)
    ensures Schedule(Init(8, 1024, data), first) && y == After(Init(8, 1024, data), first) && Hazard(y)
    ensures RawRun(AdvanceNext(y), steps, z) && Overtakes(AdvanceNext(y), steps) && z.popped == y.popped
    ensures 1 <= z.ring.s && z.prod.PWriting? && Stored(z.ring, z.prod)
    ensures RawRun(z, more, x) && x.prod.PIdle? && x.cons.CIdle?
    ensures x.popped == x.pushed && x.ring.readPos != x.ring.writePos
  {
    var y0, s1 := RingBeforeWrap(8, data, Zeros(3073), Zeros(1025));
    SpaceCheckDoesNotWrap(8, 6, 4, 3);
    var s2 := HazardArises(y0, Zeros(2049));
    ScheduleAppend(Init(8, 1024, data), s1, s2);
    first := s1 + s2;
    y := After(y0, s2);
    EveryInterleavingIsFifo(y0, s2);
    steps, z := OvertakingArises(y);
    more, x := OvertakenShowsPhantomLater(y, steps, z);
  }
}
