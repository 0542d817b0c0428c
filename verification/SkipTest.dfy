/**
 The skip test of a pop reads a word that the producer may be writing.  What that does
 to a run, and what callers can do to be safe.
 */
module SkipTest {
  import opened Ring
  import opened RingLayout
  import opened RingFifo
  import opened Interleaving
  import opened Uninterrupted

  /** The consumer alone, from the skip loop of a pop to its end. */
  function FinishPop(y: Sys): Sys
    requires y.cons.Draining? || y.cons.Publishing?
    decreases if y.cons.Draining? && y.cons.at < y.ring.n then y.ring.n - y.cons.at else 0, y.cons.Draining?
  {
    if y.cons.Publishing? then AdvanceNext(y) else FinishPop(AdvanceNext(y))
  }

  lemma {:induction false} FinishPopLands(y: Sys)
    requires y.cons.Draining? && y.cons.at <= y.ring.n
    ensures var z := FinishPop(y);
            && z.ring == y.ring.(words := z.ring.words, readPos := 0)
            && |z.ring.words| == |y.ring.words|
            && z.pushed == y.pushed
            && z.popped == y.popped + [y.cons.got]
    decreases y.ring.n - y.cons.at
  {
    if y.cons.at < y.ring.n {
      FinishPopLands(AdvanceNext(y));
    } else {
      assert FinishPop(y) == AdvanceNext(AdvanceNext(y));
    }
  }

  /**
   From any hazard, if the consumer finishes its pop before the producer publishes, everything
   published has been released and yet the ring is not empty: the next peek succeeds on nothing.
   */
  lemma HazardShowsPhantom(y: Sys)
    requires Inv(y) && Hazard(y)
    ensures var z := FinishPop(AdvanceNext(y));
            z.popped == z.pushed && z.ring.readPos != z.ring.writePos && Sized(z.ring) && Peek(z.ring).code == 0
  {
    HazardNeeds(y);
    var b, l :| InvWith(y, b, l);
    assert AdvanceNext(y) == y.(cons := Draining(y.cons.at, y.cons.got));
    FinishPopLands(AdvanceNext(y));
    assert y.pushed == y.popped + [y.cons.got];
  }

  lemma {:induction false} ClearRun(y: Sys) returns (steps: seq<Step>)
    requires Inv(y) && y.cons.Clearing? && y.cons.at <= y.cons.end
    ensures Schedule(y, steps)
    ensures After(y, steps).cons == Clearing(y.cons.end, y.cons.end, y.cons.got)
    ensures After(y, steps).prod == y.prod && After(y, steps).ring == y.ring.(words := After(y, steps).ring.words)
    ensures |After(y, steps).ring.words| == |y.ring.words|
    ensures After(y, steps).ring.words[y.ring.writePos] == y.ring.words[y.ring.writePos]
    decreases y.cons.end - y.cons.at
  {
    if y.cons.at == y.cons.end {
      steps := [];
    } else {
      AdvanceLeavesFree(y, y.ring.writePos);
      StepKeeps(y, Advance);
      var rest := ClearRun(Do(y, Advance));
      steps := ScheduleCons(y, Advance, rest);
    }
  }

  /** One skip word of a wrapping push is stored. */
  lemma FirstSkipStored(y: Sys, msg: Message)
    requires Inv(y) && y.prod.PIdle? && Enabled(y, StartPush(msg)) && Wraps(y.ring, msg)
    ensures var y1 := Do(y, StartPush(msg));
            && Enabled(y1, Store)
            && var y2 := Do(y1, Store);
               && Inv(y2)
               && y2 == y1.(ring := y2.ring, prod := y2.prod)
               && y2.ring == y.ring.(words := y.ring.words[y.ring.writePos := SKIP])
               && y2.prod == y1.prod.(gapEnd := y.ring.writePos + 1)
  {
    var y1 := Do(y, StartPush(msg));
    StepKeeps(y, StartPush(msg));
    StepKeeps(y1, Store);
  }

  /**
   The hazard is reached from every quiet ring that holds one peeked message and accepts a push
   that wraps: start the push, let it store one skip word, and pop.
   */
  lemma HazardArises(y: Sys, msg: Message) returns (steps: seq<Step>)
    requires Inv(y) && y.prod.PIdle? && y.cons.CIdle? && |y.pushed| == |y.popped| + 1
    requires y.ring.readPos < y.ring.writePos
    requires Enabled(y, StartPush(msg)) && Wraps(y.ring, msg)
    ensures Schedule(y, steps) && Hazard(After(y, steps))
    ensures After(y, steps).ring.n == y.ring.n
    ensures After(y, steps).prod.PWriting? && After(y, steps).prod.gapEnd == y.ring.writePos + 1
  {
    FirstSkipStored(y, msg);
    var y1 := Do(y, StartPush(msg));
    var y2 := Do(y1, Store);
    steps := PopIntoHazard(y2);
    steps := ScheduleCons(y1, Store, steps);
    steps := ScheduleCons(y, StartPush(msg), steps);
  }

  lemma PopIntoHazard(y: Sys) returns (steps: seq<Step>)
    requires Inv(y) && y.cons.CIdle? && |y.pushed| == |y.popped| + 1
    requires y.ring.readPos < y.ring.writePos < |y.ring.words| && y.ring.words[y.ring.writePos] == SKIP
    ensures Schedule(y, steps) && Hazard(After(y, steps))
    ensures After(y, steps).prod == y.prod && After(y, steps).ring.n == y.ring.n
  {
    HeadEndsAtWrite(y);
    StepKeeps(y, StartPop);
    steps := ClearRun(Do(y, StartPop));
    steps := ScheduleCons(y, StartPop, steps);
  }

  lemma HeadEndsAtWrite(y: Sys)
    requires Inv(y) && y.cons.CIdle? && |y.pushed| == |y.popped| + 1
    requires y.ring.readPos < y.ring.writePos
    ensures Enabled(y, StartPop)
    ensures y.ring.readPos + Segs(y.ring.words[y.ring.readPos], y.ring.s) == y.ring.writePos
  {
    var b, l :| InvWith(y, b, l);
    UsedIsQuiet(y, b, l, y.ring.readPos);
    assert |l.front| == 1 && l.front[1..] == [];
    assert Tiles(y.ring.s, b, y.ring.data, y.ring.readPos + Segs(|l.front[0]|, y.ring.s), y.ring.writePos, []);
  }

  /** A push that stays clear of the end is accepted by a ring that is not wrapped. */
  lemma AcceptsInPlace(n: nat, w: nat, r: nat, num: nat)
    requires r <= w && w + num < n <= 2048 && num <= 64
    ensures SpaceCheck(n, w, r, num) && !Overrun(n, w, r, num)
  {
    SpaceCheckDoesNotWrap(n, w, r, num);
  }

  /** One message in and out: both positions behind its segments. */
  lemma RingInAndOut(n: nat, data: seq<Byte>, msg: Message) returns (y: Sys, steps: seq<Step>)
    requires |data| == Offset(n, 1024) && n <= 512 && 1 <= |msg| <= MAX_WRITE && Segs(|msg|, 1024) < n
    ensures Schedule(Init(n, 1024, data), steps) && y == After(Init(n, 1024, data), steps) && Inv(y)
    ensures y.prod.PIdle? && y.cons.CIdle? && y.pushed == y.popped
    ensures y.ring.n == n && y.ring.s == 1024 && Shaped(y.ring)
    ensures y.ring.readPos == y.ring.writePos == Segs(|msg|, 1024)
  {
    var y0 := Init(n, 1024, data);
    InitHolds(n, 1024, data);
    SegsIsCeiling(|msg|, 1024);
    AcceptsInPlace(n, 0, 0, Segs(|msg|, 1024));
    var first, y1 := PushFrom(y0, msg);
    var second;
    second, y := PopFrom(y1);
    ScheduleAppend(y0, first, second);
    steps := first + second;
  }

  /** And another one in: the ring holds it, behind the segments of the first. */
  lemma RingBeforeWrap(n: nat, data: seq<Byte>, m1: Message, m2: Message) returns (y: Sys, steps: seq<Step>)
    requires |data| == Offset(n, 1024) && n <= 512 && 1 <= |m1| <= MAX_WRITE && 1 <= |m2| <= MAX_WRITE
    requires Segs(|m1|, 1024) + Segs(|m2|, 1024) < n
    ensures Schedule(Init(n, 1024, data), steps) && y == After(Init(n, 1024, data), steps) && Inv(y)
    ensures y.prod.PIdle? && y.cons.CIdle? && |y.pushed| == |y.popped| + 1
    ensures y.ring.n == n && y.ring.s == 1024 && Shaped(y.ring) && Segs(|m2|, 1024) >= 1
    ensures y.ring.readPos == Segs(|m1|, 1024) && y.ring.writePos == Segs(|m1|, 1024) + Segs(|m2|, 1024)
  {
    SegsIsCeiling(|m2|, 1024);
    var y1, first := RingInAndOut(n, data, m1);
    AcceptsInPlace(n, y1.ring.writePos, y1.ring.readPos, Segs(|m2|, 1024));
    var second;
    second, y := PushFrom(y1, m2);
    ScheduleAppend(Init(n, 1024, data), first, second);
    steps := first + second;
  }

  lemma PushFrom(y: Sys, msg: Message) returns (steps: seq<Step>, z: Sys)
    requires Inv(y) && y.prod.PIdle? && y.cons.CIdle? && Enabled(y, StartPush(msg))
    ensures Schedule(y, steps) && z == After(y, steps) && Inv(z) && Shaped(z.ring)
    ensures z.prod.PIdle? && z.cons.CIdle? && z.pushed == y.pushed + [msg] && z.popped == y.popped
    ensures z.ring.n == y.ring.n && z.ring.s == y.ring.s && z.ring.readPos == y.ring.readPos
    ensures z.ring.writePos == NextWrite(y.ring.n, y.ring.writePos, Segs(|msg|, y.ring.s))
  {
    steps := PushAlone(y, msg);
    ConcatOne(msg);
    z := After(y, steps);
    EveryInterleavingIsFifo(y, steps);
  }

  lemma PopFrom(y: Sys) returns (steps: seq<Step>, z: Sys)
    requires Inv(y) && y.prod.PIdle? && y.cons.CIdle? && |y.pushed| == |y.popped| + 1
    requires y.ring.readPos < y.ring.writePos
    ensures Schedule(y, steps) && z == After(y, steps) && Inv(z) && Shaped(z.ring)
    ensures z.prod.PIdle? && z.cons.CIdle? && z.pushed == z.popped == y.pushed
    ensures z.ring.n == y.ring.n && z.ring.s == y.ring.s
    ensures z.ring.readPos == z.ring.writePos == y.ring.writePos
  {
    HeadEndsAtWrite(y);
    steps := PopAlone(y);
    z := After(y, steps);
    EveryInterleavingIsFifo(y, steps);
    EmptyTestIsExact(z);
  }

  /** A whole schedule, from a created ring of six segments, that ends in the hazard. */
  lemma HazardIsReachable(data: seq<Byte>) returns (steps: seq<Step>)
    requires |data| == Offset(6, 1024)
    ensures Schedule(Init(6, 1024, data), steps) && Hazard(After(Init(6, 1024, data), steps))
  {
    var y, first := RingBeforeWrap(6, data, Zeros(2049), Zeros(1025));
    var second := HazardArises(y, Zeros(1025));
    ScheduleAppend(Init(6, 1024, data), first, second);
    steps := first + second;
  }

  // ---------------------------------------------------------------- runs that pass the hazard

  /** `steps` take y to z.  Unlike in a Schedule, the hazard may be passed. */
  ghost predicate RawRun(y: Sys, steps: seq<Step>, z: Sys)
    decreases |steps|
  {
    if steps == [] then z == y else Enabled(y, steps[0]) && RawRun(Do(y, steps[0]), steps[1..], z)
  }

  /** What the hazard is made of: the last message ends where a wrapping push under way began. */
  ghost predicate Facing(y: Sys) {
    && Shaped(y.ring)
    && y.prod.PWriting?
    && Wraps(y.ring, y.prod.msg)
    && Segs(|y.prod.msg|, y.ring.s) < y.ring.readPos < y.ring.writePos
    && 1 <= Segs(|y.prod.msg|, y.ring.s)
    && y.cons.Clearing?
    && y.pushed == y.popped + [y.cons.got]
  }

  lemma HazardFaces(y: Sys)
    requires Inv(y) && Hazard(y)
    ensures Facing(y)
    ensures AdvanceNext(y) == y.(cons := Draining(y.cons.at, y.cons.got)) && y.cons.at == y.ring.writePos
  {
    HazardNeeds(y);
    var b, l :| InvWith(y, b, l);
    PushShape(y.ring, y.prod);
  }

  /** The pop that passed the hazard at y is still under way at z. */
  ghost predicate Window(y: Sys, z: Sys)
    requires Facing(y)
  {
    && z.ring == y.ring.(words := z.ring.words, data := z.ring.data, writePos := z.ring.writePos)
    && |z.ring.words| == |y.ring.words| && |z.ring.data| == |y.ring.data|
    && z.popped == y.popped
    && ((z.cons.Draining? && z.cons.at <= z.ring.n && z.cons.got == y.cons.got)
        || z.cons == Publishing(z.ring.n, y.cons.got))
    && if |z.pushed| == |y.pushed| then
         z.pushed == y.pushed && z.prod.PWriting? && z.prod.msg == y.prod.msg && z.ring.writePos == y.ring.writePos
       else
         && |z.pushed| > |y.pushed|
         && 0 < z.ring.writePos < y.ring.readPos
         && (z.prod.PWriting? ==>
              && 1 <= Segs(|z.prod.msg|, z.ring.s)
              && z.ring.writePos + Segs(|z.prod.msg|, z.ring.s) < y.ring.readPos)
  }

  lemma WindowPush(y: Sys, z: Sys, msg: Message)
    requires Facing(y) && Window(y, z) && Enabled(z, StartPush(msg))
    ensures Window(y, Do(z, StartPush(msg)))
  {
    var g := z.ring;
    SegsIsCeiling(|msg|, g.s);
    AdmissionIsExact(g.n, g.writePos, g.readPos, Segs(|msg|, g.s));
    AdmissionCases(g.n, g.writePos, g.readPos, Segs(|msg|, g.s));
  }

  lemma WindowStore(y: Sys, z: Sys)
    requires Facing(y) && Window(y, z) && z.prod.PWriting?
    ensures Window(y, StoreNext(z))
  {
    if Stored(z.ring, z.prod) {
      assert StoreNext(z).ring.writePos == NextWrite(z.ring.n, z.ring.writePos, Segs(|z.prod.msg|, z.ring.s));
    }
  }

  lemma WindowStep(y: Sys, z: Sys, st: Step)
    requires Facing(y) && Window(y, z) && Enabled(z, st) && !(st.Advance? && z.cons.Publishing?)
    ensures Window(y, Do(z, st))
  {
    match st
    case StartPush(msg) => WindowPush(y, z, msg);
    case Store => WindowStore(y, z);
    case _ =>
  }

  lemma {:induction false} PoppedGrows(y: Sys, steps: seq<Step>, z: Sys)
    requires RawRun(y, steps, z)
    ensures |z.popped| >= |y.popped|
    decreases |steps|
  {
    if steps != [] {
      PoppedGrows(Do(y, steps[0]), steps[1..], z);
    }
  }

  lemma {:induction false} WindowRun(y: Sys, x: Sys, steps: seq<Step>, z: Sys)
    requires Facing(y) && Window(y, x) && RawRun(x, steps, z) && z.popped == y.popped
    ensures Window(y, z)
    decreases |steps|
  {
    if steps != [] {
      PoppedGrows(Do(x, steps[0]), steps[1..], z);
      WindowStep(y, x, steps[0]);
      WindowRun(y, Do(x, steps[0]), steps[1..], z);
    }
  }

  /**
   Let a pop pass the hazard at y and let both sides run on, in any way, until that pop is about to store the
   read position.  After that store the emptiness test is right iff the producer has published in the meantime;
   if it has not, everything is released and yet a peek finds the ring not empty.
   */
  lemma PhantomIff(y: Sys, steps: seq<Step>, z: Sys)
    requires Inv(y) && Hazard(y)
    requires RawRun(AdvanceNext(y), steps, z) && z.cons.Publishing? && z.popped == y.popped
    ensures var x := AdvanceNext(z);
            && ((x.ring.readPos == x.ring.writePos <==> x.popped == x.pushed) <==> |z.pushed| > |y.pushed|)
            && (|z.pushed| == |y.pushed| ==> x.popped == x.pushed && Sized(x.ring) && Peek(x.ring).code == 0)
  {
    HazardFaces(y);
    WindowRun(y, AdvanceNext(y), steps, z);
  }

  // ---------------------------------------------------------------- when the push ends first

  /** The drain of a pop steps past the last skip word that the producer has stored. */
  ghost predicate Passes(y: Sys, st: Step) {
    st.Advance? && y.cons.Draining? && y.prod.PWriting? && y.cons.at == y.prod.gapEnd < y.ring.n
  }

  ghost predicate Overtakes(y: Sys, steps: seq<Step>)
    decreases |steps|
  {
    && steps != []
    && Enabled(y, steps[0])
    && (Passes(y, steps[0]) || Overtakes(Do(y, steps[0]), steps[1..]))
  }

  /** The drain is not ahead of the producer: the picture of Interleaving, except for what the consumer believes. */
  ghost predicate Behind(z: Sys, b: seq<Word>, l: Layout) {
    && Core(z, b, l)
    && z.prod.PWriting?
    && Wraps(z.ring, z.prod.msg)
    && z.ring.readPos < z.ring.writePos
    && |l.front| == 1
    && match z.cons
       case Draining(at, got) => got == l.front[0] && z.ring.writePos <= at <= z.prod.gapEnd
       case Publishing(at, got) => got == l.front[0] && at == z.ring.n == z.prod.gapEnd
       case _ => false
  }

  /** The drain has passed a word into which the producer stores a skip word later, or has stored one. */
  ghost predicate Ahead(z: Sys, i: nat) {
    && 1 <= z.ring.s && z.ring.n <= |z.ring.words|
    && z.prod.PWriting?
    && Wraps(z.ring, z.prod.msg)
    && 1 <= Segs(|z.prod.msg|, z.ring.s) < z.ring.readPos < z.ring.writePos <= i < z.ring.n
    && z.prod.gapEnd <= z.ring.n && z.prod.copied <= |z.prod.msg| && z.prod.tailEnd <= Segs(|z.prod.msg|, z.ring.s)
    && (z.prod.header ==> z.prod.gapEnd == z.ring.n)
    && (z.prod.gapEnd > i ==> z.ring.words[i] == SKIP)
    && match z.cons
       case Draining(at, _) => i < at <= z.ring.n
       case Publishing(at, _) => at == z.ring.n
       case _ => false
  }

  lemma BehindOpen(z: Sys, b: seq<Word>, l: Layout)
    requires Behind(z, b, l)
    ensures Undisturbed(z)
  {
    PushShape(z.ring, z.prod);
  }

  lemma BehindStore(z: Sys, b: seq<Word>, l: Layout)
    requires Behind(z, b, l) && !Stored(z.ring, z.prod)
    ensures Behind(StoreNext(z), b, l)
  {
    BehindOpen(z, b, l);
    StoreCore(z, b, l);
    StoreFrame(z);
  }

  lemma BehindClear(z: Sys, b: seq<Word>, l: Layout)
    requires Behind(z, b, l) && z.cons.Draining? && z.cons.at < z.prod.gapEnd
    ensures Behind(AdvanceNext(z), b, l)
  {
    var c := Draining(z.cons.at + 1, z.cons.got);
    ClearWords(z, b, c);
    WordsDoNotMatter(z.ring, Clear(z.ring, z.cons.at).words, l, z.prod, c);
    assert Clear(z.ring, z.cons.at).(words := b) == z.ring.(words := b);
  }

  lemma BehindAdvance(z: Sys, b: seq<Word>, l: Layout)
    requires Behind(z, b, l) && z.cons.Draining? && !Passes(z, Advance)
    ensures Behind(AdvanceNext(z), b, l)
  {
    if z.cons.at < z.prod.gapEnd {
      BehindClear(z, b, l);
    } else {
      assert AdvanceNext(z) == z.(cons := Publishing(z.cons.at, z.cons.got));
      SameCleared(z, b, l, Publishing(z.cons.at, z.cons.got));
    }
  }

  lemma SameCleared(z: Sys, b: seq<Word>, l: Layout, c: Consumer)
    requires Core(z, b, l) && Cleared(c, z.ring.readPos) == Cleared(z.cons, z.ring.readPos)
    ensures Core(z.(cons := c), b, l)
  {
    var z' := z.(cons := c);
    forall i | 0 <= i < |b| ensures z'.ring.words[i] == Expected(z', b, i) {
      assert z.ring.words[i] == Expected(z, b, i);
    }
  }

  /** If the drain was not ahead, publishing makes its skip run a real one. */
  lemma BehindPublish(z: Sys, b: seq<Word>, l: Layout)
    requires Behind(z, b, l) && Stored(z.ring, z.prod)
    ensures Inv(StoreNext(z))
  {
    PublishedRing(z, b, l);
    PublishCore(z, b, l);
    PushShape(z.ring, z.prod);
    assert InvWith(StoreNext(z), PushWords(z.ring.(words := b), |z.prod.msg|), Appended(z.ring, l, z.prod.msg));
  }

  lemma AheadStore(z: Sys, i: nat)
    requires Ahead(z, i) && !Stored(z.ring, z.prod)
    ensures Ahead(StoreNext(z), i)
  {
  }

  lemma AheadAdvance(z: Sys, i: nat)
    requires Ahead(z, i) && z.cons.Draining?
    ensures Ahead(AdvanceNext(z), i)
  {
  }

  /** The picture of Interleaving without the words. */
  ghost predicate Base(z: Sys, b: seq<Word>, l: Layout) {
    && |b| == |z.ring.words|
    && Represents(z.ring.(words := b), l)
    && ProducerOk(z.ring, z.prod)
    && z.pushed == z.popped + Contents(l)
    && FifoRun([], z.log, Contents(l))
  }

  /** The words are what they should be, except for skip words from i on that the drain had passed when they came. */
  ghost predicate Loose(z: Sys, b: seq<Word>, i: nat)
    requires 1 <= z.ring.s && (z.prod.PWriting? ==> |z.prod.msg| <= MAX_WRITE) && |b| == |z.ring.words|
  {
    forall j :: 0 <= j < |b| ==>
      || z.ring.words[j] == Expected(z, b, j)
      || (i <= j < Cleared(z.cons, z.ring.readPos) && z.ring.words[j] == SKIP)
  }

  /** The whole picture once the drain has passed word i. */
  ghost predicate Passed(z: Sys, b: seq<Word>, l: Layout, i: nat) {
    && Base(z, b, l)
    && Ahead(z, i)
    && i <= z.prod.gapEnd
    && Loose(z, b, i)
    && |l.front| == 1 && z.cons.got == l.front[0]
  }

  lemma PassingIsPassed(z: Sys, b: seq<Word>, l: Layout)
    requires Behind(z, b, l) && Passes(z, Advance)
    ensures Passed(AdvanceNext(z), b, l, z.cons.at)
  {
    PushShape(z.ring, z.prod);
    var c := Draining(z.cons.at + 1, z.cons.got);
    ClearWords(z, b, c);
    WordsDoNotMatter(z.ring, Clear(z.ring, z.cons.at).words, l, z.prod, c);
    assert Clear(z.ring, z.cons.at).(words := b) == z.ring.(words := b);
  }

  lemma LooseStore(y: Sys, b: seq<Word>, i: nat, p': Producer, at: nat, v: Word)
    requires 1 <= y.ring.s && y.prod.PWriting? && p'.PWriting? && p'.msg == y.prod.msg && |p'.msg| <= MAX_WRITE
    requires |b| == |y.ring.words| && Loose(y, b, i) && at < |b|
    requires y.ring.readPos <= at < Cleared(y.cons, y.ring.readPos) ==> i <= at && v == SKIP
    requires Wrote(y.ring, p', at) && WroteValue(y.ring, p', at) == v
    requires forall j :: 0 <= j < |b| && j != at ==> (Wrote(y.ring, p', j) <==> Wrote(y.ring, y.prod, j))
    ensures Loose(y.(ring := y.ring.(words := y.ring.words[at := v]), prod := p'), b, i)
  {
  }

  lemma BaseStoreWord(z: Sys, b: seq<Word>, l: Layout, p': Producer, at: nat, v: Word)
    requires Base(z, b, l) && ProducerOk(z.ring, p') && at < |b|
    ensures Base(z.(ring := z.ring.(words := z.ring.words[at := v]), prod := p'), b, l)
  {
    WordsDoNotMatter(z.ring, z.ring.words[at := v], l, p', z.cons);
    assert z.ring.(words := z.ring.words[at := v]).(words := b) == z.ring.(words := b);
  }

  lemma PassedStoreWord(z: Sys, b: seq<Word>, l: Layout, i: nat, p': Producer, at: nat, v: Word)
    requires Passed(z, b, l, i) && !Stored(z.ring, z.prod)
    requires p'.PWriting? && p'.msg == z.prod.msg && p'.gapEnd >= z.prod.gapEnd && ProducerOk(z.ring, p') && at < |b|
    requires StoreNext(z) == z.(ring := z.ring.(words := z.ring.words[at := v]), prod := p')
    requires z.ring.readPos <= at < Cleared(z.cons, z.ring.readPos) ==> i <= at && v == SKIP
    requires Wrote(z.ring, p', at) && WroteValue(z.ring, p', at) == v
    requires forall j :: 0 <= j < |b| && j != at ==> (Wrote(z.ring, p', j) <==> Wrote(z.ring, z.prod, j))
    ensures Passed(StoreNext(z), b, l, i)
  {
    AheadStore(z, i);
    BaseStoreWord(z, b, l, p', at, v);
    LooseStore(z, b, i, p', at, v);
  }

  lemma PassedStoreByte(z: Sys, b: seq<Word>, l: Layout, i: nat)
    requires Passed(z, b, l, i) && z.prod.header && z.prod.copied < |z.prod.msg|
    ensures Passed(StoreNext(z), b, l, i)
  {
    var g, p := z.ring, z.prod;
    AheadStore(z, i);
    StoreByteNext(z);
    StoreByteProgress(g, p);
    StoreByteRing(g, b, l, p, Offset(PushBase(g, |p.msg|), g.s) + p.copied, p.msg[p.copied]);
    assert Loose(StoreNext(z), b, i) by {
      forall j | 0 <= j < |b| ensures Expected(StoreNext(z), b, j) == Expected(z, b, j) {
      }
    }
  }

  lemma PassedStore(z: Sys, b: seq<Word>, l: Layout, i: nat)
    requires Passed(z, b, l, i) && !Stored(z.ring, z.prod)
    ensures Passed(StoreNext(z), b, l, i)
  {
    var p := z.prod;
    PushShape(z.ring, p);
    if p.gapEnd < z.ring.n {
      PassedStoreWord(z, b, l, i, p.(gapEnd := p.gapEnd + 1), p.gapEnd, SKIP);
    } else if !p.header {
      PassedStoreWord(z, b, l, i, p.(header := true), 0, |p.msg|);
    } else if p.copied < |p.msg| {
      PassedStoreByte(z, b, l, i);
    } else {
      StoreTailNext(z);
      PassedStoreWord(z, b, l, i, p.(tailEnd := p.tailEnd + 1), p.tailEnd, SKIP);
    }
  }

  lemma LooseClear(z: Sys, b: seq<Word>, i: nat, c: Consumer)
    requires 1 <= z.ring.s && (z.prod.PWriting? ==> |z.prod.msg| <= MAX_WRITE)
    requires |b| == |z.ring.words| && Loose(z, b, i)
    requires var at := Cleared(z.cons, z.ring.readPos);
             at < |b| && z.ring.readPos <= at && Cleared(c, z.ring.readPos) == at + 1
    ensures var z' := z.(ring := Clear(z.ring, Cleared(z.cons, z.ring.readPos)), cons := c);
            |z'.ring.words| == |b| && Loose(z', b, i)
  {
  }

  lemma PassedAdvance(z: Sys, b: seq<Word>, l: Layout, i: nat)
    requires Passed(z, b, l, i) && z.cons.Draining?
    ensures Passed(AdvanceNext(z), b, l, i)
  {
    AheadAdvance(z, i);
    if z.cons.at < z.ring.n {
      var c := Draining(z.cons.at + 1, z.cons.got);
      LooseClear(z, b, i, c);
      WordsDoNotMatter(z.ring, Clear(z.ring, z.cons.at).words, l, z.prod, c);
      assert Clear(z.ring, z.cons.at).(words := b) == z.ring.(words := b);
    } else {
      forall j | 0 <= j < |b| ensures Expected(AdvanceNext(z), b, j) == Expected(z, b, j) {
      }
    }
  }

  lemma {:induction false} PushedGrows(y: Sys, steps: seq<Step>, z: Sys)
    requires RawRun(y, steps, z)
    ensures |z.pushed| >= |y.pushed|
    decreases |steps|
  {
    if steps != [] {
      StepBeforePublish(y, steps[0]);
      PushedGrows(Do(y, steps[0]), steps[1..], z);
    }
  }

  /** In the window, before the push ends, the only steps are its stores and the drain's. */
  lemma WindowSteps(y: Sys, x: Sys, steps: seq<Step>, z: Sys)
    requires Facing(y) && Window(y, x) && RawRun(x, steps, z) && steps != []
    requires z.popped == y.popped && |z.pushed| == |y.pushed|
    ensures x.prod.PWriting?
    ensures if steps[0].Store? then !Stored(x.ring, x.prod) else steps[0].Advance? && x.cons.Draining?
    ensures Window(y, Do(x, steps[0])) && RawRun(Do(x, steps[0]), steps[1..], z)
  {
    PushedGrows(x, steps, z);
    PushedGrows(Do(x, steps[0]), steps[1..], z);
    PoppedGrows(Do(x, steps[0]), steps[1..], z);
    WindowStep(y, x, steps[0]);
  }

  lemma {:induction false} PassedRun(y: Sys, x: Sys, b: seq<Word>, l: Layout, i: nat, steps: seq<Step>, z: Sys)
    requires Facing(y) && Window(y, x) && RawRun(x, steps, z)
    requires z.popped == y.popped && |z.pushed| == |y.pushed|
    requires Passed(x, b, l, i)
    ensures Passed(z, b, l, i)
    decreases |steps|
  {
    if steps != [] {
      WindowSteps(y, x, steps, z);
      if steps[0].Store? { PassedStore(x, b, l, i); } else { PassedAdvance(x, b, l, i); }
      PassedRun(y, Do(x, steps[0]), b, l, i, steps[1..], z);
    }
  }

  /** Up to the end of the push, the drain is ahead iff it has overtaken the producer. */
  lemma {:induction false} BehindRun(y: Sys, x: Sys, b: seq<Word>, l: Layout, steps: seq<Step>, z: Sys)
    requires Facing(y) && Window(y, x) && RawRun(x, steps, z)
    requires z.popped == y.popped && |z.pushed| == |y.pushed|
    requires Behind(x, b, l)
    ensures if Overtakes(x, steps) then exists i :: Passed(z, b, l, i) else Behind(z, b, l)
    decreases |steps|
  {
    if steps != [] {
      WindowSteps(y, x, steps, z);
      var x' := Do(x, steps[0]);
      if Passes(x, steps[0]) {
        PassingIsPassed(x, b, l);
        PassedRun(y, x', b, l, x.cons.at, steps[1..], z);
      } else {
        if steps[0].Store? { BehindStore(x, b, l); } else { BehindAdvance(x, b, l); }
        BehindRun(y, x', b, l, steps[1..], z);
      }
    }
  }

  lemma HazardIsBehind(y: Sys, b: seq<Word>, l: Layout)
    requires InvWith(y, b, l) && Hazard(y)
    ensures Behind(AdvanceNext(y), b, l)
  {
    HazardNeeds(y);
    HazardFaces(y);
    SameCleared(y, b, l, Draining(y.cons.at, y.cons.got));
  }

  lemma {:induction false} FinishPopKeeps(y: Sys)
    requires Inv(y) && (y.cons.Draining? || y.cons.Publishing?)
    ensures var z := FinishPop(y);
            && Inv(z) && z.cons.CIdle? && z.prod == y.prod
            && z.pushed == y.pushed && z.popped == y.popped + [y.cons.got]
    decreases if y.cons.Draining? && y.cons.at < y.ring.n then y.ring.n - y.cons.at else 0, y.cons.Draining?
  {
    var b, l :| InvWith(y, b, l);
    var b', l' := AdvanceKeeps(y, b, l);
    if y.cons.Draining? {
      FinishPopKeeps(AdvanceNext(y));
    }
  }

  /** A drain does not come back to a word it has passed. */
  lemma {:induction false} FinishPopLeaves(y: Sys, i: nat)
    requires (y.cons.Draining? && i < y.cons.at <= y.ring.n) || (y.cons.Publishing? && y.cons.at == y.ring.n)
    requires i < |y.ring.words|
    ensures var z := FinishPop(y);
            && z.ring == y.ring.(words := z.ring.words, readPos := 0)
            && |z.ring.words| == |y.ring.words| && z.ring.words[i] == y.ring.words[i]
    decreases if y.cons.Draining? && y.cons.at < y.ring.n then y.ring.n - y.cons.at else 0, y.cons.Draining?
  {
    if y.cons.Draining? {
      FinishPopLeaves(AdvanceNext(y), i);
    }
  }

  /** An overtaken skip word stays behind in what should be free segments. */
  lemma AheadIsStale(z: Sys, i: nat, q: seq<Message>)
    requires Ahead(z, i) && Stored(z.ring, z.prod)
    ensures !Denotes(FinishPop(StoreNext(z)).ring, q)
  {
    var x := StoreNext(z);
    assert x.ring == z.ring.(writePos := Segs(|z.prod.msg|, z.ring.s)) && x.cons == z.cons;
    FinishPopLeaves(x, i);
  }

  lemma HealedDenotes(z: Sys)
    requires Inv(z) && z.prod.PIdle? && z.cons.CIdle?
    ensures |z.popped| <= |z.pushed| && Denotes(z.ring, z.pushed[|z.popped|..])
  {
    var b, l :| InvWith(z, b, l);
    QuietWords(z, b, l);
    assert z.pushed[|z.popped|..] == Contents(l);
  }

  /**
   Let a pop pass the hazard at y and let both sides run on, in any way, until the push is about to end; then let
   the pop end.  The ring is the one-message queue it should be iff the drain never overtook the producer's skip
   words, and in that case the invariant is back as soon as the push has ended, so that every schedule from there
   on is FIFO.
   */
  lemma HealsIff(y: Sys, steps: seq<Step>, z: Sys)
    requires Inv(y) && Hazard(y)
    requires RawRun(AdvanceNext(y), steps, z) && z.popped == y.popped && |z.pushed| == |y.pushed|
    requires 1 <= z.ring.s && z.prod.PWriting? && Stored(z.ring, z.prod)
    ensures var x := StoreNext(z);
            && (x.cons.Draining? || x.cons.Publishing?)
            && (Denotes(FinishPop(x).ring, [z.prod.msg]) <==> !Overtakes(AdvanceNext(y), steps))
            && (Inv(x) <==> !Overtakes(AdvanceNext(y), steps))
  {
    var b, l :| InvWith(y, b, l);
    HazardFaces(y);
    HazardIsBehind(y, b, l);
    WindowRun(y, AdvanceNext(y), steps, z);
    BehindRun(y, AdvanceNext(y), b, l, steps, z);
    PublishIsLast(z);
    if Overtakes(AdvanceNext(y), steps) {
      var i :| Passed(z, b, l, i);
      OvertakenIsLost(y, z, i);
    } else {
      BehindPublish(z, b, l);
      HealedIsOneMessage(y, z);
    }
  }

  lemma PublishIsLast(z: Sys)
    requires 1 <= z.ring.s && z.prod.PWriting? && Stored(z.ring, z.prod)
    ensures var x := StoreNext(z);
            && x.prod.PIdle? && x.pushed == z.pushed + [z.prod.msg] && x.popped == z.popped && x.cons == z.cons
  {
  }

  lemma OvertakenIsLost(y: Sys, z: Sys, i: nat)
    requires Facing(y) && Window(y, z) && |z.pushed| == |y.pushed| && Stored(z.ring, z.prod) && Ahead(z, i)
    ensures !Denotes(FinishPop(StoreNext(z)).ring, [z.prod.msg]) && !Inv(StoreNext(z))
  {
    AheadIsStale(z, i, [z.prod.msg]);
    if Inv(StoreNext(z)) {
      HealedIsOneMessage(y, z);
    }
  }

  lemma HealedIsOneMessage(y: Sys, z: Sys)
    requires Facing(y) && Window(y, z) && |z.pushed| == |y.pushed|
    requires Stored(z.ring, z.prod) && Inv(StoreNext(z))
    ensures Denotes(FinishPop(StoreNext(z)).ring, [z.prod.msg])
  {
    PublishIsLast(z);
    FinishPopKeeps(StoreNext(z));
    var x := FinishPop(StoreNext(z));
    HealedDenotes(x);
    assert x.pushed[|x.popped|..] == [z.prod.msg];
  }

  lemma {:induction false} RawRunAppend(y: Sys, first: seq<Step>, x: Sys, second: seq<Step>, z: Sys)
    requires RawRun(y, first, x) && RawRun(x, second, z)
    ensures RawRun(y, first + second, z)
    ensures Overtakes(y, first) ==> Overtakes(y, first + second)
    decreases |first|
  {
    if first == [] {
      assert first + second == second;
    } else {
      RawRunAppend(Do(y, first[0]), first[1..], x, second, z);
      RawRunCons(y, first[0], first[1..] + second, z);
      FirstAndRest(first, second);
    }
  }

  lemma RawRunCons(y: Sys, st: Step, rest: seq<Step>, z: Sys)
    requires Enabled(y, st) && RawRun(Do(y, st), rest, z)
    ensures RawRun(y, [st] + rest, z)
    ensures Passes(y, st) || Overtakes(Do(y, st), rest) ==> Overtakes(y, [st] + rest)
  {
    assert ([st] + rest)[1..] == rest;
  }

  /** A drain left alone passes the producer's last skip word. */
  lemma {:induction false} DrainPast(x: Sys, b: seq<Word>, l: Layout) returns (steps: seq<Step>, z: Sys, i: nat)
    requires Behind(x, b, l) && x.cons.Draining? && x.prod.gapEnd < x.ring.n
    ensures RawRun(x, steps, z) && Overtakes(x, steps)
    ensures Passed(z, b, l, i) && z.popped == x.popped && z.pushed == x.pushed
    decreases x.prod.gapEnd - x.cons.at
  {
    var x' := AdvanceNext(x);
    var rest: seq<Step> := [];
    if x.cons.at == x.prod.gapEnd {
      PassingIsPassed(x, b, l);
      z, i := x', x.cons.at;
    } else {
      BehindAdvance(x, b, l);
      rest, z, i := DrainPast(x', b, l);
    }
    RawRunCons(x, Advance, rest, z);
    steps := [Advance] + rest;
  }

  /** A push left alone stores all it has to store. */
  lemma {:induction false} StoreAll(x: Sys, b: seq<Word>, l: Layout, i: nat) returns (steps: seq<Step>, z: Sys)
    requires Passed(x, b, l, i)
    ensures RawRun(x, steps, z) && Passed(z, b, l, i) && Stored(z.ring, z.prod)
    ensures z.popped == x.popped && z.pushed == x.pushed
    decreases StoresLeft(x.ring, x.prod)
  {
    if Stored(x.ring, x.prod) {
      steps, z := [], x;
    } else {
      StoreProgress(x);
      PassedStore(x, b, l, i);
      var rest;
      rest, z := StoreAll(StoreNext(x), b, l, i);
      RawRunCons(x, Store, rest, z);
      steps := [Store] + rest;
    }
  }

  /** From every hazard at which a skip word is still to be stored, the drain can overtake the producer. */
  lemma OvertakingArises(y: Sys) returns (steps: seq<Step>, z: Sys)
    requires Inv(y) && Hazard(y) && y.prod.PWriting? && y.prod.gapEnd < y.ring.n
    ensures RawRun(AdvanceNext(y), steps, z) && Overtakes(AdvanceNext(y), steps)
    ensures z.popped == y.popped && z.pushed == y.pushed
    ensures 1 <= z.ring.s && z.prod.PWriting? && Stored(z.ring, z.prod)
  {
    var b, l :| InvWith(y, b, l);
    HazardFaces(y);
    HazardIsBehind(y, b, l);
    var first, x, i := DrainPast(AdvanceNext(y), b, l);
    var second;
    second, z := StoreAll(x, b, l, i);
    RawRunAppend(AdvanceNext(y), first, x, second, z);
    steps := first + second;
  }

  // ---------------------------------------------------------------- a rule for callers

  ghost predicate WrapUnderWay(y: Sys)
    requires 1 <= y.ring.s
  {
    y.prod.PWriting? && Wraps(y.ring, y.prod.msg)
  }

  /** The last message is not popped during a wrapping push, and no wrapping push starts during such a pop. */
  ghost predicate Careful(y: Sys, st: Step)
    requires Shaped(y.ring)
  {
    match st
    case StartPop => |y.pushed| >= |y.popped| + 2 || !WrapUnderWay(y)
    case StartPush(msg) => Wraps(y.ring, msg) ==> |y.pushed| >= |y.popped| + 2 || !y.cons.Clearing?
    case _ => true
  }

  ghost predicate CarefulRun(y: Sys, steps: seq<Step>)
    decreases |steps|
  {
    steps != [] ==>
      && Enabled(y, steps[0])
      && Careful(y, steps[0])
      && CarefulRun(Do(y, steps[0]), steps[1..])
  }

  ghost predicate Apart(y: Sys)
    requires 1 <= y.ring.s
  {
    y.cons.Clearing? ==> |y.pushed| >= |y.popped| + 2 || !WrapUnderWay(y)
  }

  lemma CarefulStep(y: Sys, st: Step)
    requires Inv(y) && Enabled(y, st) && Apart(y) && Careful(y, st)
    ensures !(st.Advance? && Hazard(y))
    ensures Inv(Do(y, st)) && 1 <= Do(y, st).ring.s && Apart(Do(y, st))
  {
    if Hazard(y) { HazardNeeds(y); }
    StepKeeps(y, st);
    ApartStays(y, st);
  }

  lemma ApartStays(y: Sys, st: Step)
    requires Enabled(y, st) && Apart(y) && Careful(y, st)
    ensures 1 <= Do(y, st).ring.s && Apart(Do(y, st))
  {
  }

  /** Callers who keep to the rule never meet the hazard, so all their runs are FIFO. */
  lemma {:induction false} CarefulRunsAreFifo(y: Sys, steps: seq<Step>)
    requires Inv(y) && 1 <= y.ring.s && Apart(y) && CarefulRun(y, steps)
    ensures Schedule(y, steps) && Inv(After(y, steps))
    ensures var z := After(y, steps);
            z.popped <= z.pushed && FifoRun([], z.log, z.pushed[|z.popped|..])
    decreases |steps|
  {
    if steps != [] {
      CarefulStep(y, steps[0]);
      CarefulRunsAreFifo(Do(y, steps[0]), steps[1..]);
    }
    EveryInterleavingIsFifo(y, steps);
  }
}
