/**
 One producer and one consumer on the same ring, every store a step of its own.
 The producer publishes with its last store, to writePos; the consumer with its
 last store, to readPos.  Loads and stores are sequentially consistent.
 */
module Interleaving {
  import opened Ring
  import opened RingLayout
  import opened RingFifo

  /**
   A push under way, after its position snapshot passed the space check.  Skip words are in
   [writePos, gapEnd), the size word is in place if `header`, `copied` bytes are in the data
   segments, and skip words are in (base, tailEnd).
   */
  datatype Producer =
    | PIdle
    | PWriting(msg: Message, gapEnd: nat, header: bool, copied: nat, tailEnd: nat)

  /**
   Scanning is the skip loop of a peek; Clearing, Draining and Publishing are a pop: over the head's
   own words, over a skip run behind it, and before the store to readPos.  Words in [readPos, at) are cleared.
   `got` is what the caller read at the head before it asked for the pop.
   */
  datatype Consumer =
    | CIdle
    | Scanning(at: nat)
    | Clearing(at: nat, end: nat, got: Message)
    | Draining(at: nat, got: Message)
    | Publishing(at: nat, got: Message)

  /**
   The history: `pushed` is what was published, `popped` what the consumer read from the ring for each pop
   that ended, and `log` every call that ended, in the order of the stores that ended them.
   */
  datatype Sys = Sys(ring: Ring, prod: Producer, cons: Consumer,
                     pushed: seq<Message>, popped: seq<Message>, log: seq<Event>)

  /** RefusePush, EmptyPeek and EmptyPop are calls that return an error after reading the positions. */
  datatype Step =
    | StartPush(msg: Message) | RefusePush(msg: Message) | Store
    | StartPeek | StartPop | EmptyPeek | EmptyPop | Advance

  function Cleared(c: Consumer, r: nat): nat {
    match c
    case CIdle => r
    case Scanning(at) => at
    case Clearing(at, _, _) => at
    case Draining(at, _) => at
    case Publishing(at, _) => at
  }

  predicate Wraps(g: Ring, msg: Message)
    requires 1 <= g.s
  {
    g.writePos + Segs(|msg|, g.s) > g.n
  }

  predicate Stored(g: Ring, p: Producer)
    requires 1 <= g.s && p.PWriting?
  {
    && (Wraps(g, p.msg) ==> p.gapEnd == g.n)
    && p.header
    && p.copied == |p.msg|
    && p.tailEnd == PushBase(g, |p.msg|) + Segs(|p.msg|, g.s)
  }

  // ---------------------------------------------------------------- steps

  ghost predicate Enabled(y: Sys, st: Step) {
    && Shaped(y.ring)
    && match st
       case StartPush(msg) =>
         && y.prod.PIdle?
         && 1 <= |msg| <= MAX_WRITE
         && SpaceCheck(y.ring.n, y.ring.writePos, y.ring.readPos, Segs(|msg|, y.ring.s))
         && !Overrun(y.ring.n, y.ring.writePos, y.ring.readPos, Segs(|msg|, y.ring.s))
       case RefusePush(msg) =>
         && y.prod.PIdle?
         && 1 <= |msg|
         && (|msg| > MAX_WRITE || !SpaceCheck(y.ring.n, y.ring.writePos, y.ring.readPos, Segs(|msg|, y.ring.s)))
       case Store => y.prod.PWriting?
       case EmptyPeek => y.cons.CIdle? && y.ring.readPos == y.ring.writePos
       case EmptyPop => y.cons.CIdle? && y.ring.readPos == y.ring.writePos
       case StartPeek => y.cons.CIdle? && y.ring.readPos != y.ring.writePos
       case StartPop =>
         && y.cons.CIdle? && y.ring.readPos != y.ring.writePos
         && y.ring.words[y.ring.readPos] != SKIP
       case Advance => !y.cons.CIdle?
  }

  /** The producer's next store, in program order. */
  function StoreNext(y: Sys): Sys
    requires 1 <= y.ring.s && y.prod.PWriting?
  {
    var g := y.ring;
    var p := y.prod;
    var num := Segs(|p.msg|, g.s);
    var base := PushBase(g, |p.msg|);
    if Wraps(g, p.msg) && p.gapEnd < g.n then
      if p.gapEnd < |g.words| then
        y.(ring := g.(words := g.words[p.gapEnd := SKIP]), prod := p.(gapEnd := p.gapEnd + 1))
      else y
    else if !p.header then
      if base < |g.words| && |p.msg| <= MAX_WRITE then
        y.(ring := g.(words := g.words[base := |p.msg|]), prod := p.(header := true))
      else y
    else if p.copied < |p.msg| then
      var o := Offset(base, g.s) + p.copied;
      if o < |g.data| then
        y.(ring := g.(data := g.data[o := p.msg[p.copied]]), prod := p.(copied := p.copied + 1))
      else y
    else if p.tailEnd < base + num then
      if p.tailEnd < |g.words| then
        y.(ring := g.(words := g.words[p.tailEnd := SKIP]), prod := p.(tailEnd := p.tailEnd + 1))
      else y
    else
      y.(ring := g.(writePos := NextWrite(g.n, g.writePos, num)), prod := PIdle,
         pushed := y.pushed + [p.msg], log := y.log + [Seen(g, PushOp([p.msg]), Obs(0, []))])
  }

  function Clear(g: Ring, at: nat): Ring {
    if at < |g.words| then g.(words := g.words[at := EMPTY]) else g
  }

  /** The consumer's next step: a test and store of its loop, or the store to readPos. */
  function AdvanceNext(y: Sys): Sys
    requires !y.cons.CIdle?
  {
    var g := y.ring;
    match y.cons
    case Scanning(at) =>
      if at < g.n && at < |g.words| && g.words[at] == SKIP then
        y.(ring := Clear(g, at), cons := Scanning(at + 1))
      else
        var h := g.(readPos := if at == g.n then 0 else at);
        y.(ring := h, cons := CIdle, log := y.log + [Seen(g, PeekOp, Obs(0, Shown(h)))])
    case Clearing(at, end, got) =>
      if at < end then y.(ring := Clear(g, at), cons := Clearing(at + 1, end, got))
      else if at < g.n && at < |g.words| && g.words[at] == SKIP then y.(cons := Draining(at, got))
      else y.(cons := Publishing(at, got))
    case Draining(at, got) =>
      if at < g.n then y.(ring := Clear(g, at), cons := Draining(at + 1, got)) else y.(cons := Publishing(at, got))
    case Publishing(at, got) =>
      y.(ring := g.(readPos := if at == g.n then 0 else at), cons := CIdle,
         popped := y.popped + [got], log := y.log + [Seen(g, PopOp, Obs(0, []))])
  }

  function Do(y: Sys, st: Step): Sys
    requires Enabled(y, st)
  {
    match st
    case StartPush(msg) =>
      y.(prod := PWriting(msg, y.ring.writePos, false, 0, PushBase(y.ring, |msg|) + 1))
    case RefusePush(msg) =>
      y.(log := y.log + [Seen(y.ring, PushOp([msg]), Obs(if |msg| > MAX_WRITE then -2 else -3, []))])
    case Store => StoreNext(y)
    case StartPeek => y.(cons := Scanning(y.ring.readPos))
    case StartPop =>
      var r := y.ring.readPos;
      y.(cons := Clearing(r, r + Segs(y.ring.words[r], y.ring.s), Shown(y.ring)))
    case EmptyPeek => y.(log := y.log + [Seen(y.ring, PeekOp, Obs(-1, []))])
    case EmptyPop => y.(log := y.log + [Seen(y.ring, PopOp, Obs(-1, []))])
    case Advance => AdvanceNext(y)
  }

  /** Where the producer's next store goes: a word, a byte, or writePos. */
  datatype Target = AtWord(i: nat) | AtByte(o: nat) | AtWritePos

  function StoreTarget(g: Ring, p: Producer): Target
    requires 1 <= g.s && p.PWriting?
  {
    var base := PushBase(g, |p.msg|);
    if Wraps(g, p.msg) && p.gapEnd < g.n then AtWord(p.gapEnd)
    else if !p.header then AtWord(base)
    else if p.copied < |p.msg| then AtByte(Offset(base, g.s) + p.copied)
    else if p.tailEnd < base + Segs(|p.msg|, g.s) then AtWord(p.tailEnd)
    else AtWritePos
  }

  /** The consumer has not cleared the word that the producer stores into next. */
  ghost predicate Undisturbed(y: Sys)
    requires 1 <= y.ring.s && y.prod.PWriting?
  {
    forall i :: y.ring.readPos <= i < Cleared(y.cons, y.ring.readPos) ==> StoreTarget(y.ring, y.prod) != AtWord(i)
  }

  // ---------------------------------------------------------------- invariant

  /** The producer has stored into word i, and what it stored. */
  predicate Wrote(g: Ring, p: Producer, i: nat)
    requires 1 <= g.s
  {
    && p.PWriting?
    && var base := PushBase(g, |p.msg|);
       || (Wraps(g, p.msg) && g.writePos <= i < p.gapEnd)
       || (i == base && p.header)
       || base < i < p.tailEnd
  }

  function WroteValue(g: Ring, p: Producer, i: nat): Word
    requires 1 <= g.s && p.PWriting? && |p.msg| <= MAX_WRITE
  {
    if i == PushBase(g, |p.msg|) then |p.msg| else SKIP
  }

  ghost predicate ProducerOk(g: Ring, p: Producer)
    requires Shaped(g)
  {
    p.PWriting? ==>
      var num := Segs(|p.msg|, g.s);
      var base := PushBase(g, |p.msg|);
      && 1 <= |p.msg| <= MAX_WRITE
      && Admissible(g.n, g.writePos, g.readPos, num)
      && g.writePos <= p.gapEnd <= g.n
      && (p.header ==> Wraps(g, p.msg) ==> p.gapEnd == g.n)
      && (p.copied > 0 ==> p.header)
      && p.copied <= |p.msg|
      && (p.tailEnd > base + 1 ==> p.copied == |p.msg|)
      && base + 1 <= p.tailEnd <= base + num
      && Offset(base, g.s) + |p.msg| <= |g.data|
      && g.data[Offset(base, g.s)..Offset(base, g.s) + p.copied] == p.msg[..p.copied]
  }

  ghost predicate ConsumerOk(g: Ring, l: Layout, c: Consumer)
    requires Shaped(g)
  {
    match c
    case CIdle => true
    case Scanning(at) =>
      && g.readPos != g.writePos
      && g.readPos <= at <= g.n
      && (at > g.readPos ==> g.readPos > g.writePos && l.front == [])
    case Clearing(at, end, got) =>
      && l.front != [] && got == l.front[0]
      && end == g.readPos + Segs(|l.front[0]|, g.s)
      && g.readPos <= at <= end
    case Draining(at, got) =>
      && g.readPos > g.writePos
      && |l.front| == 1 && got == l.front[0]
      && l.mid < g.n
      && l.mid <= at <= g.n
    case Publishing(at, got) =>
      && l.front != [] && got == l.front[0]
      && (at == g.readPos + Segs(|l.front[0]|, g.s)
          || (at == g.n && g.readPos > g.writePos && |l.front| == 1 && l.mid < g.n))
  }

  /** What word i holds, given the words `b` the ring would have with no operation under way. */
  function Expected(y: Sys, b: seq<Word>, i: nat): Word
    requires 1 <= y.ring.s && i < |b| && (y.prod.PWriting? ==> |y.prod.msg| <= MAX_WRITE)
  {
    if y.ring.readPos <= i < Cleared(y.cons, y.ring.readPos) then EMPTY
    else if Wrote(y.ring, y.prod, i) then WroteValue(y.ring, y.prod, i)
    else b[i]
  }

  ghost predicate WordsOk(y: Sys, b: seq<Word>)
    requires 1 <= y.ring.s && (y.prod.PWriting? ==> |y.prod.msg| <= MAX_WRITE)
    requires |b| == |y.ring.words|
  {
    forall i :: 0 <= i < |b| ==> y.ring.words[i] == Expected(y, b, i)
  }

  /** The part of the invariant that does not ask where in its program the consumer is. */
  ghost predicate Core(y: Sys, b: seq<Word>, l: Layout) {
    && |b| == |y.ring.words|
    && Represents(y.ring.(words := b), l)
    && ProducerOk(y.ring, y.prod)
    && WordsOk(y, b)
    && y.pushed == y.popped + Contents(l)
    && FifoRun([], y.log, Contents(l))
  }

  ghost predicate InvWith(y: Sys, b: seq<Word>, l: Layout) {
    Core(y, b, l) && ConsumerOk(y.ring, l, y.cons)
  }

  ghost predicate Inv(y: Sys) {
    exists b, l :: InvWith(y, b, l)
  }

  /** A pop that has cleared the last published message finds a skip word that a push is still writing. */
  predicate Hazard(y: Sys) {
    && y.cons.Clearing?
    && y.cons.at == y.cons.end == y.ring.writePos
    && y.cons.at < |y.ring.words|
    && y.ring.words[y.cons.at] == SKIP
  }

  // ---------------------------------------------------------------- who may touch what

  lemma PushShape(g: Ring, p: Producer)
    requires Shaped(g) && ProducerOk(g, p) && p.PWriting?
    ensures var num := Segs(|p.msg|, g.s);
            && 1 <= num < g.n
            && (if Wraps(g, p.msg) then num < g.readPos <= g.writePos && PushBase(g, |p.msg|) == 0
                else PushBase(g, |p.msg|) == g.writePos && g.writePos + num <= g.n)
  {
  }

  /** Every word the producer has stored into is free. */
  lemma WroteIsFree(g: Ring, p: Producer, i: nat)
    requires Shaped(g) && ProducerOk(g, p) && Wrote(g, p, i)
    ensures i < g.n && !Used(g.readPos, g.writePos, i)
  {
  }

  /** Every word the consumer has cleared is published. */
  lemma ClearedIsUsed(g: Ring, l: Layout, c: Consumer, i: nat)
    requires Represents(g, l) && ConsumerOk(g, l, c)
    requires g.readPos <= i < Cleared(c, g.readPos)
    ensures i < g.n && Used(g.readPos, g.writePos, i)
  {
    if l.front != [] {
      TilesBounds(g.s, g.words, g.data, g.readPos + Segs(|l.front[0]|, g.s), l.mid, l.front[1..]);
    }
  }

  /** A published word the consumer has not cleared is what the quiet ring would hold. */
  lemma UsedIsQuiet(y: Sys, b: seq<Word>, l: Layout, i: nat)
    requires InvWith(y, b, l)
    requires i < y.ring.n && Used(y.ring.readPos, y.ring.writePos, i)
    requires !(y.ring.readPos <= i < Cleared(y.cons, y.ring.readPos))
    ensures y.ring.words[i] == b[i]
  {
  }

  // ---------------------------------------------------------------- producer steps

  lemma StartPushKeeps(y: Sys, b: seq<Word>, l: Layout, msg: Message)
    requires InvWith(y, b, l) && Enabled(y, StartPush(msg))
    ensures InvWith(Do(y, StartPush(msg)), b, l)
  {
    var g := y.ring;
    var num := Segs(|msg|, g.s);
    SegsIsCeiling(|msg|, g.s);
    AdmissionIsExact(g.n, g.writePos, g.readPos, num);
    AdmissionCases(g.n, g.writePos, g.readPos, num);
    var base := PushBase(g, |msg|);
    OffsetMonotone(base, base + num, g.s);
    OffsetMonotone(base + num, g.n, g.s);
    var z := Do(y, StartPush(msg));
    forall i | 0 <= i < |b| ensures z.ring.words[i] == Expected(z, b, i) {
      assert y.ring.words[i] == Expected(y, b, i);
    }
  }

  /** The two programs' own invariants do not look at the words. */
  lemma WordsDoNotMatter(g: Ring, ws: seq<Word>, l: Layout, p: Producer, c: Consumer)
    requires Shaped(g) && |ws| == |g.words|
    ensures Shaped(g.(words := ws))
    ensures ProducerOk(g, p) ==> ProducerOk(g.(words := ws), p)
    ensures ConsumerOk(g, l, c) ==> ConsumerOk(g.(words := ws), l, c)
  {
  }

  /** The word picture after a store that the new progress record accounts for. */
  lemma StoreWords(y: Sys, b: seq<Word>, p': Producer, at: nat, v: Word)
    requires 1 <= y.ring.s && y.prod.PWriting? && p'.PWriting? && p'.msg == y.prod.msg && |p'.msg| <= MAX_WRITE
    requires |b| == |y.ring.words| && WordsOk(y, b) && at < |b|
    requires !(y.ring.readPos <= at < Cleared(y.cons, y.ring.readPos))
    requires Wrote(y.ring, p', at) && WroteValue(y.ring, p', at) == v
    requires forall i :: 0 <= i < |b| && i != at ==> (Wrote(y.ring, p', i) <==> Wrote(y.ring, y.prod, i))
    ensures WordsOk(y.(ring := y.ring.(words := y.ring.words[at := v]), prod := p'), b)
  {
  }

  /** A store into a word that the consumer has not cleared keeps the picture. */
  lemma StoreWordCore(y: Sys, b: seq<Word>, l: Layout, p': Producer, at: nat, v: Word)
    requires Core(y, b, l) && y.prod.PWriting? && p'.PWriting?
    requires ProducerOk(y.ring, p')
    requires at < |b| && p'.msg == y.prod.msg && !(y.ring.readPos <= at < Cleared(y.cons, y.ring.readPos))
    requires Wrote(y.ring, p', at) && WroteValue(y.ring, p', at) == v
    requires forall i :: 0 <= i < |b| && i != at ==> (Wrote(y.ring, p', i) <==> Wrote(y.ring, y.prod, i))
    ensures Core(y.(ring := y.ring.(words := y.ring.words[at := v]), prod := p'), b, l)
  {
    var ws := y.ring.words[at := v];
    StoreWords(y, b, p', at, v);
    WordsDoNotMatter(y.ring, ws, l, p', y.cons);
    assert y.ring.(words := ws).(words := b) == y.ring.(words := b);
  }

  /** Bytes of free segments do not matter to the messages a ring holds. */
  lemma FreeBytesDoNotMatter(g: Ring, l: Layout, ds: seq<Byte>, base: nat, num: nat)
    requires Represents(g, l) && |ds| == |g.data| && 1 <= num && base + num <= g.n
    requires forall i :: base <= i < base + num ==> !Used(g.readPos, g.writePos, i)
    requires forall i :: 0 <= i < |ds| && !(Offset(base, g.s) <= i < Offset(base + num, g.s)) ==> ds[i] == g.data[i]
    ensures Represents(g.(data := ds), l)
  {
    TilesBounds(g.s, g.words, g.data, g.readPos, l.mid, l.front);
    TilesSkipFree(g, l.front, g.readPos, l.mid, ds, base, num);
    if g.readPos > g.writePos {
      TilesBounds(g.s, g.words, g.data, 0, g.writePos, l.back);
      TilesSkipFree(g, l.back, 0, g.writePos, ds, base, num);
    }
  }

  lemma TilesSkipFree(g: Ring, q: seq<Message>, p: nat, e: nat, ds: seq<Byte>, base: nat, num: nat)
    requires Shaped(g) && |ds| == |g.data| && 1 <= num && base + num <= g.n
    requires p <= e && Tiles(g.s, g.words, g.data, p, e, q)
    requires forall i :: p <= i < e ==> Used(g.readPos, g.writePos, i)
    requires forall i :: base <= i < base + num ==> !Used(g.readPos, g.writePos, i)
    requires forall i :: 0 <= i < |ds| && !(Offset(base, g.s) <= i < Offset(base + num, g.s)) ==> ds[i] == g.data[i]
    ensures Tiles(g.s, g.words, ds, p, e, q)
  {
    if p < e {
      assert Used(g.readPos, g.writePos, p) && Used(g.readPos, g.writePos, e - 1);
      assert p <= base < e ==> Used(g.readPos, g.writePos, base);
      assert base <= p < base + num ==> !Used(g.readPos, g.writePos, p);
      if e <= base {
        OffsetMonotone(e, base, g.s);
      } else {
        OffsetMonotone(base + num, p, g.s);
      }
    }
    TilesFrame(g.s, g.words, g.data, g.words, ds, p, e, q);
  }

  lemma PushSegmentsAreFree(g: Ring, p: Producer)
    requires Shaped(g) && ProducerOk(g, p) && p.PWriting?
    ensures var num := Segs(|p.msg|, g.s); var base := PushBase(g, |p.msg|);
            && base + num <= g.n
            && (forall i :: base <= i < base + num ==> !Used(g.readPos, g.writePos, i))
            && Offset(base, g.s) + |p.msg| <= Offset(base + num, g.s) <= |g.data|
  {
    var num := Segs(|p.msg|, g.s);
    var base := PushBase(g, |p.msg|);
    PushShape(g, p);
    SegsIsCeiling(|p.msg|, g.s);
    OffsetMonotone(base, base + num, g.s);
    OffsetMonotone(base + num, g.n, g.s);
    forall i | base <= i < base + num ensures !Used(g.readPos, g.writePos, i) {
      assert Touched(g.n, g.writePos, num, i);
    }
  }

  lemma StoreByteProgress(g: Ring, p: Producer)
    requires Shaped(g) && ProducerOk(g, p) && p.PWriting? && p.header && p.copied < |p.msg|
    ensures var o := Offset(PushBase(g, |p.msg|), g.s) + p.copied;
            && o < |g.data|
            && ProducerOk(g.(data := g.data[o := p.msg[p.copied]]), p.(copied := p.copied + 1))
  {
  }

  /** The word picture does not depend on the bytes or on how many were copied. */
  lemma BytesDoNotShow(y: Sys, b: seq<Word>, ds: seq<Byte>, copied: nat)
    requires 1 <= y.ring.s && y.prod.PWriting? && |y.prod.msg| <= MAX_WRITE
    requires |b| == |y.ring.words| && WordsOk(y, b)
    ensures WordsOk(y.(ring := y.ring.(data := ds), prod := y.prod.(copied := copied)), b)
  {
  }

  lemma StoreByteNext(y: Sys)
    requires Shaped(y.ring) && ProducerOk(y.ring, y.prod) && y.prod.PWriting? && y.prod.header
    requires y.prod.copied < |y.prod.msg| && (Wraps(y.ring, y.prod.msg) ==> y.prod.gapEnd == y.ring.n)
    ensures var o := Offset(PushBase(y.ring, |y.prod.msg|), y.ring.s) + y.prod.copied;
            && o < |y.ring.data|
            && StoreNext(y) == y.(ring := y.ring.(data := y.ring.data[o := y.prod.msg[y.prod.copied]]),
                                  prod := y.prod.(copied := y.prod.copied + 1))
  {
  }

  lemma StoreByteRing(g: Ring, b: seq<Word>, l: Layout, p: Producer, o: nat, v: Byte)
    requires Shaped(g) && |b| == |g.words| && Represents(g.(words := b), l) && ProducerOk(g, p) && p.PWriting?
    requires Offset(PushBase(g, |p.msg|), g.s) <= o < Offset(PushBase(g, |p.msg|), g.s) + |p.msg| && o < |g.data|
    ensures Represents(g.(data := g.data[o := v]).(words := b), l)
  {
    PushSegmentsAreFree(g, p);
    SegsIsCeiling(|p.msg|, g.s);
    FreeBytesDoNotMatter(g.(words := b), l, g.data[o := v], PushBase(g, |p.msg|), Segs(|p.msg|, g.s));
    assert g.(data := g.data[o := v]).(words := b) == g.(words := b).(data := g.data[o := v]);
  }

  lemma StoreByteCore(y: Sys, b: seq<Word>, l: Layout)
    requires Core(y, b, l) && y.prod.PWriting? && y.prod.header && y.prod.copied < |y.prod.msg|
    requires Wraps(y.ring, y.prod.msg) ==> y.prod.gapEnd == y.ring.n
    ensures Core(StoreNext(y), b, l)
  {
    var g := y.ring;
    var p := y.prod;
    StoreByteNext(y);
    StoreByteProgress(g, p);
    var o := Offset(PushBase(g, |p.msg|), g.s) + p.copied;
    var ds := g.data[o := p.msg[p.copied]];
    StoreByteRing(g, b, l, p, o, p.msg[p.copied]);
    BytesDoNotShow(y, b, ds, p.copied + 1);
  }

  /** The last store: what was being written becomes the newest message of the queue. */
  lemma PublishCore(y: Sys, b: seq<Word>, l: Layout)
    requires Core(y, b, l) && y.prod.PWriting? && Stored(y.ring, y.prod)
    ensures PushBase(y.ring, |y.prod.msg|) < |b|
    ensures Core(StoreNext(y), PushWords(y.ring.(words := b), |y.prod.msg|), Appended(y.ring, l, y.prod.msg))
  {
    var g := y.ring;
    var msg := y.prod.msg;
    PublishedRing(y, b, l);
    PushAppends(g.(words := b), l, msg);
    assert Represents(StoreNext(y).ring.(words := PushWords(g.(words := b), |msg|)), Appended(g, l, msg));
    PublishWords(y, b, l);
    PushLogged(g, y.log, Contents(l), msg);
  }

  lemma PublishKeeps(y: Sys, b: seq<Word>, l: Layout)
    requires InvWith(y, b, l) && y.prod.PWriting? && Stored(y.ring, y.prod)
    ensures PushBase(y.ring, |y.prod.msg|) < |b|
    ensures InvWith(StoreNext(y), PushWords(y.ring.(words := b), |y.prod.msg|), Appended(y.ring, l, y.prod.msg))
    ensures StoreNext(y).pushed == y.pushed + [y.prod.msg]
  {
    PublishedRing(y, b, l);
    PublishCore(y, b, l);
    PublishConsumer(y.ring, l, y.cons, y.prod.msg, StoreNext(y).ring);
  }

  /** An admissible push, logged with the positions it finds, is a step of the FIFO. */
  lemma PushLogged(g: Ring, log: seq<Event>, q: seq<Message>, msg: Message)
    requires 1 <= g.s && |msg| <= MAX_WRITE && Admissible(g.n, g.writePos, g.readPos, Segs(|msg|, g.s))
    requires FifoRun([], log, q)
    ensures FifoRun([], log + [Seen(g, PushOp([msg]), Obs(0, []))], q + [msg])
  {
    ConcatOne(msg);
    FifoRunSnoc([], log, q, Seen(g, PushOp([msg]), Obs(0, [])), q + [msg]);
  }

  lemma PublishedRing(y: Sys, b: seq<Word>, l: Layout)
    requires Core(y, b, l) && y.prod.PWriting? && Stored(y.ring, y.prod)
    ensures var g := y.ring; var q := g.(words := b); var z := StoreNext(y); var msg := y.prod.msg;
            && Shaped(q) && Segs(|msg|, g.s) <= g.n
            && PushBase(q, |msg|) < |b|
            && Admissible(g.n, g.writePos, g.readPos, Segs(|msg|, g.s))
            && Written(q, msg) == z.ring.(words := PushWords(q, |msg|))
            && Shaped(z.ring) && z.ring == g.(writePos := z.ring.writePos)
            && g.readPos != z.ring.writePos
            && (g.readPos > g.writePos ==> g.readPos > z.ring.writePos)
            && z == y.(ring := z.ring, prod := PIdle, pushed := y.pushed + [msg],
                       log := y.log + [Seen(g, PushOp([msg]), Obs(0, []))])
            && |PushWords(q, |msg|)| == |z.ring.words|
  {
    var g := y.ring;
    var num := Segs(|y.prod.msg|, g.s);
    PushShape(g, y.prod);
    AdmissionCases(g.n, g.writePos, g.readPos, num);
    PublishedBytes(g, y.prod);
  }

  lemma PublishWords(y: Sys, b: seq<Word>, l: Layout)
    requires Core(y, b, l) && y.prod.PWriting? && Stored(y.ring, y.prod)
    ensures PushBase(y.ring, |y.prod.msg|) < |b|
    ensures var z := StoreNext(y);
            |z.ring.words| == |b| && 1 <= z.ring.s && z.prod.PIdle?
            && WordsOk(z, PushWords(y.ring.(words := b), |y.prod.msg|))
  {
    PushShape(y.ring, y.prod);
    forall i | 0 <= i < |b|
      ensures StoreNext(y).ring.words[i] == Expected(StoreNext(y), PushWords(y.ring.(words := b), |y.prod.msg|), i)
    {
      PublishAt(y, b, l, i);
    }
  }

  /** Once every byte is copied, writing the message again would change nothing. */
  lemma PublishedBytes(g: Ring, p: Producer)
    requires Shaped(g) && ProducerOk(g, p) && p.PWriting? && p.copied == |p.msg|
    ensures Overwrite(g.data, Offset(PushBase(g, |p.msg|), g.s), p.msg) == g.data
  {
  }

  /** A message published behind its back does not disturb the consumer. */
  lemma PublishConsumer(g: Ring, l: Layout, c: Consumer, msg: Message, h: Ring)
    requires Shaped(g) && ConsumerOk(g, l, c) && Shaped(h)
    requires h == g.(writePos := h.writePos)
    requires g.readPos > g.writePos ==> g.readPos > h.writePos
    requires g.readPos != h.writePos
    ensures ConsumerOk(h, Appended(g, l, msg), c)
  {
  }

  lemma PublishAt(y: Sys, b: seq<Word>, l: Layout, i: nat)
    requires Core(y, b, l) && y.prod.PWriting? && Stored(y.ring, y.prod)
    requires i < |b|
    ensures PushBase(y.ring, |y.prod.msg|) < |b|
    ensures var z := StoreNext(y);
            z.ring.words[i] == Expected(z, PushWords(y.ring.(words := b), |y.prod.msg|), i)
  {
    PushShape(y.ring, y.prod);
    assert y.ring.words[i] == Expected(y, b, i);
  }

  lemma StoreGapCore(y: Sys, b: seq<Word>, l: Layout)
    requires Core(y, b, l) && y.prod.PWriting?
    requires Wraps(y.ring, y.prod.msg) && y.prod.gapEnd < y.ring.n
    requires !(y.ring.readPos <= y.prod.gapEnd < Cleared(y.cons, y.ring.readPos))
    ensures Core(StoreNext(y), b, l)
  {
    PushShape(y.ring, y.prod);
    StoreWordCore(y, b, l, y.prod.(gapEnd := y.prod.gapEnd + 1), y.prod.gapEnd, SKIP);
  }

  lemma StoreHeaderCore(y: Sys, b: seq<Word>, l: Layout)
    requires Core(y, b, l) && y.prod.PWriting? && !y.prod.header
    requires Wraps(y.ring, y.prod.msg) ==> y.prod.gapEnd == y.ring.n
    requires !(y.ring.readPos <= PushBase(y.ring, |y.prod.msg|) < Cleared(y.cons, y.ring.readPos))
    ensures Core(StoreNext(y), b, l)
  {
    PushShape(y.ring, y.prod);
    StoreWordCore(y, b, l, y.prod.(header := true), PushBase(y.ring, |y.prod.msg|), |y.prod.msg|);
  }

  lemma StoreTailNext(y: Sys)
    requires Shaped(y.ring) && ProducerOk(y.ring, y.prod) && y.prod.PWriting? && y.prod.copied == |y.prod.msg|
    requires Wraps(y.ring, y.prod.msg) ==> y.prod.gapEnd == y.ring.n
    requires y.prod.tailEnd < PushBase(y.ring, |y.prod.msg|) + Segs(|y.prod.msg|, y.ring.s)
    ensures y.prod.tailEnd < |y.ring.words|
    ensures var p' := y.prod.(tailEnd := y.prod.tailEnd + 1);
            && StoreNext(y) == y.(ring := y.ring.(words := y.ring.words[y.prod.tailEnd := SKIP]), prod := p')
            && ProducerOk(y.ring, p')
            && Wrote(y.ring, p', y.prod.tailEnd) && WroteValue(y.ring, p', y.prod.tailEnd) == SKIP
  {
    PushShape(y.ring, y.prod);
  }

  lemma StoreTailCore(y: Sys, b: seq<Word>, l: Layout)
    requires Core(y, b, l) && y.prod.PWriting? && y.prod.header && y.prod.copied == |y.prod.msg|
    requires Wraps(y.ring, y.prod.msg) ==> y.prod.gapEnd == y.ring.n
    requires y.prod.tailEnd < PushBase(y.ring, |y.prod.msg|) + Segs(|y.prod.msg|, y.ring.s)
    requires !(y.ring.readPos <= y.prod.tailEnd < Cleared(y.cons, y.ring.readPos))
    ensures Core(StoreNext(y), b, l)
  {
    StoreTailNext(y);
    StoreWordCore(y, b, l, y.prod.(tailEnd := y.prod.tailEnd + 1), y.prod.tailEnd, SKIP);
  }

  lemma OpenAt(y: Sys, at: nat)
    requires 1 <= y.ring.s && y.prod.PWriting? && Undisturbed(y) && StoreTarget(y.ring, y.prod) == AtWord(at)
    ensures !(y.ring.readPos <= at < Cleared(y.cons, y.ring.readPos))
  {
  }

  /** Every store before the last keeps the picture, if the consumer has not been there. */
  lemma StoreCore(y: Sys, b: seq<Word>, l: Layout)
    requires Core(y, b, l) && y.prod.PWriting? && !Stored(y.ring, y.prod) && Undisturbed(y)
    ensures Core(StoreNext(y), b, l)
  {
    if Wraps(y.ring, y.prod.msg) && y.prod.gapEnd < y.ring.n {
      OpenAt(y, y.prod.gapEnd);
      StoreGapCore(y, b, l);
    } else if !y.prod.header {
      OpenAt(y, PushBase(y.ring, |y.prod.msg|));
      StoreHeaderCore(y, b, l);
    } else if y.prod.copied < |y.prod.msg| {
      StoreByteCore(y, b, l);
    } else {
      OpenAt(y, y.prod.tailEnd);
      StoreTailCore(y, b, l);
    }
  }

  /** What a store before the last leaves as it was. */
  lemma StoreFrame(y: Sys)
    requires Shaped(y.ring) && ProducerOk(y.ring, y.prod) && y.prod.PWriting? && !Stored(y.ring, y.prod)
    ensures var z := StoreNext(y);
            && z == y.(ring := z.ring, prod := z.prod) && z.prod.PWriting? && z.prod.msg == y.prod.msg
            && z.ring == y.ring.(words := z.ring.words, data := z.ring.data)
            && |z.ring.words| == |y.ring.words| && |z.ring.data| == |y.ring.data|
  {
  }

  lemma ConsumerFrame(g: Ring, h: Ring, l: Layout, c: Consumer)
    requires Shaped(g) && Shaped(h) && h == g.(words := h.words, data := h.data) && ConsumerOk(g, l, c)
    ensures ConsumerOk(h, l, c)
  {
  }

  /** Where the invariant holds, the consumer has cleared nothing that the producer may store into. */
  lemma InvUndisturbed(y: Sys, b: seq<Word>, l: Layout)
    requires InvWith(y, b, l) && y.prod.PWriting?
    ensures Undisturbed(y)
  {
    WordsDoNotMatter(y.ring, b, l, y.prod, y.cons);
    forall i | y.ring.readPos <= i < Cleared(y.cons, y.ring.readPos)
      ensures StoreTarget(y.ring, y.prod) != AtWord(i)
    {
      ClearedIsUsed(y.ring.(words := b), l, y.cons, i);
      TargetIsFree(y.ring, y.prod, i);
    }
  }

  lemma StoreKeepsQuiet(y: Sys, b: seq<Word>, l: Layout)
    requires InvWith(y, b, l) && y.prod.PWriting? && !Stored(y.ring, y.prod)
    ensures InvWith(StoreNext(y), b, l)
  {
    InvUndisturbed(y, b, l);
    StoreCore(y, b, l);
    StoreFrame(y);
    ConsumerFrame(y.ring, StoreNext(y).ring, l, y.cons);
  }

  lemma StoreKeeps(y: Sys, b: seq<Word>, l: Layout) returns (b': seq<Word>, l': Layout)
    requires InvWith(y, b, l) && y.prod.PWriting?
    ensures InvWith(StoreNext(y), b', l')
  {
    b', l' := b, l;
    if !Stored(y.ring, y.prod) {
      StoreKeepsQuiet(y, b, l);
    } else {
      PushShape(y.ring, y.prod);
      PublishKeeps(y, b, l);
      b' := PushWords(y.ring.(words := b), |y.prod.msg|);
      l' := Appended(y.ring, l, y.prod.msg);
    }
  }

  // ---------------------------------------------------------------- consumer steps

  /** The space check stays valid when the reader moves: the published region only shrinks under the producer. */
  lemma ProducerOkAfterRead(g: Ring, p: Producer, r': nat)
    requires Shaped(g) && ProducerOk(g, p) && r' < g.n
    requires forall i :: 0 <= i < g.n && Used(r', g.writePos, i) ==> Used(g.readPos, g.writePos, i)
    ensures ProducerOk(g.(readPos := r'), p)
  {
  }

  /** The word picture after one more word is cleared. */
  lemma ClearWords(y: Sys, b: seq<Word>, c: Consumer)
    requires 1 <= y.ring.s && (y.prod.PWriting? ==> |y.prod.msg| <= MAX_WRITE)
    requires |b| == |y.ring.words| && WordsOk(y, b)
    requires var at := Cleared(y.cons, y.ring.readPos);
             at < |b| && y.ring.readPos <= at && Cleared(c, y.ring.readPos) == at + 1
    ensures var z := y.(ring := Clear(y.ring, Cleared(y.cons, y.ring.readPos)), cons := c);
            |z.ring.words| == |b| && WordsOk(z, b)
  {
  }

  lemma ClearKeeps(y: Sys, b: seq<Word>, l: Layout, c: Consumer)
    requires InvWith(y, b, l)
    requires ConsumerOk(y.ring, l, c)
    requires var at := Cleared(y.cons, y.ring.readPos);
             at < |b| && y.ring.readPos <= at && Cleared(c, y.ring.readPos) == at + 1
    ensures InvWith(y.(ring := Clear(y.ring, Cleared(y.cons, y.ring.readPos)), cons := c), b, l)
  {
    var z := y.(ring := Clear(y.ring, Cleared(y.cons, y.ring.readPos)), cons := c);
    ClearWords(y, b, c);
    WordsDoNotMatter(y.ring, z.ring.words, l, y.prod, c);
    assert z.ring.(words := b) == y.ring.(words := b);
  }

  /** A step that only moves the consumer's program counter. */
  lemma MoveKeeps(y: Sys, b: seq<Word>, l: Layout, c: Consumer)
    requires InvWith(y, b, l) && ConsumerOk(y.ring, l, c)
    requires Cleared(c, y.ring.readPos) == Cleared(y.cons, y.ring.readPos)
    ensures InvWith(y.(cons := c), b, l)
  {
    var z := y.(cons := c);
    assert WordsOk(z, b) by {
      forall i | 0 <= i < |b| ensures z.ring.words[i] == Expected(z, b, i) {
        assert y.ring.words[i] == Expected(y, b, i);
      }
    }
  }

  /** What an idle consumer reads at a peeked head is the oldest message. */
  lemma ShownIsHead(y: Sys, b: seq<Word>, l: Layout)
    requires InvWith(y, b, l) && y.cons.CIdle? && y.ring.readPos != y.ring.writePos
    requires y.ring.words[y.ring.readPos] != SKIP
    ensures l.front != [] && Shown(y.ring) == l.front[0] && y.ring.words[y.ring.readPos] == |l.front[0]|
  {
    UsedIsQuiet(y, b, l, y.ring.readPos);
    SkipAtHeadIff(y.ring.(words := b), l);
    EmptyIffPositionsMeet(y.ring.(words := b), l);
  }

  lemma StartPopKeeps(y: Sys, b: seq<Word>, l: Layout)
    requires InvWith(y, b, l) && Enabled(y, StartPop)
    ensures InvWith(Do(y, StartPop), b, l)
  {
    ShownIsHead(y, b, l);
    MoveKeeps(y, b, l, Do(y, StartPop).cons);
  }

  /** A call that only reads the positions and fails is a step of the FIFO. */
  lemma RefusalKeeps(y: Sys, b: seq<Word>, l: Layout, st: Step)
    requires InvWith(y, b, l) && Enabled(y, st) && (st.RefusePush? || st.EmptyPeek? || st.EmptyPop?)
    ensures InvWith(Do(y, st), b, l)
  {
    var z := Do(y, st);
    var e := z.log[|y.log|];
    assert FifoStep(Contents(l), e, Contents(l)) by {
      if st.RefusePush? {
        RefusedPush(y.ring, st.msg);
      } else {
        EmptyIffPositionsMeet(y.ring.(words := b), l);
      }
    }
    FifoRunSnoc([], y.log, Contents(l), e, Contents(l));
    LogDoesNotMatter(y, b, l, z.log);
  }

  lemma RefusedPush(g: Ring, msg: Message)
    requires Shaped(g) && 1 <= |msg|
    ensures Concat([msg]) == msg
    ensures |msg| <= MAX_WRITE && !SpaceCheck(g.n, g.writePos, g.readPos, Segs(|msg|, g.s)) ==>
              !Admissible(g.n, g.writePos, g.readPos, Segs(|msg|, g.s))
  {
    ConcatOne(msg);
    if |msg| <= MAX_WRITE {
      SegsIsCeiling(|msg|, g.s);
      AdmissionIsExact(g.n, g.writePos, g.readPos, Segs(|msg|, g.s));
    }
  }

  lemma LogDoesNotMatter(y: Sys, b: seq<Word>, l: Layout, log: seq<Event>)
    requires InvWith(y, b, l) && FifoRun([], log, Contents(l))
    ensures InvWith(y.(log := log), b, l)
  {
    var z := y.(log := log);
    assert WordsOk(z, b) by {
      forall i | 0 <= i < |b| ensures z.ring.words[i] == Expected(z, b, i) {
        assert y.ring.words[i] == Expected(y, b, i);
      }
    }
  }

  /** The store to readPos, in general: the words behind it are EMPTY now and the queue is what `l'` says. */
  lemma ReadPosKeeps(y: Sys, b: seq<Word>, l: Layout, r': nat, l': Layout, popped: seq<Message>, log: seq<Event>)
    requires InvWith(y, b, l)
    requires var at := Cleared(y.cons, y.ring.readPos);
             var b' := Fill(b, y.ring.readPos, at, EMPTY);
             Represents(y.ring.(words := b', readPos := r'), l')
    requires forall i :: 0 <= i < y.ring.n && Used(r', y.ring.writePos, i) ==> Used(y.ring.readPos, y.ring.writePos, i)
    requires y.pushed == popped + Contents(l') && FifoRun([], log, Contents(l'))
    ensures InvWith(y.(ring := y.ring.(readPos := r'), cons := CIdle, popped := popped, log := log),
                    Fill(b, y.ring.readPos, Cleared(y.cons, y.ring.readPos), EMPTY), l')
  {
    var at := Cleared(y.cons, y.ring.readPos);
    var b' := Fill(b, y.ring.readPos, at, EMPTY);
    var z := y.(ring := y.ring.(readPos := r'), cons := CIdle, popped := popped, log := log);
    ProducerOkAfterRead(y.ring, y.prod, r');
    assert z.ring.(words := b') == y.ring.(words := b', readPos := r');
    assert WordsOk(z, b') by {
      forall i | 0 <= i < |b| ensures z.ring.words[i] == Expected(z, b', i) {
        ReadPosAt(y, b, l, r', i);
      }
    }
  }

  lemma ReadPosAt(y: Sys, b: seq<Word>, l: Layout, r': nat, i: nat)
    requires InvWith(y, b, l) && i < |b|
    ensures var z := y.(ring := y.ring.(readPos := r'), cons := CIdle);
            z.ring.words[i] == Expected(z, Fill(b, y.ring.readPos, Cleared(y.cons, y.ring.readPos), EMPTY), i)
  {
    assert y.ring.words[i] == Expected(y, b, i);
    if y.ring.readPos <= i < Cleared(y.cons, y.ring.readPos) {
      WordsDoNotMatter(y.ring, b, l, y.prod, y.cons);
      ClearedIsUsed(y.ring.(words := b), l, y.cons, i);
      if Wrote(y.ring, y.prod, i) {
        WroteIsFree(y.ring, y.prod, i);
      }
    }
  }

  /** The head as the caller of a peek sees it, from the ring alone. */
  ghost predicate Shows(g: Ring, msg: Message) {
    && Sized(g)
    && g.readPos < g.n
    && g.words[g.readPos] == |msg|
    && Offset(g.readPos, g.s) + |msg| <= |g.data|
    && g.data[Offset(g.readPos, g.s)..Offset(g.readPos, g.s) + |msg|] == msg
  }

  /** Where the skip loop of a peek stops, on the quiet ring. */
  lemma ScanEndQuiet(q: Ring, l: Layout, at: nat)
    requires Represents(q, l) && ConsumerOk(q, l, Scanning(at))
    requires !(at < q.n && q.words[at] == SKIP)
    ensures var q' := q.(words := Fill(q.words, q.readPos, at, EMPTY), readPos := if at == q.n then 0 else at);
            && Represents(q', Peeked(q, l))
            && Contents(Peeked(q, l)) == Contents(l) != []
            && Shows(q', Contents(l)[0])
            && Used(q'.readPos, q.writePos, q'.readPos)
            && (forall i :: 0 <= i < q.n && Used(q'.readPos, q.writePos, i) ==> Used(q.readPos, q.writePos, i))
  {
    PeekShowsHead(q, l);
    EmptyIffPositionsMeet(q, l);
    SkipAtHeadIff(q, l);
    if at == q.readPos {
      assert Fill(q.words, at, at, EMPTY) == q.words;
      assert Peek(q).ring == q;
    } else {
      assert at == q.n;
      assert Peek(q).ring == q.(words := Fill(q.words, q.readPos, at, EMPTY), readPos := 0);
    }
  }

  lemma ShowsOnlyHead(g: Ring, ws: seq<Word>, msg: Message)
    requires Shows(g.(words := ws), msg) && |ws| == |g.words| && g.words[g.readPos] == ws[g.readPos]
    ensures Shows(g, msg)
  {
  }

  lemma ScanEndShows(y: Sys, b: seq<Word>, l: Layout, r': nat)
    requires InvWith(y, b, l) && y.cons.Scanning? && Contents(l) != []
    requires r' < y.ring.n && Used(r', y.ring.writePos, r')
    requires forall i :: 0 <= i < y.ring.n && Used(r', y.ring.writePos, i) ==> Used(y.ring.readPos, y.ring.writePos, i)
    requires Shows(y.ring.(words := Fill(b, y.ring.readPos, y.cons.at, EMPTY), readPos := r'), Contents(l)[0])
    ensures Shows(y.ring.(readPos := r'), Contents(l)[0]) && Shown(y.ring.(readPos := r')) == Contents(l)[0]
  {
    var b' := Fill(b, y.ring.readPos, y.cons.at, EMPTY);
    assert Used(y.ring.readPos, y.ring.writePos, r');
    ReadPosAt(y, b, l, r', r');
    assert y.ring.words[r'] == b'[r'];
    ShowsOnlyHead(y.ring.(readPos := r'), b', Contents(l)[0]);
  }

  /** The end of a peek: the reader stands on the head and sees its size and bytes. */
  lemma ScanEndKeeps(y: Sys, b: seq<Word>, l: Layout) returns (b': seq<Word>, l': Layout)
    requires InvWith(y, b, l) && y.cons.Scanning?
    requires !(y.cons.at < y.ring.n && y.ring.words[y.cons.at] == SKIP)
    ensures InvWith(AdvanceNext(y), b', l') && Contents(l') == Contents(l) != []
    ensures Shows(AdvanceNext(y).ring, Contents(l)[0])
    ensures AdvanceNext(y).log == y.log + [Seen(y.ring, PeekOp, Obs(0, Contents(l)[0]))]
  {
    var g := y.ring;
    var at := y.cons.at;
    WordsDoNotMatter(g, b, l, y.prod, y.cons);
    if at < g.n {
      UsedIsQuiet(y, b, l, at);
    }
    ScanEndQuiet(g.(words := b), l, at);
    b' := Fill(b, g.readPos, at, EMPTY);
    l' := Peeked(g.(words := b), l);
    var r' := if at == g.n then 0 else at;
    var z := AdvanceNext(y);
    ScanEndShows(y, b, l, r');
    FifoRunSnoc([], y.log, Contents(l), Seen(g, PeekOp, Obs(0, Contents(l)[0])), Contents(l));
    ReadPosKeeps(y, b, l, r', l', y.popped, z.log);
    assert z == y.(ring := g.(readPos := r'), cons := CIdle, popped := y.popped, log := z.log);
  }

  function PoppedLayout(q: Ring, l: Layout, at: nat): Layout
    requires l.front != []
  {
    if at == q.n then Layout(l.back, q.writePos, []) else l.(front := l.front[1..])
  }

  /** Clearing the head and moving behind it removes it, whether or not a skip run behind it was drained too. */
  lemma PopEndQuiet(q: Ring, l: Layout, at: nat)
    requires Represents(q, l) && l.front != [] && ConsumerOk(q, l, Publishing(at, l.front[0]))
    ensures Represents(AfterPop(q, at), PoppedLayout(q, l, at))
    ensures Contents(l) == [Contents(l)[0]] + Contents(PoppedLayout(q, l, at))
    ensures forall i :: 0 <= i < q.n && Used(AfterPop(q, at).readPos, q.writePos, i) ==> Used(q.readPos, q.writePos, i)
  {
    var end := q.readPos + Segs(|l.front[0]|, q.s);
    TilesBounds(q.s, q.words, q.data, end, l.mid, l.front[1..]);
    if at == q.n {
      PopEndAtTheEnd(q, l);
    } else {
      PopEndInPlace(q, l, at);
    }
  }

  /** The history once the head is released. */
  lemma ReleaseHistory(y: Sys, l: Layout, l': Layout)
    requires y.cons.Publishing? && l.front != [] && y.cons.got == l.front[0]
    requires Contents(l) == [Contents(l)[0]] + Contents(l')
    requires y.pushed == y.popped + Contents(l) && FifoRun([], y.log, Contents(l))
    ensures y.pushed == (y.popped + [y.cons.got]) + Contents(l')
    ensures FifoRun([], AdvanceNext(y).log, Contents(l'))
  {
    FifoRunSnoc([], y.log, Contents(l), Seen(y.ring, PopOp, Obs(0, [])), Contents(l'));
  }

  lemma ReleaseKeeps(y: Sys, b: seq<Word>, l: Layout, l': Layout)
    requires InvWith(y, b, l) && y.cons.Publishing?
    requires var q := AfterPop(y.ring.(words := b), y.cons.at);
             && Represents(q, l')
             && forall i :: 0 <= i < y.ring.n && Used(q.readPos, y.ring.writePos, i) ==>
                  Used(y.ring.readPos, y.ring.writePos, i)
    requires y.pushed == (y.popped + [y.cons.got]) + Contents(l') && FifoRun([], AdvanceNext(y).log, Contents(l'))
    ensures InvWith(AdvanceNext(y), AfterPop(y.ring.(words := b), y.cons.at).words, l')
  {
    var r' := AfterPop(y.ring.(words := b), y.cons.at).readPos;
    ReadPosKeeps(y, b, l, r', l', y.popped + [y.cons.got], AdvanceNext(y).log);
  }

  lemma PublishReadKeeps(y: Sys, b: seq<Word>, l: Layout) returns (b': seq<Word>, l': Layout)
    requires InvWith(y, b, l) && y.cons.Publishing?
    ensures InvWith(AdvanceNext(y), b', l')
    ensures Contents(l) != [] && AdvanceNext(y).popped == y.popped + [Contents(l)[0]]
    ensures Contents(l') == Contents(l)[1..]
  {
    var q := y.ring.(words := b);
    WordsDoNotMatter(y.ring, b, l, y.prod, y.cons);
    PopEndQuiet(q, l, y.cons.at);
    b' := AfterPop(q, y.cons.at).words;
    l' := PoppedLayout(q, l, y.cons.at);
    ReleaseHistory(y, l, l');
    ReleaseKeeps(y, b, l, l');
  }

  /** The test behind the head: no hazard, so a skip word there is a real skip run. */
  lemma TestKeeps(y: Sys, b: seq<Word>, l: Layout)
    requires InvWith(y, b, l) && y.cons.Clearing? && y.cons.at == y.cons.end && !Hazard(y)
    ensures InvWith(AdvanceNext(y), b, l)
  {
    var g := y.ring;
    var at := y.cons.at;
    var q := g.(words := b);
    WordsDoNotMatter(g, b, l, y.prod, y.cons);
    TilesBounds(g.s, b, g.data, at, l.mid, l.front[1..]);
    if at < g.n && at != g.writePos {
      assert Used(g.readPos, g.writePos, at);
      UsedIsQuiet(y, b, l, at);
      if l.front[1..] != [] {
        assert b[at] != SKIP;
      }
    }
    MoveKeeps(y, b, l, AdvanceNext(y).cons);
  }

  lemma ScanStepKeeps(y: Sys, b: seq<Word>, l: Layout)
    requires InvWith(y, b, l) && y.cons.Scanning?
    requires y.cons.at < y.ring.n && y.ring.words[y.cons.at] == SKIP
    ensures InvWith(AdvanceNext(y), b, l)
  {
    WordsDoNotMatter(y.ring, b, l, y.prod, y.cons);
    UsedIsQuiet(y, b, l, y.cons.at);
    SkipAtHeadIff(y.ring.(words := b), l);
    ClearKeeps(y, b, l, Scanning(y.cons.at + 1));
  }

  lemma HeadIsUsed(g: Ring, l: Layout, c: Consumer)
    requires Represents(g, l) && ConsumerOk(g, l, c) && c.Clearing? && c.at < c.end
    ensures c.at < g.n && Used(g.readPos, g.writePos, c.at) && ConsumerOk(g, l, Clearing(c.at + 1, c.end, c.got))
  {
    TilesBounds(g.s, g.words, g.data, c.end, l.mid, l.front[1..]);
  }

  lemma ClearStepKeeps(y: Sys, b: seq<Word>, l: Layout)
    requires InvWith(y, b, l) && y.cons.Clearing? && y.cons.at < y.cons.end
    ensures y.cons.at < y.ring.n && Used(y.ring.readPos, y.ring.writePos, y.cons.at)
    ensures InvWith(AdvanceNext(y), b, l)
  {
    WordsDoNotMatter(y.ring, b, l, y.prod, y.cons);
    HeadIsUsed(y.ring.(words := b), l, y.cons);
    WordsDoNotMatter(y.ring.(words := b), y.ring.words, l, y.prod, Clearing(y.cons.at + 1, y.cons.end, y.cons.got));
    assert y.ring.(words := b).(words := y.ring.words) == y.ring;
    ClearKeeps(y, b, l, Clearing(y.cons.at + 1, y.cons.end, y.cons.got));
  }

  lemma ScanKeeps(y: Sys, b: seq<Word>, l: Layout) returns (b': seq<Word>, l': Layout)
    requires InvWith(y, b, l) && y.cons.Scanning?
    ensures InvWith(AdvanceNext(y), b', l')
  {
    b', l' := b, l;
    if y.cons.at < y.ring.n && y.ring.words[y.cons.at] == SKIP {
      ScanStepKeeps(y, b, l);
    } else {
      b', l' := ScanEndKeeps(y, b, l);
    }
  }

  lemma DrainKeeps(y: Sys, b: seq<Word>, l: Layout)
    requires InvWith(y, b, l) && y.cons.Draining?
    ensures InvWith(AdvanceNext(y), b, l)
  {
    if y.cons.at < y.ring.n {
      ClearKeeps(y, b, l, Draining(y.cons.at + 1, y.cons.got));
    } else {
      MoveKeeps(y, b, l, Publishing(y.cons.at, y.cons.got));
    }
  }

  lemma AdvanceKeeps(y: Sys, b: seq<Word>, l: Layout) returns (b': seq<Word>, l': Layout)
    requires InvWith(y, b, l) && !y.cons.CIdle? && !Hazard(y)
    ensures InvWith(AdvanceNext(y), b', l')
  {
    b', l' := b, l;
    match y.cons
    case Scanning(_) => b', l' := ScanKeeps(y, b, l);
    case Clearing(at, end, _) => if at < end { ClearStepKeeps(y, b, l); } else { TestKeeps(y, b, l); }
    case Draining(_, _) => DrainKeeps(y, b, l);
    case Publishing(_, _) => b', l' := PublishReadKeeps(y, b, l);
  }

  // ---------------------------------------------------------------- every interleaving

  lemma StepKeeps(y: Sys, st: Step)
    requires Inv(y) && Enabled(y, st) && !(st.Advance? && Hazard(y))
    ensures Inv(Do(y, st))
  {
    var b, l :| InvWith(y, b, l);
    match st
    case StartPush(msg) => StartPushKeeps(y, b, l, msg);
    case Store => var b', l' := StoreKeeps(y, b, l);
    case StartPeek => MoveKeeps(y, b, l, Scanning(y.ring.readPos));
    case StartPop => StartPopKeeps(y, b, l);
    case RefusePush(_) => RefusalKeeps(y, b, l, st);
    case EmptyPeek => RefusalKeeps(y, b, l, st);
    case EmptyPop => RefusalKeeps(y, b, l, st);
    case Advance => var b', l' := AdvanceKeeps(y, b, l);
  }

  function Init(n: nat, s: nat, data: seq<Byte>): Sys
    requires 1 <= n
  {
    Sys(Fresh(n, s, data), PIdle, CIdle, [], [], [])
  }

  lemma InitHolds(n: nat, s: nat, data: seq<Byte>)
    requires 1 <= n && 1024 <= s <= 4096 && 2 * n <= s && |data| == Offset(n, s)
    ensures Inv(Init(n, s, data))
  {
    FreshIsEmpty(n, s, data);
    var y := Init(n, s, data);
    assert y.ring.(words := y.ring.words) == y.ring;
    assert InvWith(y, y.ring.words, Layout([], 0, []));
  }

  ghost predicate Schedule(y: Sys, steps: seq<Step>)
    decreases |steps|
  {
    steps != [] ==>
      && Enabled(y, steps[0])
      && !(steps[0].Advance? && Hazard(y))
      && Schedule(Do(y, steps[0]), steps[1..])
  }

  ghost function After(y: Sys, steps: seq<Step>): Sys
    requires Schedule(y, steps)
    decreases |steps|
  {
    if steps == [] then y else After(Do(y, steps[0]), steps[1..])
  }

  /**
   In every interleaving, the messages the consumer read from the ring are those the producer published, in
   order, and all calls that ended, refusals included, have seen what one sequence of FIFO calls would show.
   */
  lemma {:induction false} EveryInterleavingIsFifo(y: Sys, steps: seq<Step>)
    requires Inv(y) && Schedule(y, steps)
    ensures Inv(After(y, steps))
    ensures var z := After(y, steps);
            && z.popped <= z.pushed
            && FifoRun([], z.log, z.pushed[|z.popped|..])
    decreases |steps|
  {
    if steps != [] {
      StepKeeps(y, steps[0]);
      EveryInterleavingIsFifo(Do(y, steps[0]), steps[1..]);
    } else {
      var b, l :| InvWith(y, b, l);
      assert y.pushed[|y.popped|..] == Contents(l);
    }
  }

  /** Until the step that publishes it, a push under way stays as it is and the write position does not move. */
  lemma StepBeforePublish(y: Sys, st: Step)
    requires Enabled(y, st)
    ensures var z := Do(y, st);
            && |z.pushed| >= |y.pushed|
            && (y.prod.PWriting? && |z.pushed| == |y.pushed| ==>
                 && z.prod.PWriting? && z.prod.msg == y.prod.msg
                 && z.ring.n == y.ring.n && z.ring.s == y.ring.s && z.ring.writePos == y.ring.writePos)
  {
  }

  lemma {:induction false} BeforePublish(y: Sys, steps: seq<Step>)
    requires Inv(y) && Schedule(y, steps)
    ensures var z := After(y, steps);
            && |z.pushed| >= |y.pushed|
            && (y.prod.PWriting? && |z.pushed| == |y.pushed| ==>
                 && z.prod.PWriting? && z.prod.msg == y.prod.msg
                 && z.ring.n == y.ring.n && z.ring.s == y.ring.s && z.ring.writePos == y.ring.writePos)
    decreases |steps|
  {
    if steps != [] {
      StepBeforePublish(y, steps[0]);
      StepKeeps(y, steps[0]);
      BeforePublish(Do(y, steps[0]), steps[1..]);
    }
  }

  /**
   The position snapshot of a push may be old.  Whatever the consumer does between the snapshot and the publish,
   the check would still accept the push at the current read position, and the segments it writes are still free.
   */
  lemma StaleCheckStaysValid(y: Sys, msg: Message, steps: seq<Step>)
    requires Inv(y) && Enabled(y, StartPush(msg)) && Schedule(Do(y, StartPush(msg)), steps)
    requires |After(Do(y, StartPush(msg)), steps).pushed| == |y.pushed|
    ensures var g := After(Do(y, StartPush(msg)), steps).ring;
            && After(Do(y, StartPush(msg)), steps).prod.PWriting?
            && g.n == y.ring.n && g.s == y.ring.s && g.writePos == y.ring.writePos < g.n
            && Admissible(g.n, g.writePos, g.readPos, Segs(|msg|, g.s))
            && SpaceCheck(g.n, g.writePos, g.readPos, Segs(|msg|, g.s))
  {
    var x := Do(y, StartPush(msg));
    StepKeeps(y, StartPush(msg));
    BeforePublish(x, steps);
    EveryInterleavingIsFifo(x, steps);
    var g := After(x, steps).ring;
    SegsIsCeiling(|msg|, g.s);
    AdmissionIsExact(g.n, g.writePos, g.readPos, Segs(|msg|, g.s));
  }

  /** The emptiness test is exact at every moment. */
  lemma EmptyTestIsExact(y: Sys)
    requires Inv(y)
    ensures y.ring.readPos == y.ring.writePos <==> y.popped == y.pushed
  {
  }

  /** A peek ends on the oldest message published and not released, with its size and its bytes. */
  lemma PeekReturnsOldest(y: Sys)
    requires Inv(y) && y.cons.Scanning?
    requires AdvanceNext(y).cons.CIdle?
    ensures |y.popped| < |y.pushed| && Shows(AdvanceNext(y).ring, y.pushed[|y.popped|])
    ensures AdvanceNext(y).log == y.log + [Seen(y.ring, PeekOp, Obs(0, y.pushed[|y.popped|]))]
  {
    var b, l :| InvWith(y, b, l);
    var b', l' := ScanEndKeeps(y, b, l);
    OldestIsFirst(y.pushed, y.popped, Contents(l));
  }

  lemma OldestIsFirst(pushed: seq<Message>, popped: seq<Message>, q: seq<Message>)
    requires pushed == popped + q && q != []
    ensures |popped| < |pushed| && pushed[|popped|] == q[0]
  {
  }

  /** Until the pop, those bytes stay put, whatever the producer is doing. */
  lemma PeekedBytesStay(y: Sys)
    requires Inv(y) && y.cons.CIdle? && y.ring.readPos != y.ring.writePos
    requires y.ring.words[y.ring.readPos] != SKIP
    ensures |y.popped| < |y.pushed| && Shows(y.ring, y.pushed[|y.popped|])
  {
  }

  /** What a pop releases, which was read from the ring before the pop began, is the oldest message. */
  lemma PopReleasesOldest(y: Sys)
    requires Inv(y) && y.cons.Publishing?
    ensures |y.popped| < |y.pushed| && y.cons.got == y.pushed[|y.popped|]
    ensures AdvanceNext(y).popped == y.popped + [y.pushed[|y.popped|]]
  {
  }

  lemma ScheduleCons(y: Sys, st: Step, rest: seq<Step>) returns (steps: seq<Step>)
    requires Enabled(y, st) && !(st.Advance? && Hazard(y)) && Schedule(Do(y, st), rest)
    ensures Schedule(y, steps) && After(y, steps) == After(Do(y, st), rest) && steps == [st] + rest
  {
    steps := [st] + rest;
    assert steps[1..] == rest;
  }

  lemma FirstAndRest<T>(a: seq<T>, b: seq<T>)
    requires a != []
    ensures [a[0]] + (a[1..] + b) == a + b
  {
  }

  lemma {:induction false} ScheduleAppend(y: Sys, first: seq<Step>, second: seq<Step>)
    requires Schedule(y, first) && Schedule(After(y, first), second)
    ensures Schedule(y, first + second) && After(y, first + second) == After(After(y, first), second)
    decreases |first|
  {
    if first == [] {
      assert first + second == second;
    } else {
      ScheduleAppend(Do(y, first[0]), first[1..], second);
      var steps := ScheduleCons(y, first[0], first[1..] + second);
      FirstAndRest(first, second);
    }
  }

  /** It takes a last message being popped and a wrapping push under way. */
  lemma HazardNeeds(y: Sys)
    requires Inv(y) && Hazard(y)
    ensures |y.pushed| == |y.popped| + 1
    ensures y.prod.PWriting? && Wraps(y.ring, y.prod.msg) && y.prod.gapEnd > y.ring.writePos
    ensures y.ring.readPos < y.ring.writePos
  {
    var b, l :| InvWith(y, b, l);
    var g := y.ring;
    TilesBounds(g.s, b, g.data, y.cons.end, l.mid, l.front[1..]);
    assert g.words[y.cons.at] == Expected(y, b, y.cons.at);
    assert b[g.writePos] == EMPTY;
    if y.prod.PWriting? { PushShape(g, y.prod); }
  }

  // ---------------------------------------------------------------- who touches what

  /** Where the consumer's next step stores a word, if it does. */
  predicate Clears(y: Sys) {
    match y.cons
    case CIdle => false
    case Scanning(at) => at < y.ring.n && at < |y.ring.words| && y.ring.words[at] == SKIP
    case Clearing(at, end, _) => at < end
    case Draining(at, _) => at < y.ring.n
    case Publishing(_, _) => false
  }

  lemma ClearsOnlyThere(y: Sys, i: nat)
    requires !y.cons.CIdle? && i < |y.ring.words|
    requires Clears(y) ==> i != Cleared(y.cons, y.ring.readPos)
    ensures |AdvanceNext(y).ring.words| == |y.ring.words|
    ensures AdvanceNext(y).ring.words[i] == y.ring.words[i]
    ensures AdvanceNext(y).ring.data == y.ring.data
  {
  }

  /** No store of a peek or a pop reaches a free word, unless the hazard was passed. */
  lemma AdvanceLeavesFree(y: Sys, i: nat)
    requires Inv(y) && !y.cons.CIdle? && i < y.ring.n && !Used(y.ring.readPos, y.ring.writePos, i)
    ensures |AdvanceNext(y).ring.words| == |y.ring.words|
    ensures AdvanceNext(y).ring.words[i] == y.ring.words[i]
    ensures AdvanceNext(y).ring.data == y.ring.data
  {
    var b, l :| InvWith(y, b, l);
    if y.cons.Clearing? && y.cons.at < y.cons.end {
      ClearStepKeeps(y, b, l);
    }
    ClearsOnlyThere(y, i);
  }

  lemma StoresOnlyThere(y: Sys)
    requires 1 <= y.ring.s && y.prod.PWriting?
    ensures var z := StoreNext(y); var t := StoreTarget(y.ring, y.prod);
            && |z.ring.words| == |y.ring.words| && |z.ring.data| == |y.ring.data|
            && (forall i :: 0 <= i < |z.ring.words| && t != AtWord(i) ==> z.ring.words[i] == y.ring.words[i])
            && (forall o :: 0 <= o < |z.ring.data| && t != AtByte(o) ==> z.ring.data[o] == y.ring.data[o])
  {
  }

  /** No store of a push reaches a published word or a byte of a published segment. */
  lemma StoreLeavesPublished(y: Sys, i: nat)
    requires Inv(y) && y.prod.PWriting? && i < y.ring.n && Used(y.ring.readPos, y.ring.writePos, i)
    ensures |StoreNext(y).ring.words| == |y.ring.words| && |StoreNext(y).ring.data| == |y.ring.data|
    ensures StoreNext(y).ring.words[i] == y.ring.words[i]
    ensures forall o :: Offset(i, y.ring.s) <= o < Offset(i + 1, y.ring.s) && o < |y.ring.data| ==>
              StoreNext(y).ring.data[o] == y.ring.data[o]
  {
    var b, l :| InvWith(y, b, l);
    StoresOnlyThere(y);
    TargetIsFree(y.ring, y.prod, i);
  }

  lemma TargetIsFree(g: Ring, p: Producer, i: nat)
    requires Shaped(g) && ProducerOk(g, p) && p.PWriting? && i < g.n && Used(g.readPos, g.writePos, i)
    ensures StoreTarget(g, p) != AtWord(i)
    ensures forall o :: Offset(i, g.s) <= o < Offset(i + 1, g.s) ==> StoreTarget(g, p) != AtByte(o)
  {
    var num := Segs(|p.msg|, g.s);
    var base := PushBase(g, |p.msg|);
    PushShape(g, p);
    PushSegmentsAreFree(g, p);
    assert !Touched(g.n, g.writePos, num, i);
    if i < base { OffsetMonotone(i + 1, base, g.s); } else { OffsetMonotone(base + num, i, g.s); }
  }
}
