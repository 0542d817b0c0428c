/**
 The mapping behind the header as it is: one row of bytes that holds the management
 words and, one segment further on, the data.  The words have no bound of their own:
 word i is at byte 2 * i, wherever that is.
 */
module Memory {
  import opened Ring
  import opened RingLayout
  import opened RingFifo
  import opened Geometry

  datatype Flat = Flat(n: nat, s: nat, segments: nat, memory: int, mem: seq<Byte>, readPos: nat, writePos: nat)

  ghost predicate FlatSized(f: Flat) {
    1 <= f.n && 1024 <= f.s <= 4096 && f.s % 2 == 0 && |f.mem| == f.s + Offset(f.n, f.s)
  }

  lemma OffsetAtLeast(n: nat, s: nat)
    requires s >= 1024
    ensures Offset(n, s) >= 1024 * n
  {
    assert n * s == n * 1024 + n * (s - 1024);
  }

  lemma MemoryIsLong(f: Flat)
    requires FlatSized(f)
    ensures |f.mem| >= 2 * f.n + 1024
  {
    OffsetAtLeast(f.n, f.s);
  }

  predicate FlatReadable(f: Flat) {
    && f.n != 0
    && f.segments == f.n
    && f.memory == MemorySize(f.n, f.s)
    && f.readPos <= f.n
    && f.writePos <= f.n
  }

  /** A 16-bit word, low byte first. */
  function WordAt(mem: seq<Byte>, i: nat): Word
    requires 2 * i + 1 < |mem|
  {
    mem[2 * i] as int + 0x100 * mem[2 * i + 1] as int
  }

  /** Stores of `v` into the words [lo, hi). */
  function StoreWords(mem: seq<Byte>, lo: nat, hi: nat, v: Word): (r: seq<Byte>)
    ensures |r| == |mem|
    ensures forall j :: 0 <= j < |mem| ==>
              r[j] == if 2 * lo <= j < 2 * hi then (if j % 2 == 0 then (v % 0x100) as Byte else (v / 0x100) as Byte)
                      else mem[j]
  {
    seq(|mem|, j requires 0 <= j < |mem| =>
      if 2 * lo <= j < 2 * hi then (if j % 2 == 0 then (v % 0x100) as Byte else (v / 0x100) as Byte) else mem[j])
  }

  // ---------------------------------------------------------------- the operations, store after store

  /** The stores of a push from its header on: size word, bytes at `o`, and the skip words of its other segments. */
  function CellMem(mem: seq<Byte>, base: nat, num: nat, o: nat, msg: Message): seq<Byte>
    requires |msg| <= MAX_WRITE && o + |msg| <= |mem|
  {
    StoreWords(Overwrite(StoreWords(mem, base, base + 1, |msg|), o, msg), base + 1, base + num, SKIP)
  }

  /** The stores of a push at w of `num` segments, in program order. */
  function PushedMem(mem: seq<Byte>, n: nat, w: nat, num: nat, o: nat, msg: Message): seq<Byte>
    requires |msg| <= MAX_WRITE && o + |msg| <= |mem|
  {
    if w + num > n then CellMem(StoreWords(mem, w, n, SKIP), 0, num, o, msg) else CellMem(mem, w, num, o, msg)
  }

  lemma CellFits(n: nat, s: nat, base: nat, size: nat)
    requires 1 <= s && base + Segs(size, s) <= n
    ensures Offset(base, s) + size <= Offset(n, s)
  {
    SegsIsCeiling(size, s);
    OffsetMonotone(base, base + Segs(size, s), s);
    OffsetMonotone(base + Segs(size, s), n, s);
  }

  function FlatWritten(f: Flat, msg: Message): Flat
    requires FlatSized(f) && f.writePos < f.n && |msg| <= MAX_WRITE && Segs(|msg|, f.s) <= f.n
  {
    var num := Segs(|msg|, f.s);
    var base := if f.writePos + num > f.n then 0 else f.writePos;
    CellFits(f.n, f.s, base, |msg|);
    f.(mem := PushedMem(f.mem, f.n, f.writePos, num, f.s + Offset(base, f.s), msg),
       writePos := NextWrite(f.n, f.writePos, num))
  }

  function FlatPush(f: Flat, bufs: seq<Message>): (res: (Flat, int))
    requires FlatSized(f)
    ensures FlatSized(res.0)
  {
    var msg := Concat(bufs);
    if !FlatReadable(f) then (f, -1)
    else if |msg| > MAX_WRITE then (f, -2)
    else if !SpaceCheck(f.n, f.writePos, f.readPos, Segs(|msg|, f.s)) then (f, -3)
    else if f.writePos >= f.n then (f, -4)
    else
      SegsIsCeiling(|msg|, f.s);
      (FlatWritten(f, msg), 0)
  }

  function FlatSkipEnd(mem: seq<Byte>, p: nat, n: nat): (e: nat)
    requires p <= n && 2 * n <= |mem|
    ensures p <= e <= n
    decreases n - p
  {
    if p < n && WordAt(mem, p) == SKIP then FlatSkipEnd(mem, p + 1, n) else p
  }

  function FlatPeek(f: Flat): (res: (Flat, int, nat, Word))
    requires FlatSized(f)
    ensures FlatSized(res.0)
  {
    MemoryIsLong(f);
    if !FlatReadable(f) || f.readPos == f.writePos then (f, -1, 0, 0)
    else if f.readPos >= f.n then (f, -2, 0, 0)
    else
      var e := FlatSkipEnd(f.mem, f.readPos, f.n);
      var m := StoreWords(f.mem, f.readPos, e, EMPTY);
      var p := if e == f.n then 0 else e;
      (f.(mem := m, readPos := p), 0, p, WordAt(m, p))
  }

  /** The stores of a pop over the words [p, p + num) and a skip run behind them, and where the reader ends up. */
  function ClearedRun(mem: seq<Byte>, n: nat, p: nat, num: nat): (seq<Byte>, nat)
    requires 2 * n <= |mem|
  {
    var m := StoreWords(mem, p, p + num, EMPTY);
    if p + num < n && WordAt(m, p + num) == SKIP then (StoreWords(m, p + num, n, EMPTY), 0)
    else (m, if p + num == n then 0 else p + num)
  }

  /** The stores of a pop of `num` segments at r, in program order. */
  function ClearedMem(mem: seq<Byte>, n: nat, r: nat, num: nat): (seq<Byte>, nat)
    requires 2 * n <= |mem|
  {
    if r + num > n then ClearedRun(StoreWords(mem, r, n, EMPTY), n, 0, num) else ClearedRun(mem, n, r, num)
  }

  function FlatPop(f: Flat): (res: (Flat, int))
    requires FlatSized(f)
    ensures FlatSized(res.0)
  {
    MemoryIsLong(f);
    if !FlatReadable(f) || f.readPos == f.writePos then (f, -1)
    else
      var (m, r) := ClearedMem(f.mem, f.n, f.readPos, Segs(WordAt(f.mem, f.readPos), f.s));
      (f.(mem := m, readPos := r), 0)
  }

  // ---------------------------------------------------------------- words and data apart

  function Words(mem: seq<Byte>, s: nat): (ws: seq<Word>)
    requires s <= |mem|
    ensures |ws| == s / 2 && forall i :: 0 <= i < |ws| ==> ws[i] == WordAt(mem, i)
  {
    seq(s / 2, i requires 0 <= i < s / 2 => WordAt(mem, i))
  }

  /** The ring that the bytes stand for when the words end before the data begin. */
  function AsRing(f: Flat): Ring
    requires FlatSized(f)
  {
    Ring(f.n, f.s, f.segments, f.memory, Words(f.mem, f.s), f.mem[f.s..], f.readPos, f.writePos)
  }

  lemma StoreWordsSeen(mem: seq<Byte>, s: nat, lo: nat, hi: nat, v: Word)
    requires s <= |mem| && 2 * hi <= s
    ensures Words(StoreWords(mem, lo, hi, v), s) == Fill(Words(mem, s), lo, hi, v)
    ensures StoreWords(mem, lo, hi, v)[s..] == mem[s..]
  {
    var ws, ws' := Words(StoreWords(mem, lo, hi, v), s), Fill(Words(mem, s), lo, hi, v);
    forall i | 0 <= i < s / 2 ensures ws[i] == ws'[i] {
      assert (2 * i) % 2 == 0 && (2 * i + 1) % 2 == 1;
    }
  }

  lemma CopySeen(mem: seq<Byte>, s: nat, at: nat, msg: Message)
    requires s + at + |msg| <= |mem|
    ensures Words(Overwrite(mem, s + at, msg), s) == Words(mem, s)
    ensures Overwrite(mem, s + at, msg)[s..] == Overwrite(mem[s..], at, msg)
  {
  }

  lemma SkipEndSeen(mem: seq<Byte>, s: nat, p: nat, n: nat)
    requires p <= n && 2 * n <= s <= |mem|
    ensures FlatSkipEnd(mem, p, n) == SkipEnd(Words(mem, s), p, n)
    decreases n - p
  {
  }

  lemma HeaderSeen(mem: seq<Byte>, s: nat, base: nat, v: Word)
    requires s <= |mem| && 2 * base + 2 <= s
    ensures Words(StoreWords(mem, base, base + 1, v), s) == Words(mem, s)[base := v]
    ensures StoreWords(mem, base, base + 1, v)[s..] == mem[s..]
  {
    StoreWordsSeen(mem, s, base, base + 1, v);
    assert Fill(Words(mem, s), base, base + 1, v) == Words(mem, s)[base := v];
  }

  lemma CellSeen(mem: seq<Byte>, s: nat, base: nat, num: nat, at: nat, msg: Message)
    requires |msg| <= MAX_WRITE && s + at + |msg| <= |mem| && 2 * base + 2 <= s && 2 * (base + num) <= s
    ensures var m := CellMem(mem, base, num, s + at, msg);
            && |m| == |mem|
            && Words(m, s) == Fill(Words(mem, s)[base := |msg|], base + 1, base + num, SKIP)
            && m[s..] == Overwrite(mem[s..], at, msg)
  {
    HeaderSeen(mem, s, base, |msg|);
    var m2 := StoreWords(mem, base, base + 1, |msg|);
    CopySeen(m2, s, at, msg);
    StoreWordsSeen(Overwrite(m2, s + at, msg), s, base + 1, base + num, SKIP);
  }

  lemma AsRingIsSized(f: Flat)
    requires FlatSized(f) && 2 * f.n <= f.s
    ensures Sized(AsRing(f))
  {
  }

  /** The same behind a skip run. */
  lemma WrappedCellSeen(mem: seq<Byte>, s: nat, w: nat, n: nat, num: nat, at: nat, msg: Message)
    requires |msg| <= MAX_WRITE && s + at + |msg| <= |mem| && 2 <= 2 * n <= s && num <= n
    ensures var m := CellMem(StoreWords(mem, w, n, SKIP), 0, num, s + at, msg);
            && |m| == |mem|
            && Words(m, s) == Fill(Fill(Words(mem, s), w, n, SKIP)[0 := |msg|], 1, num, SKIP)
            && m[s..] == Overwrite(mem[s..], at, msg)
  {
    StoreWordsSeen(mem, s, w, n, SKIP);
    CellSeen(StoreWords(mem, w, n, SKIP), s, 0, num, at, msg);
  }

  /** The words after a push of `num` segments at w, as PushWords has them. */
  function CellWords(ws: seq<Word>, n: nat, w: nat, num: nat, size: Word): seq<Word>
    requires w < n <= |ws|
  {
    if w + num > n then Fill(Fill(ws, w, n, SKIP)[0 := size], 1, num, SKIP)
    else Fill(ws[w := size], w + 1, w + num, SKIP)
  }

  lemma PushedSeen(mem: seq<Byte>, s: nat, n: nat, w: nat, num: nat, at: nat, msg: Message)
    requires |msg| <= MAX_WRITE && s + at + |msg| <= |mem| && w < n && num <= n && 2 * n <= s
    ensures var m := PushedMem(mem, n, w, num, s + at, msg);
            && |m| == |mem|
            && Words(m, s) == CellWords(Words(mem, s), n, w, num, |msg|)
            && m[s..] == Overwrite(mem[s..], at, msg)
  {
    if w + num > n {
      WrappedCellSeen(mem, s, w, n, num, at, msg);
    } else {
      CellSeen(mem, s, w, num, at, msg);
    }
  }

  lemma WrittenIs(g: Ring, msg: Message)
    requires Sized(g) && g.writePos < g.n && |msg| <= MAX_WRITE && Segs(|msg|, g.s) <= g.n
    ensures PushBase(g, |msg|) < |g.words| && Offset(PushBase(g, |msg|), g.s) + |msg| <= |g.data|
    ensures Written(g, msg) == g.(words := CellWords(g.words, g.n, g.writePos, Segs(|msg|, g.s), |msg|),
                                  data := Overwrite(g.data, Offset(PushBase(g, |msg|), g.s), msg),
                                  writePos := NextWrite(g.n, g.writePos, Segs(|msg|, g.s)))
  {
    CellFits(g.n, g.s, PushBase(g, |msg|), |msg|);
  }

  lemma FlatWrittenIs(f: Flat, g: Ring, msg: Message)
    requires FlatSized(f) && f.writePos < f.n && |msg| <= MAX_WRITE && Segs(|msg|, f.s) <= f.n
    requires g.n == f.n && g.s == f.s && g.writePos == f.writePos
    ensures f.s + Offset(PushBase(g, |msg|), f.s) + |msg| <= |f.mem|
    ensures FlatWritten(f, msg) ==
              f.(mem := PushedMem(f.mem, f.n, f.writePos, Segs(|msg|, f.s), f.s + Offset(PushBase(g, |msg|), f.s), msg),
                 writePos := NextWrite(f.n, f.writePos, Segs(|msg|, f.s)))
  {
    CellFits(f.n, f.s, PushBase(g, |msg|), |msg|);
  }

  /** Words and data of g are those of f. */
  ghost predicate Matches(f: Flat, g: Ring) {
    && f.s <= |f.mem|
    && g.words == Words(f.mem, f.s) && g.data == f.mem[f.s..]
    && g == Ring(f.n, f.s, f.segments, f.memory, g.words, g.data, f.readPos, f.writePos)
  }

  lemma WrittenMatches(f: Flat, g: Ring, msg: Message)
    requires FlatSized(f) && Sized(g) && Matches(f, g)
    requires f.writePos < f.n && |msg| <= MAX_WRITE && Segs(|msg|, f.s) <= f.n
    ensures Matches(FlatWritten(f, msg), Written(g, msg)) && |FlatWritten(f, msg).mem| == |f.mem|
  {
    FlatWrittenIs(f, g, msg);
    WrittenIs(g, msg);
    PushedSeen(f.mem, f.s, f.n, f.writePos, Segs(|msg|, f.s), Offset(PushBase(g, |msg|), f.s), msg);
  }

  lemma WrittenAsRing(f: Flat, msg: Message)
    requires FlatSized(f) && 2 * f.n <= f.s && f.writePos < f.n && |msg| <= MAX_WRITE && Segs(|msg|, f.s) <= f.n
    ensures FlatSized(FlatWritten(f, msg)) && Sized(AsRing(f))
    ensures AsRing(FlatWritten(f, msg)) == Written(AsRing(f), msg)
  {
    AsRingIsSized(f);
    WrittenMatches(f, AsRing(f), msg);
  }

  /**
   Where the words end before the data begin, the bytes behave as the words and the data of Ring, for every
   operation on every state.
   */
  lemma FlatPushIsPush(f: Flat, bufs: seq<Message>)
    requires FlatSized(f) && 2 * f.n <= f.s
    ensures FlatSized(FlatPush(f, bufs).0) && Sized(AsRing(f))
    ensures Push(AsRing(f), bufs) == PushResult(AsRing(FlatPush(f, bufs).0), FlatPush(f, bufs).1)
  {
    var msg := Concat(bufs);
    if FlatPush(f, bufs).1 == 0 {
      SegsIsCeiling(|msg|, f.s);
      WrittenAsRing(f, msg);
    }
  }

  lemma FlatPeekIsPeek(f: Flat)
    requires FlatSized(f) && 2 * f.n <= f.s
    ensures FlatSized(FlatPeek(f).0) && Sized(AsRing(f))
    ensures var (f', code, pos, size) := FlatPeek(f);
            Peek(AsRing(f)) == PeekResult(AsRing(f'), code, pos, size)
  {
    if FlatReadable(f) && f.readPos < f.n {
      SkipEndSeen(f.mem, f.s, f.readPos, f.n);
      StoreWordsSeen(f.mem, f.s, f.readPos, FlatSkipEnd(f.mem, f.readPos, f.n), EMPTY);
    }
  }

  lemma FlatPopIsPop(f: Flat)
    requires FlatSized(f) && 2 * f.n <= f.s
    ensures FlatSized(FlatPop(f).0) && Sized(AsRing(f))
    ensures Pop(AsRing(f)) == PopResult(AsRing(FlatPop(f).0), FlatPop(f).1)
  {
    MemoryIsLong(f);
    if FlatReadable(f) && f.readPos != f.writePos {
      HeadWordSeen(f);
      SegsIsCeiling(WordAt(f.mem, f.readPos), f.s);
      ClearedSeen(f.mem, f.s, f.n, f.readPos, Segs(WordAt(f.mem, f.readPos), f.s));
    }
  }

  lemma HeadWordSeen(f: Flat)
    requires FlatSized(f) && 2 * f.n <= f.s && f.readPos <= f.n
    ensures Sized(AsRing(f)) && 2 * f.readPos + 1 < |f.mem|
    ensures WordAt(f.mem, f.readPos) == HeadWord(AsRing(f))
  {
    MemoryIsLong(f);
    AsRingIsSized(f);
    var g := AsRing(f);
    if f.readPos >= |g.words| {
      assert 2 * f.readPos == f.s;
      assert g.data[0] == f.mem[f.s] && g.data[1] == f.mem[f.s + 1];
    }
  }

  function ClearedWords(ws: seq<Word>, n: nat, p: nat, num: nat): (seq<Word>, nat)
    requires n <= |ws|
  {
    var ws' := Fill(ws, p, p + num, EMPTY);
    if p + num < n && ws'[p + num] == SKIP then (Fill(ws', p + num, n, EMPTY), 0)
    else (ws', if p + num == n then 0 else p + num)
  }

  lemma ClearedFromIs(ws: seq<Word>, n: nat, r: nat, num: nat)
    requires r <= n <= |ws| && num <= |ws|
    ensures ClearedFrom(ws, n, r, num) ==
              if r + num > n then ClearedWords(Fill(ws, r, n, EMPTY), n, 0, num) else ClearedWords(ws, n, r, num)
  {
  }

  lemma ClearedRunSeen(mem: seq<Byte>, s: nat, n: nat, p: nat, num: nat)
    requires p <= n && 2 * n <= s <= |mem| && 2 * (p + num) <= s
    ensures var (m, r') := ClearedRun(mem, n, p, num);
            |m| == |mem| && m[s..] == mem[s..] && (Words(m, s), r') == ClearedWords(Words(mem, s), n, p, num)
  {
    StoreWordsSeen(mem, s, p, p + num, EMPTY);
    if p + num < n {
      StoreWordsSeen(StoreWords(mem, p, p + num, EMPTY), s, p + num, n, EMPTY);
    }
  }

  lemma ClearedSeen(mem: seq<Byte>, s: nat, n: nat, r: nat, num: nat)
    requires r <= n && 2 * n <= s <= |mem| && 2 * num <= s
    ensures var (m, r') := ClearedMem(mem, n, r, num);
            && |m| == |mem| && m[s..] == mem[s..]
            && ClearedFrom(Words(mem, s), n, r, num) == (Words(m, s), r')
  {
    ClearedFromIs(Words(mem, s), n, r, num);
    if r + num > n {
      StoreWordsSeen(mem, s, r, n, EMPTY);
      ClearedRunSeen(StoreWords(mem, r, n, EMPTY), s, n, 0, num);
    } else {
      ClearedRunSeen(mem, s, n, r, num);
    }
  }

  // ---------------------------------------------------------------- words inside the data

  /** What a caller sees of an operation on the bytes. */
  function FlatApply(f: Flat, op: Op): (res: (Flat, Obs))
    requires FlatSized(f)
    ensures FlatSized(res.0)
  {
    match op
    case PushOp(bufs) => (FlatPush(f, bufs).0, Obs(FlatPush(f, bufs).1, []))
    case PopOp => (FlatPop(f).0, Obs(FlatPop(f).1, []))
    case PeekOp =>
      var (g, code, pos, size) := FlatPeek(f);
      var o := f.s + Offset(pos, f.s);
      (g, Obs(code, if code == 0 && o + size <= |g.mem| then g.mem[o..o + size] else []))
  }

  function FlatCall(f: Flat, op: Op): Event
    requires FlatSized(f)
  {
    Event(f.n, f.s, f.readPos, f.writePos, op, FlatApply(f, op).1)
  }

  /** Allowed, on the bytes. */
  predicate FlatAllowed(f: Flat, op: Op)
    requires 1 <= f.s
  {
    match op
    case PushOp(bufs) =>
      && Concat(bufs) != []
      && !Overrun(f.n, f.writePos, f.readPos, Segs(|Concat(bufs)|, f.s))
    case PeekOp => true
    case PopOp => 2 * f.readPos + 1 < |f.mem| && WordAt(f.mem, f.readPos) != SKIP
  }

  /** `trace` is a run of allowed operations from f to g. */
  ghost predicate FlatRun(f: Flat, trace: seq<Event>, g: Flat)
    decreases |trace|
  {
    if trace == [] then g == f
    else
      var init, last := trace[..|trace| - 1], trace[|trace| - 1];
      exists h :: FlatRun(f, init, h) && FlatSized(h) && FlatAllowed(h, last.op)
        && last == FlatCall(h, last.op) && g == FlatApply(h, last.op).0
  }

  lemma FlatRunSnoc(f: Flat, trace: seq<Event>, g: Flat, op: Op)
    requires FlatRun(f, trace, g) && FlatSized(g) && FlatAllowed(g, op)
    ensures FlatRun(f, trace + [FlatCall(g, op)], FlatApply(g, op).0)
  {
    assert (trace + [FlatCall(g, op)])[..|trace|] == trace;
  }

  // ---------------------------------------------------------------- where the words fit

  /** On bytes whose words fit, an allowed operation is that operation of the ring. */
  lemma FlatApplyIsApply(f: Flat, op: Op)
    requires FlatSized(f) && 2 * f.n <= f.s && Shaped(AsRing(f)) && FlatAllowed(f, op)
    ensures Allowed(AsRing(f), op)
    ensures FlatCall(f, op) == Call(AsRing(f), op) && AsRing(FlatApply(f, op).0) == Apply(AsRing(f), op).0
  {
    match op
    case PushOp(bufs) => FlatPushIsPush(f, bufs);
    case PopOp => FlatPopIsPop(f);
    case PeekOp => FlatPeekIsPeek(f); ShownSeen(f);
  }

  lemma ShownSeen(f: Flat)
    requires FlatSized(f) && 2 * f.n <= f.s && Shaped(AsRing(f))
    ensures FlatApply(f, PeekOp).1 == Apply(AsRing(f), PeekOp).1
  {
    FlatPeekIsPeek(f);
    var (g, code, pos, size) := FlatPeek(f);
    if code == 0 {
      ShownThere(AsRing(g), g.mem, pos, size);
    }
  }

  lemma ShownThere(h: Ring, m: seq<Byte>, pos: nat, size: Word)
    requires h.s <= |m| && h.data == m[h.s..] && h.readPos == pos < |h.words| && h.words[pos] == size
    ensures var o := h.s + Offset(pos, h.s);
            Shown(h) == if o + size <= |m| then m[o..o + size] else []
  {
    SliceOfTail(m, h.s, Offset(pos, h.s), size);
  }

  lemma SliceOfTail(m: seq<Byte>, s: nat, o: nat, size: nat)
    requires s <= |m|
    ensures s + o + size <= |m| <==> o + size <= |m[s..]|
    ensures s + o + size <= |m| ==> m[s + o..s + o + size] == m[s..][o..o + size]
  {
  }

  lemma FlatStepRefinesFifo(f: Flat, l: Layout, op: Op, before: seq<Event>) returns (l': Layout)
    requires FlatSized(f) && 2 * f.n <= f.s && Represents(AsRing(f), l) && FlatAllowed(f, op)
    requires FifoRun([], before, Contents(l))
    ensures var g := FlatApply(f, op).0; 2 * g.n <= g.s && Represents(AsRing(g), l')
    ensures FifoRun([], before + [FlatCall(f, op)], Contents(l'))
  {
    FlatApplyIsApply(f, op);
    l' := StepRefinesFifo(AsRing(f), l, op);
    FifoRunSnoc([], before, Contents(l), FlatCall(f, op), Contents(l'));
    assert Sized(AsRing(FlatApply(f, op).0));
  }

  lemma FlatRunLast(f: Flat, trace: seq<Event>, g: Flat) returns (init: seq<Event>, h: Flat, op: Op)
    requires FlatRun(f, trace, g) && trace != []
    ensures FlatRun(f, init, h) && FlatSized(h) && FlatAllowed(h, op)
    ensures trace == init + [FlatCall(h, op)] && g == FlatApply(h, op).0
  {
    var last := trace[|trace| - 1];
    init, op := trace[..|trace| - 1], last.op;
    h :| FlatRun(f, init, h) && FlatSized(h) && FlatAllowed(h, last.op)
         && last == FlatCall(h, last.op) && g == FlatApply(h, last.op).0;
    InitAndLast(trace);
  }

  lemma InitAndLast<T>(a: seq<T>)
    requires a != []
    ensures a[..|a| - 1] + [a[|a| - 1]] == a
  {
  }

  lemma FlatFreshIsEmpty(n: nat, s: nat, mem: seq<Byte>)
    requires 1 <= n && Released(s) && 2 * n <= s && |mem| == s + Offset(n, s)
    ensures FlatSized(FlatFresh(n, s, mem)) && Represents(AsRing(FlatFresh(n, s, mem)), Layout([], 0, []))
  {
    StoreWordsSeen(mem, s, 0, n, EMPTY);
  }

  lemma {:induction false} FlatRunIsFifo(n: nat, s: nat, mem: seq<Byte>, trace: seq<Event>, g: Flat) returns (l: Layout)
    requires 1 <= n && Released(s) && 2 * n <= s && |mem| == s + Offset(n, s)
    requires FlatRun(FlatFresh(n, s, mem), trace, g)
    ensures FlatSized(g) && 2 * g.n <= g.s && Represents(AsRing(g), l) && FifoRun([], trace, Contents(l))
    decreases |trace|
  {
    if trace == [] {
      FlatFreshIsEmpty(n, s, mem);
      l := Layout([], 0, []);
    } else {
      var init, h, op := FlatRunLast(FlatFresh(n, s, mem), trace, g);
      var l1 := FlatRunIsFifo(n, s, mem, init, h);
      l := FlatStepRefinesFifo(h, l1, op, init);
    }
  }

  // ---------------------------------------------------------------- where they do not

  /** Every push of the run is of the one byte x. */
  ghost predicate Pushes(trace: seq<Event>, x: Byte) {
    forall i :: 0 <= i < |trace| && trace[i].op.PushOp? ==> trace[i].op == PushOp([[x]])
  }

  ghost predicate Legal(f: Flat, op: Op, x: Byte)
    requires 1 <= f.s
  {
    FlatAllowed(f, op) && (op.PushOp? ==> op == PushOp([[x]]))
  }

  /** A set of states that no allowed pop, peek or push of x leads out of. */
  ghost predicate Closed(reach: Flat -> bool, x: Byte) {
    forall f, op :: reach(f) && FlatSized(f) && Legal(f, op, x) ==> reach(FlatApply(f, op).0)
  }

  /** No FIFO that was given nothing but x answers a peek with anything else. */
  lemma {:induction false} NoSuchFifo(q: seq<Message>, trace: seq<Event>, e: Event, x: Byte, q': seq<Message>)
    requires Pushes(trace, x) && e.op.PeekOp? && e.obs.code == 0 && e.obs.shown != [x]
    requires forall i :: 0 <= i < |q| ==> q[i] == [x]
    ensures !FifoRun(q, trace + [e], q')
    decreases |trace|
  {
    if FifoRun(q, trace + [e], q') {
      var all := trace + [e];
      var q1 :| FifoStep(q, all[0], q1) && FifoRun(q1, all[1..], q');
      if trace != [] {
        ConcatOne([x]);
        assert all[1..] == trace[1..] + [e];
        NoSuchFifo(q1, trace[1..], e, x, q');
      }
    }
  }

  function FlatFresh(n: nat, s: nat, mem: seq<Byte>): Flat {
    Flat(n, s, n, MemorySize(n, s), StoreWords(mem, 0, n, EMPTY), 0, 0)
  }

  /** A ring of small segments in a sane state. */
  ghost predicate Small(f: Flat) {
    && FlatSized(f) && FlatReadable(f) && f.s == SMALL_SEGMENT
    && 513 <= f.n <= MAX_SEGMENTS && f.writePos < f.n && f.readPos < f.n
  }

  lemma OneByte(x: Byte)
    ensures Concat([[x]]) == [x] && Segs(1, SMALL_SEGMENT) == 1
  {
    ConcatOne([x]);
  }

  /** The words 0 to 512 of two states: only the words [lo, hi) may differ, and these hold v now. */
  ghost predicate Low(m: seq<Byte>, m': seq<Byte>, lo: nat, hi: nat, v: Word) {
    && |m'| == |m| >= 2048
    && forall j :: 0 <= j <= 512 ==> WordAt(m', j) == if lo <= j < hi then v else WordAt(m, j)
  }

  lemma LowTrans(m: seq<Byte>, m1: seq<Byte>, m2: seq<Byte>, lo: nat, mid: nat, hi: nat, v: Word)
    requires lo <= mid <= hi && Low(m, m1, lo, mid, v) && Low(m1, m2, mid, hi, v)
    ensures Low(m, m2, lo, hi, v)
  {
  }

  lemma SmallWord(m: seq<Byte>, i: nat)
    requires 2 * i + 1 < |m|
    ensures m[2 * i + 1] == 0 <==> WordAt(m, i) < 0x100
    ensures WordAt(m, i) < 0x100 ==> m[2 * i] as int == WordAt(m, i)
  {
  }

  lemma PushBytes(f: Flat, x: Byte)
    requires Small(f) && SpaceCheck(f.n, f.writePos, f.readPos, 1)
    ensures var (g, code) := FlatPush(f, [[x]]);
            && code == 0 && Small(g)
            && g == f.(mem := g.mem, writePos := if f.writePos + 1 == f.n then 0 else f.writePos + 1)
            && |g.mem| == |f.mem| >= 2 * f.n + 1024
            && forall j :: 0 <= j < |f.mem| ==>
                 g.mem[j] == if j == SMALL_SEGMENT * (f.writePos + 1) then x
                             else if j == 2 * f.writePos then 1
                             else if j == 2 * f.writePos + 1 then 0
                             else f.mem[j]
  {
    OneByte(x);
    MemoryIsLong(f);
    OffsetMonotone(f.writePos, f.n, f.s);
  }

  lemma PushLow(m: seq<Byte>, m': seq<Byte>, w: nat, x: Byte)
    requires |m'| == |m| >= 2048
    requires forall j :: 0 <= j < |m| ==>
               m'[j] == if j == SMALL_SEGMENT * (w + 1) then x
                        else if j == 2 * w then 1
                        else if j == 2 * w + 1 then 0
                        else m[j]
    ensures w >= 1 ==> Low(m, m', w, w + 1, 1)
    ensures w == 0 ==>
              && WordAt(m', 0) == 1
              && (forall j :: 1 <= j <= 511 ==> WordAt(m', j) == WordAt(m, j))
              && m'[1024] == x && m'[1025] == m[1025]
  {
  }

  /** One byte pushed: its size word is 1, and at segment 0 the byte is the low half of word 512. */
  lemma PushOne(reach: Flat -> bool, f: Flat, x: Byte) returns (g: Flat)
    requires reach(f) && Closed(reach, x)
    requires Small(f) && SpaceCheck(f.n, f.writePos, f.readPos, 1) && !Overrun(f.n, f.writePos, f.readPos, 1)
    ensures reach(g)
    ensures Small(g) && g == f.(mem := g.mem, writePos := if f.writePos + 1 == f.n then 0 else f.writePos + 1)
    ensures |g.mem| == |f.mem| >= 2048
    ensures f.writePos >= 1 ==> Low(f.mem, g.mem, f.writePos, f.writePos + 1, 1)
    ensures f.writePos == 0 ==>
              && WordAt(g.mem, 0) == 1
              && (forall j :: 1 <= j <= 511 ==> WordAt(g.mem, j) == WordAt(f.mem, j))
              && g.mem[1024] == x && g.mem[1025] == f.mem[1025]
  {
    PushBytes(f, x);
    OneByte(x);
    assert Legal(f, PushOp([[x]]), x);
    g := FlatApply(f, PushOp([[x]])).0;
    PushLow(f.mem, g.mem, f.writePos, x);
  }

  lemma PopBytes(f: Flat)
    requires Small(f) && f.readPos != f.writePos && f.readPos + 1 < f.n
    requires 2 * f.n <= |f.mem| && WordAt(f.mem, f.readPos) == 1 && WordAt(f.mem, f.readPos + 1) != SKIP
    ensures var (g, code) := FlatPop(f);
            code == 0 && g == f.(mem := StoreWords(f.mem, f.readPos, f.readPos + 1, EMPTY), readPos := f.readPos + 1)
  {
    OneByte(0);
    assert WordAt(StoreWords(f.mem, f.readPos, f.readPos + 1, EMPTY), f.readPos + 1) == WordAt(f.mem, f.readPos + 1);
  }

  /** One message of one segment popped, with no skip word behind it. */
  lemma PopOne(reach: Flat -> bool, f: Flat, x: Byte) returns (g: Flat)
    requires reach(f) && Closed(reach, x)
    requires Small(f) && f.readPos != f.writePos && f.readPos + 1 < f.n
    requires 2 * f.n <= |f.mem| && WordAt(f.mem, f.readPos) == 1 && WordAt(f.mem, f.readPos + 1) != SKIP
    ensures reach(g)
    ensures Small(g) && g == f.(mem := g.mem, readPos := f.readPos + 1)
    ensures Low(f.mem, g.mem, f.readPos, f.readPos + 1, EMPTY)
  {
    PopBytes(f);
    MemoryIsLong(f);
    StoreLow(f.mem, f.readPos);
    assert Legal(f, PopOp, x);
    g := FlatApply(f, PopOp).0;
  }

  lemma StoreLow(m: seq<Byte>, i: nat)
    requires |m| >= 2048
    ensures Low(m, StoreWords(m, i, i + 1, EMPTY), i, i + 1, EMPTY)
  {
    var m' := StoreWords(m, i, i + 1, EMPTY);
    forall j | 0 <= j <= 512 ensures WordAt(m', j) == if i <= j < i + 1 then EMPTY else WordAt(m, j) {
      assert (2 * j) % 2 == 0 && (2 * j + 1) % 2 == 1;
    }
  }

  lemma AcceptsOne(n: nat, w: nat, r: nat)
    requires 2 <= n <= MAX_SEGMENTS && r <= w && w + 1 < n
    ensures SpaceCheck(n, w, r, 1)
  {
    SpaceCheckDoesNotWrap(n, w, r, 1);
  }

  /** k pushes of x by a writer that is past segment 0 and does not reach the end. */
  lemma {:induction false} PushMany(reach: Flat -> bool, f: Flat, x: Byte, k: nat) returns (g: Flat)
    requires reach(f) && Closed(reach, x)
    requires Small(f) && 1 <= f.writePos && f.readPos <= f.writePos && f.writePos + k < f.n
    ensures reach(g)
    ensures Small(g) && g == f.(mem := g.mem, writePos := f.writePos + k)
    ensures Low(f.mem, g.mem, f.writePos, f.writePos + k, 1)
    decreases k
  {
    if k == 0 {
      MemoryIsLong(f);
      g := f;
    } else {
      AcceptsOne(f.n, f.writePos, f.readPos);
      var f1 := PushOne(reach, f, x);
      g := PushMany(reach, f1, x, k - 1);
      LowTrans(f.mem, f1.mem, g.mem, f.writePos, f.writePos + 1, f.writePos + k, 1);
    }
  }

  /** k pops of messages of one segment, with no skip word behind the last. */
  lemma {:induction false} PopMany(reach: Flat -> bool, f: Flat, x: Byte, k: nat) returns (g: Flat)
    requires reach(f) && Closed(reach, x)
    requires Small(f) && f.writePos < f.readPos && f.readPos + k <= 512 && |f.mem| >= 2 * f.n
    requires forall j :: f.readPos <= j < f.readPos + k ==> WordAt(f.mem, j) == 1
    requires WordAt(f.mem, f.readPos + k) != SKIP
    ensures reach(g)
    ensures Small(g) && g == f.(mem := g.mem, readPos := f.readPos + k)
    ensures Low(f.mem, g.mem, f.readPos, f.readPos + k, EMPTY)
    decreases k
  {
    if k == 0 {
      MemoryIsLong(f);
      g := f;
    } else {
      assert WordAt(f.mem, f.readPos + 1) == 1 || k == 1;
      var f1 := PopOne(reach, f, x);
      g := PopMany(reach, f1, x, k - 1);
      LowTrans(f.mem, f1.mem, g.mem, f.readPos, f.readPos + 1, f.readPos + k, EMPTY);
    }
  }

  /** What a peek shows where no skip word stands. */
  lemma PeekSmall(f: Flat, size: Word)
    requires Small(f) && f.readPos != f.writePos && 2 * f.n <= |f.mem| && WordAt(f.mem, f.readPos) == size != SKIP
    ensures var o := SMALL_SEGMENT * (f.readPos + 1);
            o + size <= |f.mem| ==> FlatApply(f, PeekOp).1 == Obs(0, f.mem[o..o + size])
  {
    assert StoreWords(f.mem, f.readPos, f.readPos, EMPTY) == f.mem;
  }

  /** From 514 segments on: the byte pushed first is overwritten by word 512, which lies on segment 0. */
  lemma OverwrittenByWord(reach: Flat -> bool, f: Flat) returns (g: Flat)
    requires reach(f) && Closed(reach, 7) && Small(f) && f.n >= 514 && f.readPos == f.writePos == 0
    ensures reach(g) && Small(g) && g.readPos == 0 && g.writePos == 513 && |g.mem| >= 2048
    ensures WordAt(g.mem, 0) == 1 && WordAt(g.mem, 512) == 1
  {
    AcceptsOne(f.n, 0, 0);
    var f1 := PushOne(reach, f, 7);
    g := PushMany(reach, f1, 7, 512);
  }

  /** With 513 segments: one message in and out, and 512 more in; segment 0 is free and the size in word 512 is 1. */
  lemma LastWordInUse(reach: Flat -> bool, f: Flat) returns (g: Flat)
    requires reach(f) && Closed(reach, 2) && Small(f) && f.n == 513 && f.readPos == f.writePos == 0
    requires |f.mem| >= 2048 && WordAt(f.mem, 1) == EMPTY
    ensures reach(g) && Small(g) && g.n == 513 && g.readPos == 1 && g.writePos == 0 && |g.mem| >= 2048
    ensures forall j :: 1 <= j <= 512 ==> WordAt(g.mem, j) == 1
  {
    AcceptsOne(513, 0, 0);
    var f1 := PushOne(reach, f, 2);
    MemoryIsLong(f1);
    var f2 := PopOne(reach, f1, 2);
    var f3 := PushMany(reach, f2, 2, 511);
    SpaceCheckDoesNotWrap(513, 512, 1, 1);
    g := PushOne(reach, f3, 2);
    LowTrans(f2.mem, f3.mem, g.mem, 1, 512, 513, 1);
  }

  /** Then one out and one in: the byte pushed into segment 0 has become the size in word 512. */
  lemma SizeOverwritten(reach: Flat -> bool, f: Flat) returns (g: Flat)
    requires reach(f) && Closed(reach, 2) && Small(f) && f.n == 513 && f.readPos == 1 && f.writePos == 0
    requires |f.mem| >= 2048 && forall j :: 1 <= j <= 512 ==> WordAt(f.mem, j) == 1
    ensures reach(g) && Small(g) && g.n == 513 && g.readPos == 2 && g.writePos == 1 && |g.mem| >= 2048
    ensures (forall j :: 2 <= j <= 511 ==> WordAt(g.mem, j) == 1) && WordAt(g.mem, 512) == 2
  {
    MemoryIsLong(f);
    var f1 := PopOne(reach, f, 2);
    SpaceCheckDoesNotWrap(513, 0, 2, 1);
    g := PushOne(reach, f1, 2);
    SmallWord(f1.mem, 512);
  }

  /** A peek that shows 1 where 7 was pushed. */
  lemma ByteLost(reach: Flat -> bool, f: Flat) returns (g: Flat)
    requires reach(f) && Closed(reach, 7) && Small(f) && f.n >= 514 && f.readPos == f.writePos == 0
    ensures reach(g) && FlatSized(g) && FlatApply(g, PeekOp).1 == Obs(0, [1])
  {
    g := OverwrittenByWord(reach, f);
    MemoryIsLong(g);
    SmallWord(g.mem, 512);
    PeekSmall(g, 1);
    assert g.mem[1024..1025] == [1];
  }

  /** A peek that takes a message of one byte for one of two. */
  lemma SizeWrong(reach: Flat -> bool, f: Flat) returns (g: Flat)
    requires reach(f) && Closed(reach, 2) && Small(f) && f.n == 513 && f.readPos == f.writePos == 0
    requires |f.mem| >= 2048 && WordAt(f.mem, 1) == EMPTY
    ensures reach(g) && FlatSized(g)
    ensures FlatApply(g, PeekOp).1.code == 0 && |FlatApply(g, PeekOp).1.shown| == 2
  {
    var f1 := LastWordInUse(reach, f);
    var f2 := SizeOverwritten(reach, f1);
    MemoryIsLong(f2);
    g := PopMany(reach, f2, 2, 510);
    PeekTwo(g);
  }

  lemma PeekTwo(f: Flat)
    requires Small(f) && f.n == 513 && f.readPos == 512 && f.writePos == 1 && |f.mem| >= 2048 && WordAt(f.mem, 512) == 2
    ensures FlatApply(f, PeekOp).1.code == 0 && |FlatApply(f, PeekOp).1.shown| == 2
  {
    MemoryIsLong(f);
    OffsetMonotone(512, 513, SMALL_SEGMENT);
    PeekSmall(f, 2);
  }

  lemma ReachIsClosed(f: Flat, x: Byte, reach: Flat -> bool)
    requires forall g :: reach(g) <==> exists trace :: FlatRun(f, trace, g) && Pushes(trace, x)
    ensures reach(f) && Closed(reach, x)
  {
    assert FlatRun(f, [], f) && Pushes([], x);
    forall g, op | reach(g) && FlatSized(g) && Legal(g, op, x) ensures reach(FlatApply(g, op).0) {
      var trace :| FlatRun(f, trace, g) && Pushes(trace, x);
      FlatRunSnoc(f, trace, g, op);
      assert Pushes(trace + [FlatCall(g, op)], x);
    }
  }

  /**
   For every number of segments that the source accepts and whose words do not fit into a small management
   segment there is a run, from creation, that no FIFO could have produced.
   */
  lemma OverlapIsNotFifo(n: nat, mem: seq<Byte>) returns (trace: seq<Event>, g: Flat)
    requires SMALL_SEGMENT < 2 * n && n <= MAX_SEGMENTS && |mem| == SMALL_SEGMENT + Offset(n, SMALL_SEGMENT)
    ensures FlatRun(FlatFresh(n, SMALL_SEGMENT, mem), trace, g)
    ensures forall q :: !FifoRun([], trace, q)
  {
    var f := FlatFresh(n, SMALL_SEGMENT, mem);
    var x: Byte := if n >= 514 then 7 else 2;
    var reach := (h: Flat) => exists t :: FlatRun(f, t, h) && Pushes(t, x);
    ReachIsClosed(f, x, reach);
    FreshIsSmall(n, mem);
    var h;
    if n >= 514 {
      h := ByteLost(reach, f);
    } else {
      h := SizeWrong(reach, f);
    }
    var before :| FlatRun(f, before, h) && Pushes(before, x);
    FlatRunSnoc(f, before, h, PeekOp);
    trace, g := before + [FlatCall(h, PeekOp)], FlatApply(h, PeekOp).0;
    forall q ensures !FifoRun([], trace, q) {
      NoSuchFifo([], before, FlatCall(h, PeekOp), x, q);
    }
  }

  lemma FreshIsSmall(n: nat, mem: seq<Byte>)
    requires SMALL_SEGMENT < 2 * n && n <= MAX_SEGMENTS && |mem| == SMALL_SEGMENT + Offset(n, SMALL_SEGMENT)
    ensures var f := FlatFresh(n, SMALL_SEGMENT, mem);
            Small(f) && |f.mem| >= 2048 && WordAt(f.mem, 1) == EMPTY
  {
    OffsetAtLeast(n, SMALL_SEGMENT);
  }

  ghost predicate IsFifo(trace: seq<Event>) {
    exists q :: FifoRun([], trace, q)
  }

  ghost predicate AllRunsAreFifo(f: Flat) {
    forall trace, g :: FlatRun(f, trace, g) ==> IsFifo(trace)
  }

  lemma FittingRunsAreFifo(n: nat, s: nat, mem: seq<Byte>)
    requires 1 <= n && Released(s) && 2 * n <= s && |mem| == s + Offset(n, s)
    ensures AllRunsAreFifo(FlatFresh(n, s, mem))
  {
    forall trace, g | FlatRun(FlatFresh(n, s, mem), trace, g) ensures IsFifo(trace) {
      var l := FlatRunIsFifo(n, s, mem, trace, g);
    }
  }

  /**
   For every ring the source creates: all runs of allowed operations from creation are those of a bounded FIFO
   iff the management words fit into the management segment.
   */
  lemma FifoIffWordsFit(n: nat, s: nat, mem: seq<Byte>)
    requires 1 <= n <= MAX_SEGMENTS && Released(s) && |mem| == s + Offset(n, s)
    ensures AllRunsAreFifo(FlatFresh(n, s, mem)) <==> 2 * n <= s
  {
    if 2 * n <= s {
      FittingRunsAreFifo(n, s, mem);
    } else {
      assert s == SMALL_SEGMENT;
      var trace, g := OverlapIsNotFifo(n, mem);
      assert !IsFifo(trace);
    }
  }
}
