/**
 The shared-memory ring queue as a value: a row of management words, the data
 segments behind them, and the two positions.  Each operation is given in closed
 form; the loops that compute it are in RingQueue.
 */
module Ring {

  newtype Byte = b: int | 0 <= b < 256
  type Word = x: int | 0 <= x < 0x1_0000

  const EMPTY: Word := 0xfffe
  const SKIP: Word := 0xfffd
  const MAX_WRITE: nat := 0xfffc

  type Message = seq<Byte>

  /** Bytes of the packed header in front of the management segment. */
  const HEADER_SIZE: nat := 82

  function MemorySize(n: nat, s: nat): nat {
    HEADER_SIZE + s + n * s
  }

  /**
   `n` and `s` are the geometry this process believes in; `segments` and `memory`
   are what the shared header says.
   */
  datatype Ring = Ring(
    n: nat, s: nat, segments: nat, memory: int,
    words: seq<Word>, data: seq<Byte>, readPos: nat, writePos: nat)

  /** The management segment holds s/2 words, of which the first n are used. */
  ghost predicate Sized(g: Ring) {
    && 1 <= g.n
    && 1024 <= g.s <= 4096
    && 2 * g.n <= g.s
    && |g.words| == g.s / 2
    && |g.data| == Offset(g.n, g.s)
  }

  /** isGetPossitionSucceccful */
  predicate Readable(g: Ring) {
    && g.n != 0
    && g.segments == g.n
    && g.memory == MemorySize(g.n, g.s)
    && g.readPos <= g.n
    && g.writePos <= g.n
  }

  ghost predicate Shaped(g: Ring) {
    && Sized(g)
    && Readable(g)
    && g.readPos < g.n
    && g.writePos < g.n
  }

  function Offset(p: nat, s: nat): nat {
    p * s
  }

  lemma OffsetMonotone(p: nat, q: nat, s: nat)
    requires p <= q
    ensures Offset(q, s) == Offset(p, s) + Offset(q - p, s)
    ensures Offset(p, s) <= Offset(q, s)
  {
    assert q * s == p * s + (q - p) * s;
  }

  /** getNumOfDataSegmentsNeeded */
  function Segs(size: nat, s: nat): nat
    requires 1 <= s
  {
    (size + s - 1) / s
  }

  /** The segment count is the least one whose capacity holds the message. */
  lemma SegsIsCeiling(size: nat, s: nat)
    requires 1 <= s
    ensures size <= Offset(Segs(size, s), s)
    ensures size > 0 ==> 1 <= Segs(size, s) && Offset(Segs(size, s) - 1, s) < size
    ensures size == 0 ==> Segs(size, s) == 0
    ensures size < 0x1_0000 && 1024 <= s ==> Segs(size, s) <= 64
  {
    var k := Segs(size, s);
    assert size + s - 1 == k * s + (size + s - 1) % s;
    assert k >= 1 ==> k * s >= s && (k - 1) * s == k * s - s;
    assert k >= 65 ==> k * s >= 65 * s;
    assert k == 0 ==> k * s == 0;
  }

  /** `ws` with every word of [lo, hi) set to `v`. */
  function Fill(ws: seq<Word>, lo: nat, hi: nat, v: Word): (r: seq<Word>)
    ensures |r| == |ws|
    ensures forall i :: 0 <= i < |ws| ==> r[i] == if lo <= i < hi then v else ws[i]
  {
    seq(|ws|, i requires 0 <= i < |ws| => if lo <= i < hi then v else ws[i])
  }

  function Overwrite(ds: seq<Byte>, at: nat, msg: Message): (r: seq<Byte>)
    requires at + |msg| <= |ds|
    ensures |r| == |ds|
    ensures forall i :: 0 <= i < |ds| ==> r[i] == if at <= i < at + |msg| then msg[i - at] else ds[i]
  {
    ds[..at] + msg + ds[at + |msg|..]
  }

  function Concat(bufs: seq<Message>): Message {
    if bufs == [] then [] else bufs[0] + Concat(bufs[1..])
  }

  // ---------------------------------------------------------------- space check

  /** isThereEnoughMemoryInQueue, with its 8-bit and 16-bit conversions written out. */
  predicate SpaceCheck(n: nat, w: nat, r: nat, num: nat)
    requires w <= n
  {
    var num0 := num % 0x100;
    if num0 >= n then false
    else
      var num1 := if w + num0 > n then (num0 + n - w) % 0x100 else num0;
      var r1 := if w + num1 >= n then (r + n) % 0x1_0000 else r;
      w + num1 < r1 || w >= r1
  }

  /** Segment i belongs to the published region. */
  predicate Used(r: nat, w: nat, i: nat) {
    if r <= w then r <= i < w else r <= i || i < w
  }

  /** Segment i is written by a push of `num` segments at w: the skipped tail and the data run. */
  predicate Touched(n: nat, w: nat, num: nat, i: nat) {
    if w + num <= n then w <= i < w + num else w <= i < n || i < num
  }

  function NextWrite(n: nat, w: nat, num: nat): nat {
    var e := (if w + num > n then 0 else w) + (if num == 0 then 1 else num);
    if e >= n then 0 else e
  }

  /** What the check is for: nothing published is overwritten and one free segment is left over. */
  ghost predicate Admissible(n: nat, w: nat, r: nat, num: nat) {
    && num < n
    && (forall i :: 0 <= i < n && Touched(n, w, num, i) ==> !Used(r, w, i))
    && (exists i :: 0 <= i < n && !Touched(n, w, num, i) && !Used(r, w, i))
  }

  /** The region in which the comparison adds n to a read position that is already ahead. */
  predicate Overrun(n: nat, w: nat, r: nat, num: nat) {
    w < r && num < n && (w + num == n || (w + num > n && num < r))
  }

  // ---------------------------------------------------------------- operations

  datatype PushResult = PushResult(ring: Ring, code: int)
  datatype PeekResult = PeekResult(ring: Ring, code: int, pos: nat, size: Word)
  datatype PopResult = PopResult(ring: Ring, code: int)

  function PushBase(g: Ring, size: nat): nat
    requires 1 <= g.s
  {
    if g.writePos + Segs(size, g.s) > g.n then 0 else g.writePos
  }

  function PushWords(g: Ring, size: Word): seq<Word>
    requires 1 <= g.s
    requires PushBase(g, size) < |g.words|
  {
    var num := Segs(size, g.s);
    var base := PushBase(g, size);
    var skipped := if g.writePos + num > g.n then Fill(g.words, g.writePos, g.n, SKIP) else g.words;
    Fill(skipped[base := size], base + 1, base + num, SKIP)
  }

  /** The effect of an admitted push of `msg`. */
  function Written(g: Ring, msg: Message): Ring
    requires Sized(g)
    requires |msg| <= MAX_WRITE
    requires g.writePos < g.n
    requires Segs(|msg|, g.s) <= g.n
  {
    var num := Segs(|msg|, g.s);
    var base := PushBase(g, |msg|);
    SegsIsCeiling(|msg|, g.s);
    OffsetMonotone(base, base + num, g.s);
    OffsetMonotone(base + num, g.n, g.s);
    g.(words := PushWords(g, |msg|),
       data := Overwrite(g.data, Offset(base, g.s), msg),
       writePos := NextWrite(g.n, g.writePos, num))
  }

  /** pushBuffersToQueue */
  function Push(g: Ring, bufs: seq<Message>): (res: PushResult)
    requires Sized(g)
  {
    var msg := Concat(bufs);
    if !Readable(g) then PushResult(g, -1)
    else if |msg| > MAX_WRITE then PushResult(g, -2)
    else if !SpaceCheck(g.n, g.writePos, g.readPos, Segs(|msg|, g.s)) then PushResult(g, -3)
    else if g.writePos >= g.n then PushResult(g, -4)
    else
      SegsIsCeiling(|msg|, g.s);
      PushResult(Written(g, msg), 0)
  }

  /** The first position at or after p that does not hold a skip word, or n. */
  function SkipEnd(ws: seq<Word>, p: nat, n: nat): (e: nat)
    requires p <= n <= |ws|
    ensures p <= e <= n
    ensures forall i :: p <= i < e ==> ws[i] == SKIP
    ensures e < n ==> ws[e] != SKIP
    decreases n - p
  {
    if p < n && ws[p] == SKIP then SkipEnd(ws, p + 1, n) else p
  }

  /** peekToQueue; the result gives the segment the caller's pointer refers to. */
  function Peek(g: Ring): (res: PeekResult)
    requires Sized(g)
  {
    if !Readable(g) || g.readPos == g.writePos then PeekResult(g, -1, 0, 0)
    else if g.readPos >= g.n then PeekResult(g, -2, 0, 0)
    else
      var e := SkipEnd(g.words, g.readPos, g.n);
      var ws := Fill(g.words, g.readPos, e, EMPTY);
      var p := if e == g.n then 0 else e;
      PeekResult(g.(words := ws, readPos := p), 0, p, ws[p])
  }

  /**
   The 16-bit word a pop reads at the read position.  A pop lets readPos == n through; if the
   management segment has no word n, the two bytes read are the first ones of the data.
   */
  function HeadWord(g: Ring): Word
    requires Sized(g) && g.readPos <= g.n
  {
    if g.readPos < |g.words| then g.words[g.readPos]
    else
      OffsetMonotone(1, g.n, g.s);
      g.data[0] as int + 0x100 * g.data[1] as int
  }

  /** The words and the read position once `num` segments from r on, and a skip run behind them, are cleared. */
  function ClearedFrom(ws: seq<Word>, n: nat, r: nat, num: nat): (seq<Word>, nat)
    requires r <= n <= |ws| && num <= |ws|
  {
    var wraps := r + num > n;
    var p := if wraps then 0 else r;
    var ws1 := if wraps then Fill(ws, r, n, EMPTY) else ws;
    var e := p + num;
    var ws2 := Fill(ws1, p, e, EMPTY);
    if e < n && ws2[e] == SKIP then (Fill(ws2, e, n, EMPTY), 0)
    else (ws2, if e == n then 0 else e)
  }

  /** popFromQueue */
  function Pop(g: Ring): (res: PopResult)
    requires Sized(g)
  {
    if !Readable(g) || g.readPos == g.writePos then PopResult(g, -1)
    else
      SegsIsCeiling(HeadWord(g), g.s);
      var (ws, r) := ClearedFrom(g.words, g.n, g.readPos, Segs(HeadWord(g), g.s));
      PopResult(g.(words := ws, readPos := r), 0)
  }

  function Fresh(n: nat, s: nat, data: seq<Byte>): Ring
    requires 1 <= n
  {
    Ring(n, s, n, MemorySize(n, s), seq(s / 2, _ => EMPTY), data, 0, 0)
  }
}
