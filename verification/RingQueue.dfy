/**
 The ring queue as the C code runs it: loops over a management array and a data
 array that two processes map.  Each method is proved equal to its closed form in
 Ring, for every ring including a corrupted one, and through RingFifo to the FIFO law.
 */
module RingQueue {
  import opened Ring
  import opened RingLayout
  import opened RingFifo

  lemma {:induction false} ConcatSnoc(bufs: seq<Message>, k: nat)
    requires k < |bufs|
    ensures Concat(bufs[..k + 1]) == Concat(bufs[..k]) + bufs[k]
  {
    if k == 0 {
      assert bufs[..1] == [bufs[0]];
      ConcatOne(bufs[0]);
    } else {
      ConcatSnoc(bufs[1..], k - 1);
      assert bufs[..k + 1][1..] == bufs[1..][..k];
      assert bufs[..k][1..] == bufs[1..][..k - 1];
    }
  }

  lemma {:induction false} ConcatPrefix(bufs: seq<Message>, k: nat)
    requires k <= |bufs|
    ensures Concat(bufs[..k]) <= Concat(bufs)
    decreases |bufs| - k
  {
    if k == |bufs| {
      assert bufs[..k] == bufs;
    } else {
      ConcatSnoc(bufs, k);
      ConcatPrefix(bufs, k + 1);
    }
  }

  lemma OverwriteOn(ds: seq<Byte>, at: nat, a: Message, b: Message)
    requires at + |a| + |b| <= |ds|
    ensures Overwrite(Overwrite(ds, at, a), at + |a|, b) == Overwrite(ds, at, a + b)
  {
  }

  lemma PushDenotes(g: Ring, bufs: seq<Message>)
    requires Sized(g)
    ensures forall q :: Denotes(g, q) && Concat(bufs) != []
              && !Overrun(g.n, g.writePos, g.readPos, Segs(|Concat(bufs)|, g.s))
              ==> Denotes(Push(g, bufs).ring, if Push(g, bufs).code == 0 then q + [Concat(bufs)] else q)
  {
    forall l | Represents(g, l) { PushIsFifoIff(g, l, bufs); }
  }

  /** What a peek owes to the caller of a ring that denotes q. */
  ghost predicate PeekMeets(g: Ring, q: seq<Message>)
    requires Sized(g)
  {
    var res := Peek(g);
    && Denotes(res.ring, q)
    && (res.code == 0 <==> q != [])
    && (res.code == 0 ==>
         && res.size == |q[0]|
         && Offset(res.pos, g.s) + res.size <= |g.data|
         && g.data[Offset(res.pos, g.s)..Offset(res.pos, g.s) + res.size] == q[0])
  }

  lemma PeekDenotes(g: Ring)
    requires Sized(g)
    ensures forall q :: Denotes(g, q) ==> PeekMeets(g, q)
  {
    forall l | Represents(g, l) { PeekShowsHead(g, l); }
  }

  lemma PopDenotes(g: Ring)
    requires Sized(g)
    ensures forall q :: Denotes(g, q) && g.words[g.readPos] != SKIP ==>
              && (Pop(g).code == 0 <==> q != [])
              && Denotes(Pop(g).ring, if Pop(g).code == 0 then q[1..] else q)
  {
    forall l | Represents(g, l) && g.words[g.readPos] != SKIP { PopDropsHead(g, l); }
  }

  class RingQueue {
    const n: nat
    const s: nat
    var segments: nat
    var memory: int
    const words: array<Word>
    const data: array<Byte>
    var readPos: nat
    var writePos: nat

    ghost function State(): Ring
      reads this, words, data
    {
      Ring(n, s, segments, memory, words[..], data[..], readPos, writePos)
    }

    /** The owner's side of createSharedRingQueue, once the memory is mapped. */
    constructor (n: nat, s: nat)
      requires 1 <= n && 1024 <= s <= 4096 && 2 * n <= s
      ensures this.n == n && this.s == s && fresh(words) && fresh(data)
      ensures Represents(State(), Layout([], 0, []))
    {
      this.n, this.s := n, s;
      segments, memory := n, MemorySize(n, s);
      readPos, writePos := 0, 0;
      var mgmt := new Word[s / 2](_ => 0);
      words := mgmt;
      data := new Byte[Offset(n, s)](_ => 0);
      new;
      var idx := 0;
      while idx < n
        invariant 0 <= idx <= n
        invariant forall i :: 0 <= i < idx ==> words[i] == EMPTY
        invariant segments == n && memory == MemorySize(n, s) && readPos == 0 && writePos == 0
      {
        words[idx] := EMPTY;
        idx := idx + 1;
      }
    }

    method FillWords(lo: nat, hi: nat, v: Word)
      requires lo <= hi <= words.Length
      modifies words
      ensures words[..] == Fill(old(words[..]), lo, hi, v)
    {
      var i := lo;
      while i < hi
        invariant lo <= i <= hi
        invariant words[..] == Fill(old(words[..]), lo, i, v)
      {
        words[i] := v;
        i := i + 1;
      }
    }

    /** The size loop of pushBuffersToQueue, which gives up at the first partial sum over the limit. */
    method TotalSize(bufs: seq<Message>) returns (ok: bool, total: nat)
      ensures ok <==> |Concat(bufs)| <= MAX_WRITE
      ensures ok ==> total == |Concat(bufs)|
    {
      total := 0;
      var idx := 0;
      while idx < |bufs|
        invariant 0 <= idx <= |bufs|
        invariant total == |Concat(bufs[..idx])| <= MAX_WRITE
      {
        ConcatSnoc(bufs, idx);
        ConcatPrefix(bufs, idx + 1);
        total := total + |bufs[idx]|;
        if total > MAX_WRITE {
          return false, total;
        }
        idx := idx + 1;
      }
      assert bufs[..|bufs|] == bufs;
      return true, total;
    }

    /** memcpy */
    method CopyOne(buf: Message, at: nat)
      requires at + |buf| <= data.Length
      modifies data
      ensures data[..] == Overwrite(old(data[..]), at, buf)
    {
      forall j | 0 <= j < |buf| {
        data[at + j] := buf[j];
      }
    }

    /** The copy loop of pushBuffersToQueue: one memcpy for each buffer, one behind the other. */
    method CopyBuffers(bufs: seq<Message>, at: nat)
      requires at + |Concat(bufs)| <= data.Length
      modifies data
      ensures data[..] == Overwrite(old(data[..]), at, Concat(bufs))
    {
      ghost var ds := data[..];
      var pos := at;
      var idx := 0;
      assert Overwrite(ds, at, []) == ds;
      while idx < |bufs|
        invariant 0 <= idx <= |bufs|
        invariant Concat(bufs[..idx]) <= Concat(bufs)
        invariant pos == at + |Concat(bufs[..idx])|
        invariant data[..] == Overwrite(ds, at, Concat(bufs[..idx]))
      {
        ConcatSnoc(bufs, idx);
        ConcatPrefix(bufs, idx + 1);
        OverwriteOn(ds, at, Concat(bufs[..idx]), bufs[idx]);
        CopyOne(bufs[idx], pos);
        pos := pos + |bufs[idx]|;
        idx := idx + 1;
      }
      assert bufs[..|bufs|] == bufs;
    }

    /** The part of pushBuffersToQueue after the checks. */
    method WriteMessage(bufs: seq<Message>, total: Word)
      requires Sized(State()) && writePos < n
      requires total == |Concat(bufs)| <= MAX_WRITE && Segs(total, s) <= n
      modifies this`writePos, words, data
      ensures State() == Written(old(State()), Concat(bufs))
    {
      ghost var g := State();
      var num := Segs(total, s);
      SegsIsCeiling(total, s);
      var w := writePos;
      if w + num > n {
        FillWords(w, n, SKIP);
        w := 0;
      }
      words[w] := total;
      OffsetMonotone(w, w + num, s);
      OffsetMonotone(w + num, n, s);
      CopyBuffers(bufs, Offset(w, s));
      w := w + 1;
      var end := w + num - 1;
      if w < end {
        FillWords(w, end, SKIP);
        w := end;
      }
      assert words[..] == PushWords(g, total);
      if w >= n {
        w := 0;
      }
      writePos := w;
    }

    method PushBuffers(bufs: seq<Message>) returns (code: int)
      requires Sized(State())
      modifies this`writePos, words, data
      ensures PushResult(State(), code) == Push(old(State()), bufs)
      ensures forall q :: old(Denotes(State(), q)) && Concat(bufs) != []
                && !Overrun(n, old(writePos), readPos, Segs(|Concat(bufs)|, s))
                ==> Denotes(State(), if code == 0 then q + [Concat(bufs)] else q)
    {
      PushDenotes(State(), bufs);
      if !(n != 0 && segments == n && memory == MemorySize(n, s) && readPos <= n && writePos <= n) {
        return -1;
      }
      var ok, total := TotalSize(bufs);
      if !ok {
        return -2;
      }
      var num := Segs(total, s);
      SegsIsCeiling(total, s);
      if !SpaceCheck(n, writePos, readPos, num) {
        return -3;
      }
      if writePos >= n {
        return -4;
      }
      WriteMessage(bufs, total);
      return 0;
    }

    method PeekHead() returns (code: int, pos: nat, size: Word)
      requires Sized(State())
      modifies this`readPos, words
      ensures PeekResult(State(), code, pos, size) == Peek(old(State()))
      ensures forall q :: old(Denotes(State(), q)) ==> old(PeekMeets(State(), q))
    {
      ghost var g := State();
      PeekDenotes(g);
      if !(n != 0 && segments == n && memory == MemorySize(n, s) && readPos <= n && writePos <= n) {
        return -1, 0, 0;
      }
      if readPos == writePos {
        return -1, 0, 0;
      }
      if readPos >= n {
        return -2, 0, 0;
      }
      var r := ClearSkips();
      if r == n {
        r := 0;
      }
      pos, size := r, words[r];
      readPos := r;
      code := 0;
    }

    /** The skip loop of peekToQueue. */
    method ClearSkips() returns (r: nat)
      requires readPos <= n <= words.Length
      modifies words
      ensures r == SkipEnd(old(words[..]), readPos, n)
      ensures words[..] == Fill(old(words[..]), readPos, r, EMPTY)
    {
      r := readPos;
      ghost var ws := words[..];
      while r < n && words[r] == SKIP
        invariant readPos <= r <= n
        invariant SkipEnd(ws, r, n) == SkipEnd(ws, readPos, n)
        invariant words[..] == Fill(ws, readPos, r, EMPTY)
      {
        words[r] := EMPTY;
        r := r + 1;
      }
    }

    /** The word popFromQueue takes for the head's size. */
    method HeadSize() returns (size: Word)
      requires Sized(State()) && readPos <= n
      ensures size == HeadWord(State())
    {
      OffsetMonotone(1, n, s);
      size := if readPos < words.Length then words[readPos] else data[0] as int + 0x100 * data[1] as int;
    }

    /** The clearing loops of popFromQueue for a head of `num` segments; r is where the reader ends up. */
    method ClearHead(num: nat) returns (r: nat)
      requires readPos <= n <= words.Length && num <= words.Length
      modifies words
      ensures (words[..], r) == ClearedFrom(old(words[..]), n, readPos, num)
    {
      r := readPos;
      if r + num > n {
        FillWords(r, n, EMPTY);
        r := 0;
      }
      var end := r + num;
      FillWords(r, end, EMPTY);
      r := end;
      if r < n && words[r] == SKIP {
        FillWords(r, n, EMPTY);
        r := n;
      }
      if r == n {
        r := 0;
      }
    }

    method PopHead() returns (code: int)
      requires Sized(State())
      modifies this`readPos, words
      ensures PopResult(State(), code) == Pop(old(State()))
      ensures forall q :: old(Denotes(State(), q) && words[readPos] != SKIP) ==>
                && (code == 0 <==> q != [])
                && Denotes(State(), if code == 0 then q[1..] else q)
    {
      PopDenotes(State());
      if !(n != 0 && segments == n && memory == MemorySize(n, s) && readPos <= n && writePos <= n) {
        return -1;
      }
      if readPos == writePos {
        return -1;
      }
      var size := HeadSize();
      SegsIsCeiling(size, s);
      readPos := ClearHead(Segs(size, s));
      return 0;
    }
  }
}
