/**
 The ring refines a FIFO of byte strings: exactly when the space check is right,
 what each operation does to the queue a ring denotes, and every run of them.
 */
module RingFifo {
  import opened Ring
  import opened RingLayout

  // ---------------------------------------------------------------- admission

  /** No count or position the check computes is cut to 8 or 16 bits. */
  lemma SpaceCheckDoesNotWrap(n: nat, w: nat, r: nat, num: nat)
    requires w <= n <= 2048 && r <= n && num <= 64
    ensures SpaceCheck(n, w, r, num) <==>
              && num < n
              && var num1 := if w + num > n then num + n - w else num;
                 var r1 := if w + num1 >= n then r + n else r;
                 w + num1 < r1 || w >= r1
  {
  }

  /** The check accepts exactly the admissible pushes, except in the overrun region, where it accepts and must not. */
  lemma AdmissionIsExact(n: nat, w: nat, r: nat, num: nat)
    requires w < n <= 2048 && r < n && 1 <= num <= 64
    ensures SpaceCheck(n, w, r, num) <==> Admissible(n, w, r, num) || Overrun(n, w, r, num)
    ensures !(Admissible(n, w, r, num) && Overrun(n, w, r, num))
    ensures (SpaceCheck(n, w, r, num) <==> Admissible(n, w, r, num)) <==> !Overrun(n, w, r, num)
  {
    SpaceCheckDoesNotWrap(n, w, r, num);
    if num < n {
      var spare := NextWrite(n, w, num);
      assert Used(r, w, r) <==> r != w;
      assert Touched(n, w, num, spare) || !Touched(n, w, num, spare);
      if w + num >= r { assert Touched(n, w, num, r) || !Touched(n, w, num, r); }
    }
  }

  /** Tight progress bound: an empty ring takes n segments at every position iff 2 * num <= n. */
  lemma EmptyRingAccepts(n: nat, num: nat)
    requires n <= 2048 && 1 <= num <= 64 && num < n
    ensures (forall p :: 0 <= p < n ==> SpaceCheck(n, p, p, num)) <==> 2 * num <= n
  {
    forall p | 0 <= p < n
      ensures SpaceCheck(n, p, p, num) <==> p + num <= n || num < p
    {
      SpaceCheckDoesNotWrap(n, p, p, num);
    }
    if 2 * num > n {
      assert !SpaceCheck(n, num, num, num);
    }
  }

  // ---------------------------------------------------------------- error codes

  /** The shared header agrees with what this process believes, and both positions lie in the ring. */
  ghost predicate HeaderAgrees(g: Ring) {
    && g.segments == g.n
    && g.memory == 82 + g.s + g.n * g.s
    && g.readPos <= g.n && g.writePos <= g.n
  }

  /** The limit admits exactly the sizes below the two markers. */
  lemma LimitIsBelowMarkers(size: nat)
    ensures size <= MAX_WRITE <==> size < 0xfffd
    ensures SKIP == 0xfffd && EMPTY == 0xfffe
  {
  }

  /** Which error a push returns, for every ring; an error changes nothing. */
  lemma PushErrors(g: Ring, bufs: seq<Message>)
    requires Sized(g)
    ensures var res := Push(g, bufs); var size := |Concat(bufs)|;
            && (res.code == -1 <==> !HeaderAgrees(g))
            && (res.code == -2 <==> HeaderAgrees(g) && size > 0xfffc)
            && (HeaderAgrees(g) && size <= 0xfffc ==>
                 if !SpaceCheck(g.n, g.writePos, g.readPos, Segs(size, g.s)) then res.code == -3
                 else if g.writePos == g.n then res.code == -4
                 else res.code == 0)
            && (res.code != 0 ==> res.ring == g)
  {
  }

  /** Which error a peek and a pop return; unlike a peek, a pop goes on at a read position equal to the ring size. */
  lemma ReadErrors(g: Ring)
    requires Sized(g)
    ensures var peek := Peek(g); var pop := Pop(g);
            && (peek.code == -1 <==> !HeaderAgrees(g) || g.readPos == g.writePos)
            && (peek.code == -2 <==> HeaderAgrees(g) && g.readPos != g.writePos && g.readPos == g.n)
            && (peek.code == 0 <==> HeaderAgrees(g) && g.readPos != g.writePos && g.readPos < g.n)
            && (peek.code != 0 ==> peek.ring == g)
            && (pop.code == -1 <==> !HeaderAgrees(g) || g.readPos == g.writePos)
            && (pop.code == 0 <==> HeaderAgrees(g) && g.readPos != g.writePos)
            && (pop.code != 0 ==> pop.ring == g)
  {
  }

  // ---------------------------------------------------------------- push

  function Appended(g: Ring, l: Layout, msg: Message): Layout
    requires 1 <= g.s
  {
    var num := Segs(|msg|, g.s);
    if g.readPos > g.writePos then l.(back := l.back + [msg])
    else if g.writePos + num > g.n then Layout(l.front, g.writePos, [msg])
    else Layout(l.front + [msg], g.writePos + num, [])
  }

  /** The new message is a cell, and no word or byte outside its own segments changed. */
  lemma WrittenCell(g: Ring, msg: Message)
    requires Sized(g) && g.writePos < g.n
    requires 1 <= |msg| <= MAX_WRITE
    requires Segs(|msg|, g.s) <= g.n
    requires g.writePos + Segs(|msg|, g.s) > g.n ==> Segs(|msg|, g.s) <= g.writePos
    ensures var h := Written(g, msg);
            var base := PushBase(g, |msg|);
            && Sized(h)
            && Cell(g.s, h.words, h.data, base, msg)
            && (forall i :: 0 <= i < g.n && !Touched(g.n, g.writePos, Segs(|msg|, g.s), i) ==> h.words[i] == g.words[i])
            && (g.writePos + Segs(|msg|, g.s) > g.n ==> AllAre(h.words, g.writePos, g.n, SKIP))
            && (forall i :: 0 <= i < |g.data| && !(Offset(base, g.s) <= i < Offset(base + Segs(|msg|, g.s), g.s))
                  ==> h.data[i] == g.data[i])
  {
    var num := Segs(|msg|, g.s);
    var base := PushBase(g, |msg|);
    SegsIsCeiling(|msg|, g.s);
    OffsetMonotone(base, base + num, g.s);
    OffsetMonotone(base + num, g.n, g.s);
    var h := Written(g, msg);
    var o := Offset(base, g.s);
    assert h.data[o..o + |msg|] == msg;
  }

  /** Tiles over segments that the push does not touch survive it. */
  lemma TilesSurvivePush(g: Ring, msg: Message, p: nat, e: nat, q: seq<Message>)
    requires Sized(g) && g.writePos < g.n
    requires 1 <= |msg| <= MAX_WRITE
    requires Segs(|msg|, g.s) <= g.n
    requires g.writePos + Segs(|msg|, g.s) > g.n ==> Segs(|msg|, g.s) <= g.writePos
    requires p <= e <= g.n && Tiles(g.s, g.words, g.data, p, e, q)
    requires forall i :: p <= i < e ==> !Touched(g.n, g.writePos, Segs(|msg|, g.s), i)
    ensures Tiles(g.s, Written(g, msg).words, Written(g, msg).data, p, e, q)
  {
    var num := Segs(|msg|, g.s);
    var base := PushBase(g, |msg|);
    WrittenCell(g, msg);
    if p < e {
      assert !Touched(g.n, g.writePos, num, p);
      assert !Touched(g.n, g.writePos, num, e - 1);
      assert p <= base < e ==> !Touched(g.n, g.writePos, num, base);
      if e <= base {
        OffsetMonotone(e, base, g.s);
      } else {
        OffsetMonotone(base + num, p, g.s);
      }
    }
    TilesFrame(g.s, g.words, g.data, Written(g, msg).words, Written(g, msg).data, p, e, q);
  }

  /** h differs from g only in what a push may change. */
  ghost predicate SameShape(g: Ring, h: Ring) {
    h == g.(words := h.words, data := h.data, writePos := h.writePos) && |h.words| == |g.words| && |h.data| == |g.data|
  }

  lemma BehindReader(g: Ring, l: Layout, h: Ring, back: seq<Message>)
    requires Represents(g, l) && SameShape(g, h)
    requires g.writePos <= h.writePos < g.readPos
    requires forall i :: 0 <= i < g.n && !(g.writePos <= i < h.writePos) ==> h.words[i] == g.words[i]
    requires Tiles(g.s, h.words, h.data, g.readPos, l.mid, l.front)
    requires Tiles(g.s, h.words, h.data, 0, h.writePos, l.back + back)
    ensures Represents(h, l.(back := l.back + back))
  {
  }

  lemma PushBehindReader(g: Ring, l: Layout, msg: Message)
    requires Represents(g, l) && 1 <= |msg| <= MAX_WRITE
    requires g.readPos > g.writePos && g.writePos + Segs(|msg|, g.s) < g.readPos
    ensures Represents(Written(g, msg), l.(back := l.back + [msg]))
  {
    WrittenCell(g, msg);
    var h := Written(g, msg);
    TilesBounds(g.s, g.words, g.data, g.readPos, l.mid, l.front);
    TilesSurvivePush(g, msg, g.readPos, l.mid, l.front);
    TilesSurvivePush(g, msg, 0, g.writePos, l.back);
    TilesAppend(g.s, h.words, h.data, 0, g.writePos, l.back, msg);
    BehindReader(g, l, h, [msg]);
  }

  lemma OverTheEnd(g: Ring, l: Layout, h: Ring, back: seq<Message>)
    requires Represents(g, l) && SameShape(g, h)
    requires h.writePos < g.readPos <= g.writePos && back != [] && g.n - g.writePos < Segs(|back[0]|, g.s)
    requires forall i :: h.writePos <= i < g.readPos ==> h.words[i] == g.words[i]
    requires AllAre(h.words, g.writePos, g.n, SKIP)
    requires Tiles(g.s, h.words, h.data, g.readPos, g.writePos, l.front)
    requires Tiles(g.s, h.words, h.data, 0, h.writePos, back)
    ensures Represents(h, Layout(l.front, g.writePos, back))
  {
  }

  lemma PushOverTheEnd(g: Ring, l: Layout, msg: Message)
    requires Represents(g, l) && 1 <= |msg| <= MAX_WRITE
    requires g.readPos <= g.writePos
    requires g.writePos + Segs(|msg|, g.s) > g.n && Segs(|msg|, g.s) < g.readPos
    ensures Represents(Written(g, msg), Layout(l.front, g.writePos, [msg]))
  {
    WrittenCell(g, msg);
    var h := Written(g, msg);
    TilesSurvivePush(g, msg, g.readPos, g.writePos, l.front);
    assert Tiles(g.s, h.words, h.data, 0, 0, []);
    TilesAppend(g.s, h.words, h.data, 0, 0, [], msg);
    assert [] + [msg] == [msg];
    OverTheEnd(g, l, h, [msg]);
  }

  lemma InPlace(g: Ring, l: Layout, h: Ring, front: seq<Message>, end: nat)
    requires Represents(g, l) && SameShape(g, h)
    requires g.readPos <= g.writePos < end <= g.n && (end == g.n ==> g.readPos > 0)
    requires h.writePos == if end == g.n then 0 else end
    requires forall i :: 0 <= i < g.n && !(g.writePos <= i < end) ==> h.words[i] == g.words[i]
    requires Tiles(g.s, h.words, h.data, g.readPos, end, front)
    ensures Represents(h, Layout(front, end, []))
  {
    if end == g.n {
      assert Tiles(g.s, h.words, h.data, 0, 0, []);
    }
  }

  lemma PushInPlace(g: Ring, l: Layout, msg: Message)
    requires Represents(g, l) && 1 <= |msg| <= MAX_WRITE
    requires g.readPos <= g.writePos
    requires g.writePos + Segs(|msg|, g.s) <= g.n
    requires g.writePos + Segs(|msg|, g.s) == g.n ==> g.readPos > 0
    ensures Represents(Written(g, msg), Layout(l.front + [msg], g.writePos + Segs(|msg|, g.s), []))
  {
    WrittenCell(g, msg);
    var h := Written(g, msg);
    TilesSurvivePush(g, msg, g.readPos, g.writePos, l.front);
    TilesAppend(g.s, h.words, h.data, g.readPos, g.writePos, l.front, msg);
    InPlace(g, l, h, l.front + [msg], g.writePos + Segs(|msg|, g.s));
  }

  /** An admissible push appends its message and keeps the management-word invariant. */
  lemma PushAppends(g: Ring, l: Layout, msg: Message)
    requires Represents(g, l)
    requires 1 <= |msg| <= MAX_WRITE
    requires Admissible(g.n, g.writePos, g.readPos, Segs(|msg|, g.s))
    ensures Represents(Written(g, msg), Appended(g, l, msg))
    ensures Contents(Appended(g, l, msg)) == Contents(l) + [msg]
  {
    var num := Segs(|msg|, g.s);
    SegsIsCeiling(|msg|, g.s);
    AdmissionCases(g.n, g.writePos, g.readPos, num);
    if g.readPos > g.writePos {
      PushBehindReader(g, l, msg);
    } else if g.writePos + num > g.n {
      PushOverTheEnd(g, l, msg);
    } else {
      PushInPlace(g, l, msg);
    }
  }

  lemma AdmissionCases(n: nat, w: nat, r: nat, num: nat)
    requires w < n && r < n && 1 <= num && Admissible(n, w, r, num)
    ensures if r > w then w + num < r
            else w + num < n || (w + num == n && r > 0) || (w + num > n && num < r)
  {
  }

  /** Accepted in the overrun region, the push buries the head under skip words. */
  lemma OverrunLosesTheQueue(g: Ring, l: Layout, msg: Message, l': Layout)
    requires Represents(g, l) && 1 <= |msg| <= MAX_WRITE
    requires Overrun(g.n, g.writePos, g.readPos, Segs(|msg|, g.s))
    requires Represents(Written(g, msg), l')
    ensures |Contents(l')| < |Contents(l) + [msg]|
  {
    var h := Written(g, msg);
    EmptyIffPositionsMeet(g, l);
    SegsIsCeiling(|msg|, g.s);
    assert h.words[g.readPos] == SKIP;
    assert l'.front == [];
    TilesBounds(g.s, h.words, h.data, 0, h.writePos, l'.back);
    if l'.back != [] {
      assert h.words[0] == |msg|;
      TilesBounds(g.s, h.words, h.data, Segs(|l'.back[0]|, g.s), h.writePos, l'.back[1..]);
    }
  }

  /** A push of no bytes leaves a zero at the write position. */
  lemma ZeroPushWritesZero(g: Ring)
    requires Shaped(g)
    ensures Segs(0, g.s) == 0
    ensures Written(g, []).words[g.writePos] == 0
    ensures Written(g, []).n == g.n
  {
    SegsIsCeiling(0, g.s);
    assert PushBase(g, 0) == g.writePos;
  }

  /** It is accepted by every ring, full or not, and takes one slot: a word, no bytes, and the next write position. */
  lemma ZeroPushTakesASlot(g: Ring, bufs: seq<Message>)
    requires Shaped(g) && Concat(bufs) == []
    ensures Push(g, bufs).code == 0
    ensures Push(g, bufs).ring ==
              g.(words := g.words[g.writePos := 0], writePos := if g.writePos + 1 == g.n then 0 else g.writePos + 1)
  {
    ZeroPushWritesZero(g);
    SpaceCheckDoesNotWrap(g.n, g.writePos, g.readPos, 0);
    assert Overwrite(g.data, Offset(g.writePos, g.s), []) == g.data;
    assert PushWords(g, 0) == g.words[g.writePos := 0];
  }

  /** So the published region holds a word that belongs to no message. */
  lemma ZeroPushBreaksTheLayout(g: Ring, l: Layout)
    requires Shaped(g)
    ensures Segs(0, g.s) == 0
    ensures !Represents(Written(g, []), l)
  {
    ZeroPushWritesZero(g);
    var h := Written(g, []);
    if Represents(h, l) {
      WordsAreNonzero(h, l);
    }
  }

  /**
   Push against the FIFO, for every ring that denotes a queue: a refusal changes nothing, and an
   accepted push appends exactly when it carries a byte and its segments lie outside the overrun region.
   */
  lemma PushIsFifoIff(g: Ring, l: Layout, bufs: seq<Message>)
    requires Represents(g, l)
    ensures var res := Push(g, bufs);
            var msg := Concat(bufs);
            var num := Segs(|msg|, g.s);
            && (res.code != 0 ==> res.ring == g)
            && (res.code == 0 <==>
                 && |msg| <= MAX_WRITE
                 && (|| num == 0
                     || Admissible(g.n, g.writePos, g.readPos, num)
                     || Overrun(g.n, g.writePos, g.readPos, num)))
            && (res.code == 0 ==>
                 (Denotes(res.ring, Contents(l) + [msg]) <==>
                   |msg| > 0 && !Overrun(g.n, g.writePos, g.readPos, num)))
  {
    var msg := Concat(bufs);
    var num := Segs(|msg|, g.s);
    if |msg| <= MAX_WRITE {
      SegsIsCeiling(|msg|, g.s);
      if num == 0 {
        SpaceCheckDoesNotWrap(g.n, g.writePos, g.readPos, 0);
        forall l' ensures !Represents(Written(g, []), l') { ZeroPushBreaksTheLayout(g, l'); }
      } else {
        AdmissionIsExact(g.n, g.writePos, g.readPos, num);
        if Overrun(g.n, g.writePos, g.readPos, num) {
          forall l' | Represents(Written(g, msg), l') ensures Contents(l') != Contents(l) + [msg] {
            OverrunLosesTheQueue(g, l, msg, l');
          }
        } else if Admissible(g.n, g.writePos, g.readPos, num) {
          PushAppends(g, l, msg);
        }
      }
    }
  }

  // ---------------------------------------------------------------- peek and pop

  function Peeked(g: Ring, l: Layout): Layout {
    if g.readPos > g.writePos && l.front == [] then Layout(l.back, g.writePos, []) else l
  }

  /** A skip word stands at the read position exactly when the head message is at segment 0 behind a skip run. */
  lemma SkipAtHeadIff(g: Ring, l: Layout)
    requires Represents(g, l)
    ensures g.words[g.readPos] == SKIP <==> g.readPos > g.writePos && l.front == []
    ensures g.words[g.readPos] == SKIP ==> SkipEnd(g.words, g.readPos, g.n) == g.n
    ensures g.words[g.readPos] == SKIP ==> l.back != [] && g.n - g.readPos < Segs(|l.back[0]|, g.s)
  {
  }

  /** Peek returns the head's size and bytes, changes no content, and answers the same when repeated. */
  lemma PeekShowsHead(g: Ring, l: Layout)
    requires Represents(g, l)
    ensures var res := Peek(g);
            && (Contents(l) == [] ==> res.code == -1 && res.ring == g)
            && (Contents(l) != [] ==>
                 && res.code == 0
                 && Represents(res.ring, Peeked(g, l))
                 && Contents(Peeked(g, l)) == Contents(l)
                 && res.ring.words[res.ring.readPos] != SKIP
                 && res.size == |Contents(l)[0]|
                 && Offset(res.pos, g.s) + res.size <= |g.data|
                 && g.data[Offset(res.pos, g.s)..Offset(res.pos, g.s) + res.size] == Contents(l)[0]
                 && Peek(res.ring) == res)
  {
    EmptyIffPositionsMeet(g, l);
    if Contents(l) != [] {
      SkipAtHeadIff(g, l);
      var h := Peek(g).ring;
      if g.words[g.readPos] == SKIP {
        TilesFrame(g.s, g.words, g.data, h.words, h.data, 0, g.writePos, l.back);
        assert Contents(Peeked(g, l)) == l.back;
      } else {
        assert h.words == g.words;
      }
      assert Fill(h.words, h.readPos, h.readPos, EMPTY) == h.words;
    }
  }

  function Popped(g: Ring, l: Layout): Layout
    requires l.front != []
  {
    if g.readPos > g.writePos && l.front[1..] == [] then Layout(l.back, g.writePos, [])
    else l.(front := l.front[1..])
  }

  /** The ring once the words from the read position up to `at` are cleared and the reader stands behind them. */
  function AfterPop(q: Ring, at: nat): Ring {
    q.(words := Fill(q.words, q.readPos, at, EMPTY), readPos := if at == q.n then 0 else at)
  }

  lemma PopEndInPlace(q: Ring, l: Layout, at: nat)
    requires Represents(q, l) && l.front != [] && at == q.readPos + Segs(|l.front[0]|, q.s)
    requires at < q.n
    ensures Represents(AfterPop(q, at), l.(front := l.front[1..]))
    ensures forall i :: 0 <= i < q.n && Used(at, q.writePos, i) ==> Used(q.readPos, q.writePos, i)
  {
    var h := AfterPop(q, at);
    TilesBounds(q.s, q.words, q.data, at, l.mid, l.front[1..]);
    TilesFrame(q.s, q.words, q.data, h.words, q.data, at, l.mid, l.front[1..]);
    if q.readPos > q.writePos {
      TilesFrame(q.s, q.words, q.data, h.words, q.data, 0, q.writePos, l.back);
    }
    MovedReader(q, l, h, l.front[1..]);
  }

  lemma MovedReader(q: Ring, l: Layout, h: Ring, front: seq<Message>)
    requires Represents(q, l)
    requires h == q.(words := h.words, readPos := h.readPos) && |h.words| == |q.words|
    requires q.readPos <= h.readPos <= l.mid && h.readPos < q.n
    requires forall i :: 0 <= i < q.n ==> h.words[i] == if q.readPos <= i < h.readPos then EMPTY else q.words[i]
    requires Tiles(q.s, h.words, q.data, h.readPos, l.mid, front)
    requires q.readPos > q.writePos ==> Tiles(q.s, h.words, q.data, 0, q.writePos, l.back)
    ensures Represents(h, l.(front := front))
  {
  }

  lemma PopEndAtTheEnd(q: Ring, l: Layout)
    requires Represents(q, l) && |l.front| == 1 && q.readPos > q.writePos
    ensures Represents(AfterPop(q, q.n), Layout(l.back, q.writePos, []))
  {
    TilesFrame(q.s, q.words, q.data, AfterPop(q, q.n).words, q.data, 0, q.writePos, l.back);
  }

  /** Where a pop of the head at the front ends: behind a skip run if one follows. */
  lemma PopEnds(g: Ring, l: Layout) returns (at: nat)
    requires Represents(g, l) && l.front != []
    ensures var end := g.readPos + Segs(|l.front[0]|, g.s);
            at == if end < g.n && g.words[end] == SKIP then g.n else end
    ensures Pop(g) == PopResult(AfterPop(g, at), 0)
    ensures if at == g.n then |l.front| == 1 && Popped(g, l) == Layout(l.back, g.writePos, []) && g.readPos > g.writePos
            else at < g.n && at == g.readPos + Segs(|l.front[0]|, g.s) && Popped(g, l) == l.(front := l.front[1..])
  {
    var end := g.readPos + Segs(|l.front[0]|, g.s);
    TilesBounds(g.s, g.words, g.data, end, l.mid, l.front[1..]);
    at := if end < g.n && g.words[end] == SKIP then g.n else end;
    assert Pop(g).ring.words == AfterPop(g, at).words;
  }

  lemma PopFront(g: Ring, l: Layout)
    requires Represents(g, l) && l.front != []
    ensures Pop(g).code == 0 && Represents(Pop(g).ring, Popped(g, l))
  {
    var at := PopEnds(g, l);
    if at < g.n {
      PopEndInPlace(g, l, at);
    } else {
      PopEndAtTheEnd(g, l);
    }
  }

  /** A pop after a peek removes exactly the head. */
  lemma PopDropsHead(g: Ring, l: Layout)
    requires Represents(g, l) && g.words[g.readPos] != SKIP
    ensures Contents(l) == [] ==> Pop(g) == PopResult(g, -1)
    ensures Contents(l) != [] ==>
              && Pop(g).code == 0
              && l.front != []
              && Represents(Pop(g).ring, Popped(g, l))
              && Contents(Popped(g, l)) == Contents(l)[1..]
  {
    EmptyIffPositionsMeet(g, l);
    SkipAtHeadIff(g, l);
    if Contents(l) != [] {
      PopFront(g, l);
    }
  }

  /** The number of segments pop believes a skip word to stand for. */
  function SkipSegs(s: nat): nat
    requires 1 <= s
  {
    Segs(SKIP, s)
  }

  lemma SegsMonotone(a: nat, b: nat, s: nat)
    requires 1 <= s && a <= b
    ensures Segs(a, s) <= Segs(b, s)
  {
    SegsIsCeiling(a, s);
    SegsIsCeiling(b, s);
    if Segs(a, s) > Segs(b, s) {
      OffsetMonotone(Segs(b, s), Segs(a, s) - 1, s);
    }
  }

  /** At an unpeeked skip run, pop clears the run and then the first SkipSegs words of the ring. */
  lemma UnpeekedPopCleans(g: Ring, l: Layout)
    requires Represents(g, l) && g.words[g.readPos] == SKIP
    ensures var h := Pop(g).ring; var k := SkipSegs(g.s);
            && Pop(g).code == 0
            && h.readPos in {0, k}
            && h.writePos == g.writePos > 0
            && h.n == g.n && h.s == g.s && h.data == g.data
            && h.words[0] == EMPTY && h.words[g.n - 1] == EMPTY
  {
    SkipAtHeadIff(g, l);
    EmptyIffPositionsMeet(g, l);
    SegsMonotone(|l.back[0]|, SKIP, g.s);
    SegsIsCeiling(SKIP, g.s);
  }

  lemma UnpeekedPopEqualsPeekedPop(g: Ring, l: Layout)
    requires Represents(g, l) && g.words[g.readPos] == SKIP
    requires l.back != [] && Segs(|l.back[0]|, g.s) == SkipSegs(g.s)
    ensures Pop(g) == Pop(Peek(g).ring)
  {
    SkipAtHeadIff(g, l);
    EmptyIffPositionsMeet(g, l);
    var h := Peek(g).ring;
    assert h.words[0] == g.words[0] == |l.back[0]|;
    TilesBounds(g.s, g.words, g.data, Segs(|l.back[0]|, g.s), g.writePos, l.back[1..]);
  }

  /** A ring whose head was cleared along with SkipSegs words does not hold the rest of the queue. */
  lemma ClearedMissesHead(g: Ring, l: Layout, h: Ring, l': Layout)
    requires Represents(g, l) && g.readPos > g.writePos && l.front == []
    requires l.back != [] && Segs(|l.back[0]|, g.s) != SkipSegs(g.s)
    requires Represents(h, l') && h.readPos in {0, SkipSegs(g.s)} && h.writePos == g.writePos > 0
    requires h.n == g.n && h.s == g.s && h.words[0] == EMPTY && h.words[g.n - 1] == EMPTY
    ensures Contents(l') != Contents(l)[1..]
  {
    TilesWords(g.s, h.words, h.data, h.readPos, l'.mid, l'.front);
    TilesBounds(g.s, h.words, h.data, h.readPos, l'.mid, l'.front);
    assert h.readPos != 0;
    assert h.readPos <= h.writePos;
    TilesLength(g.s, h.words, h.data, h.readPos, h.writePos, l'.front);
    TilesLength(g.s, g.words, g.data, 0, g.writePos, l.back);
    assert Contents(l') == l'.front && Contents(l)[1..] == l.back[1..];
  }

  lemma UnpeekedPopMissesHead(g: Ring, l: Layout, l': Layout)
    requires Represents(g, l) && g.words[g.readPos] == SKIP
    requires l.back != [] && Segs(|l.back[0]|, g.s) != SkipSegs(g.s)
    requires Represents(Pop(g).ring, l')
    ensures Contents(l') != Contents(l)[1..]
  {
    UnpeekedPopCleans(g, l);
    SkipAtHeadIff(g, l);
    ClearedMissesHead(g, l, Pop(g).ring, l');
  }

  /** Pop against the FIFO: it removes exactly the head iff the head was peeked or is as long as a skip word reads. */
  lemma PopIsFifoIff(g: Ring, l: Layout)
    requires Represents(g, l) && Contents(l) != []
    ensures Pop(g).code == 0
    ensures Denotes(Pop(g).ring, Contents(l)[1..]) <==>
              g.words[g.readPos] != SKIP || Segs(|Contents(l)[0]|, g.s) == SkipSegs(g.s)
  {
    SkipAtHeadIff(g, l);
    if g.words[g.readPos] != SKIP {
      PopDropsHead(g, l);
    } else {
      UnpeekedPopCleans(g, l);
      assert Contents(l) == l.back;
      if Segs(|l.back[0]|, g.s) == SkipSegs(g.s) {
        UnpeekedPopEqualsPeekedPop(g, l);
        PeekShowsHead(g, l);
        PopDropsHead(Peek(g).ring, Peeked(g, l));
      } else {
        forall l' | Represents(Pop(g).ring, l') ensures Contents(l') != Contents(l)[1..] {
          UnpeekedPopMissesHead(g, l, l');
        }
      }
    }
  }

  /** A message of no bytes at the head is reported popped for ever and never leaves. */
  lemma ZeroHeadIsNeverPopped(g: Ring)
    requires Sized(g) && Readable(g) && g.readPos < g.n && g.readPos != g.writePos
    requires g.words[g.readPos] == 0
    ensures Pop(g) == PopResult(g, 0)
  {
    SegsIsCeiling(0, g.s);
    assert Fill(g.words, g.readPos, g.readPos, EMPTY) == g.words;
  }

  // ---------------------------------------------------------------- runs

  datatype Op = PushOp(bufs: seq<Message>) | PeekOp | PopOp

  /** What a caller sees: the return code and, for a peek, the bytes pointed to. */
  datatype Obs = Obs(code: int, shown: Message)

  /** The bytes at the read position, as many as its word says. */
  function Shown(g: Ring): Message {
    var o := Offset(g.readPos, g.s);
    if g.readPos < |g.words| && o + g.words[g.readPos] <= |g.data| then g.data[o..o + g.words[g.readPos]] else []
  }

  function Apply(g: Ring, op: Op): (Ring, Obs)
    requires Shaped(g)
  {
    match op
    case PushOp(bufs) => var res := Push(g, bufs); (res.ring, Obs(res.code, []))
    case PopOp => var res := Pop(g); (res.ring, Obs(res.code, []))
    case PeekOp => var res := Peek(g); (res.ring, Obs(res.code, if res.code == 0 then Shown(res.ring) else []))
  }

  /** The callers' side of the contract, all of it visible before the call. */
  predicate Allowed(g: Ring, op: Op)
    requires 1 <= g.s && g.readPos < |g.words|
  {
    match op
    case PushOp(bufs) =>
      && Concat(bufs) != []
      && !Overrun(g.n, g.writePos, g.readPos, Segs(|Concat(bufs)|, g.s))
    case PeekOp => true
    case PopOp => g.words[g.readPos] != SKIP
  }

  /** One call: the geometry and the positions it found, the operation, and what the caller saw. */
  datatype Event = Event(n: nat, s: nat, readPos: nat, writePos: nat, op: Op, obs: Obs)

  function Seen(g: Ring, op: Op, obs: Obs): Event {
    Event(g.n, g.s, g.readPos, g.writePos, op, obs)
  }

  /**
   One step of a bounded FIFO of byte strings.  A push is refused with -2 iff it is over the write limit and
   with -3 iff there is no room for it; nothing else is refused.
   */
  ghost predicate FifoStep(q: seq<Message>, e: Event, q': seq<Message>) {
    match e.op
    case PushOp(bufs) =>
      var msg := Concat(bufs);
      && 1 <= e.s
      && if |msg| > 0xfffc then e.obs.code == -2 && q' == q
         else if Admissible(e.n, e.writePos, e.readPos, Segs(|msg|, e.s)) then
           e.obs.code == 0 && q' == q + [msg]
         else e.obs.code == -3 && q' == q
    case PeekOp => q' == q && (if q == [] then e.obs.code == -1 else e.obs == Obs(0, q[0]))
    case PopOp => if q == [] then e.obs.code == -1 && q' == q else e.obs.code == 0 && q' == q[1..]
  }

  function Call(g: Ring, op: Op): Event
    requires Shaped(g)
  {
    Seen(g, op, Apply(g, op).1)
  }

  lemma PushRefinesFifo(g: Ring, l: Layout, bufs: seq<Message>) returns (l': Layout)
    requires Represents(g, l) && Allowed(g, PushOp(bufs))
    ensures Represents(Push(g, bufs).ring, l')
    ensures FifoStep(Contents(l), Call(g, PushOp(bufs)), Contents(l'))
  {
    PushIsFifoIff(g, l, bufs);
    var msg := Concat(bufs);
    if |msg| <= MAX_WRITE {
      SegsIsCeiling(|msg|, g.s);
      AdmissionIsExact(g.n, g.writePos, g.readPos, Segs(|msg|, g.s));
    }
    if Push(g, bufs).code == 0 {
      l' :| Represents(Push(g, bufs).ring, l') && Contents(l') == Contents(l) + [msg];
    } else {
      l' := l;
    }
  }

  lemma PeekRefinesFifo(g: Ring, l: Layout)
    requires Represents(g, l)
    ensures var l' := if Contents(l) == [] then l else Peeked(g, l);
            Represents(Peek(g).ring, l') && FifoStep(Contents(l), Call(g, PeekOp), Contents(l'))
  {
    PeekShowsHead(g, l);
  }

  lemma PopRefinesFifo(g: Ring, l: Layout) returns (l': Layout)
    requires Represents(g, l) && g.words[g.readPos] != SKIP
    ensures Represents(Pop(g).ring, l') && FifoStep(Contents(l), Call(g, PopOp), Contents(l'))
  {
    PopDropsHead(g, l);
    l' := if Contents(l) == [] then l else Popped(g, l);
  }

  lemma StepRefinesFifo(g: Ring, l: Layout, op: Op) returns (l': Layout)
    requires Represents(g, l) && Allowed(g, op)
    ensures Represents(Apply(g, op).0, l')
    ensures FifoStep(Contents(l), Call(g, op), Contents(l'))
  {
    match op
    case PushOp(bufs) =>
      l' := PushRefinesFifo(g, l, bufs);
    case PeekOp =>
      PeekRefinesFifo(g, l);
      l' := if Contents(l) == [] then l else Peeked(g, l);
    case PopOp =>
      l' := PopRefinesFifo(g, l);
  }

  /** `trace` is a run of allowed operations that takes ring g to ring h. */
  ghost predicate RingRun(g: Ring, trace: seq<Event>, h: Ring)
    decreases |trace|
  {
    if trace == [] then h == g
    else
      && Shaped(g)
      && Allowed(g, trace[0].op)
      && trace[0] == Call(g, trace[0].op)
      && RingRun(Apply(g, trace[0].op).0, trace[1..], h)
  }

  ghost predicate FifoRun(q: seq<Message>, trace: seq<Event>, q': seq<Message>)
    decreases |trace|
  {
    if trace == [] then q' == q
    else exists q1 :: FifoStep(q, trace[0], q1) && FifoRun(q1, trace[1..], q')
  }

  lemma FifoRunCons(q: seq<Message>, trace: seq<Event>, q1: seq<Message>, q': seq<Message>)
    requires trace != [] && FifoStep(q, trace[0], q1) && FifoRun(q1, trace[1..], q')
    ensures FifoRun(q, trace, q')
  {
  }

  lemma {:induction false} FifoRunSnoc(q: seq<Message>, trace: seq<Event>, q1: seq<Message>, e: Event, q': seq<Message>)
    requires FifoRun(q, trace, q1) && FifoStep(q1, e, q')
    ensures FifoRun(q, trace + [e], q')
    decreases |trace|
  {
    if trace == [] {
      assert FifoRun(q', (trace + [e])[1..], q');
      FifoRunCons(q, trace + [e], q', q');
    } else {
      var q2 :| FifoStep(q, trace[0], q2) && FifoRun(q2, trace[1..], q1);
      FifoRunSnoc(q2, trace[1..], q1, e, q');
      assert (trace + [e])[1..] == trace[1..] + [e];
      FifoRunCons(q, trace + [e], q2, q');
    }
  }

  lemma FirstEvent(g: Ring, l: Layout, trace: seq<Event>, h: Ring) returns (g1: Ring, l1: Layout)
    requires Represents(g, l) && RingRun(g, trace, h) && trace != []
    ensures Represents(g1, l1) && RingRun(g1, trace[1..], h)
    ensures FifoStep(Contents(l), trace[0], Contents(l1))
  {
    g1 := Apply(g, trace[0].op).0;
    l1 := StepRefinesFifo(g, l, trace[0].op);
  }

  /** Over every run, everything the callers see is what a bounded FIFO would have shown them. */
  lemma {:induction false} RunRefinesFifo(g: Ring, l: Layout, trace: seq<Event>, h: Ring) returns (q: seq<Message>)
    requires Represents(g, l) && RingRun(g, trace, h)
    ensures FifoRun(Contents(l), trace, q)
    ensures Denotes(h, q)
    decreases |trace|
  {
    if trace == [] {
      q := Contents(l);
    } else {
      var g1, l1 := FirstEvent(g, l, trace, h);
      q := RunRefinesFifo(g1, l1, trace[1..], h);
      FifoRunCons(Contents(l), trace, Contents(l1), q);
    }
  }

  lemma FreshIsEmpty(n: nat, s: nat, data: seq<Byte>)
    requires 1 <= n && 1024 <= s <= 4096 && 2 * n <= s && |data| == Offset(n, s)
    ensures Represents(Fresh(n, s, data), Layout([], 0, []))
  {
  }

  lemma ConcatOne(m: Message)
    ensures Concat([m]) == m
  {
  }

  lemma RunCons(g: Ring, op: Op, rest: seq<Event>, h: Ring) returns (trace: seq<Event>)
    requires Shaped(g) && Allowed(g, op)
    requires RingRun(Apply(g, op).0, rest, h)
    ensures RingRun(g, trace, h)
  {
    trace := [Call(g, op)] + rest;
    assert trace[1..] == rest;
  }

  lemma PushOneAppends(g: Ring, l: Layout, msg: Message)
    requires Represents(g, l) && 1 <= |msg| <= MAX_WRITE
    requires Admissible(g.n, g.writePos, g.readPos, Segs(|msg|, g.s))
    ensures Allowed(g, PushOp([msg]))
    ensures Apply(g, PushOp([msg])).0 == Push(g, [msg]).ring == Written(g, msg)
    ensures Represents(Written(g, msg), Appended(g, l, msg))
  {
    ConcatOne(msg);
    SegsIsCeiling(|msg|, g.s);
    AdmissionIsExact(g.n, g.writePos, g.readPos, Segs(|msg|, g.s));
    PushAppends(g, l, msg);
  }

  function Zeros(k: nat): (m: Message)
    ensures |m| == k
  {
    seq(k, _ => 0)
  }

  lemma PopOnlyMessage(g: Ring, msg: Message)
    requires Represents(g, Layout([msg], g.writePos, [])) && g.readPos <= g.writePos
    ensures Allowed(g, PopOp)
    ensures Apply(g, PopOp).0.readPos == Apply(g, PopOp).0.writePos == g.writePos
    ensures Represents(Apply(g, PopOp).0, Layout([], g.writePos, []))
  {
    SkipAtHeadIff(g, Layout([msg], g.writePos, []));
    PopDropsHead(g, Layout([msg], g.writePos, []));
    EmptyIffPositionsMeet(Apply(g, PopOp).0, Layout([], g.writePos, []));
  }

  /** Three segments in and out: reader and writer meet at segment 3 of 4. */
  lemma AtThree(data: seq<Byte>) returns (g1: Ring, g: Ring)
    requires |data| == Offset(4, 1024)
    ensures var g0 := Fresh(4, 1024, data);
            && Shaped(g0) && Allowed(g0, PushOp([Zeros(2049)])) && g1 == Apply(g0, PushOp([Zeros(2049)])).0
            && Shaped(g1) && Allowed(g1, PopOp) && g == Apply(g1, PopOp).0
    ensures Represents(g, Layout([], 3, []))
    ensures g.n == 4 && g.s == 1024 && g.writePos == 3 && g.readPos == 3
  {
    var big := Zeros(2049);
    var g0 := Fresh(4, 1024, data);
    FreshIsEmpty(4, 1024, data);
    assert !Touched(4, 0, 3, 3);
    PushOneAppends(g0, Layout([], 0, []), big);
    assert [] + [big] == [big];
    g1 := Written(g0, big);
    PopOnlyMessage(g1, big);
    g := Pop(g1).ring;
  }

  lemma RunFromThree(data: seq<Byte>, rest: seq<Event>, h: Ring, g1: Ring, g: Ring) returns (trace: seq<Event>)
    requires |data| == Offset(4, 1024)
    requires var g0 := Fresh(4, 1024, data);
             && Shaped(g0) && Allowed(g0, PushOp([Zeros(2049)])) && g1 == Apply(g0, PushOp([Zeros(2049)])).0
             && Shaped(g1) && Allowed(g1, PopOp) && g == Apply(g1, PopOp).0
    requires RingRun(g, rest, h)
    ensures RingRun(Fresh(4, 1024, data), trace, h)
  {
    trace := RunCons(g1, PopOp, rest, h);
    trace := RunCons(Fresh(4, 1024, data), PushOp([Zeros(2049)]), trace, h);
  }

  /** Then two messages of one segment: the writer is at 1 and the reader at 3. */
  lemma WrappedRun(data: seq<Byte>) returns (g: Ring, trace: seq<Event>)
    requires |data| == Offset(4, 1024)
    ensures RingRun(Fresh(4, 1024, data), trace, g)
    ensures Represents(g, Layout([Zeros(1)], 4, [Zeros(1)]))
    ensures g.n == 4 && g.s == 1024 && g.writePos == 1 && g.readPos == 3
  {
    var one := Zeros(1);
    var g1, g2 := AtThree(data);
    assert !Touched(4, 3, 1, 0);
    PushOneAppends(g2, Layout([], 3, []), one);
    assert [] + [one] == [one];
    var g3 := Written(g2, one);
    assert !Touched(4, 0, 1, 1);
    PushOneAppends(g3, Layout([one], 4, []), one);
    g := Written(g3, one);
    trace := RunCons(g3, PushOp([one]), [], g);
    trace := RunCons(g2, PushOp([one]), trace, g);
    trace := RunFromThree(data, trace, g, g1, g2);
  }

  /**
   A run of allowed operations on a ring of four segments, three messages in and one out, after which
   the space check accepts a push that loses both messages still queued.
   */
  lemma OverrunIsReachable(data: seq<Byte>) returns (g: Ring, trace: seq<Event>)
    requires |data| == Offset(4, 1024)
    ensures RingRun(Fresh(4, 1024, data), trace, g)
    ensures Denotes(g, [Zeros(1), Zeros(1)])
    ensures Push(g, [Zeros(2049)]).code == 0
    ensures !Denotes(Push(g, [Zeros(2049)]).ring, [Zeros(1), Zeros(1)] + [Zeros(2049)])
  {
    g, trace := WrappedRun(data);
    var l := Layout([Zeros(1)], 4, [Zeros(1)]);
    assert Contents(l) == [Zeros(1), Zeros(1)];
    ConcatOne(Zeros(2049));
    PushIsFifoIff(g, l, [Zeros(2049)]);
  }

  /**
   A run of allowed operations on a ring of four segments after which a message of two segments is queued
   behind a skip word, and a pop without a peek does not remove it.
   */
  lemma UnpeekedPopIsReachable(data: seq<Byte>) returns (g: Ring, trace: seq<Event>)
    requires |data| == Offset(4, 1024)
    ensures RingRun(Fresh(4, 1024, data), trace, g)
    ensures Denotes(g, [Zeros(1025)])
    ensures Pop(g).code == 0 && !Denotes(Pop(g).ring, [])
  {
    var two := Zeros(1025);
    var g1, g2 := AtThree(data);
    assert !Touched(4, 3, 2, 2);
    PushOneAppends(g2, Layout([], 3, []), two);
    g := Written(g2, two);
    trace := RunCons(g2, PushOp([two]), [], g);
    trace := RunFromThree(data, trace, g, g1, g2);
    var l := Layout([], 3, [two]);
    assert Contents(l) == [two];
    SkipAtHeadIff(g, l);
    PopIsFifoIff(g, l);
    assert Contents(l)[1..] == [];
  }
}
