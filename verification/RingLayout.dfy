/**
 What a ring means.  The published region is a row of message cells, possibly with
 one run of skip words that reaches the end of the ring; every other word is EMPTY.
 */
module RingLayout {
  import opened Ring

  /** The messages before the wrap, the segment at which they end, and the messages after it. */
  datatype Layout = Layout(front: seq<Message>, mid: nat, back: seq<Message>)

  function Contents(l: Layout): seq<Message> {
    l.front + l.back
  }

  /** `msg` is stored at segment p: its size, then skip words, and its bytes from p on. */
  ghost predicate Cell(s: nat, ws: seq<Word>, ds: seq<Byte>, p: nat, msg: Message)
    requires 1 <= s
  {
    && 1 <= |msg| <= MAX_WRITE
    && 1 <= Segs(|msg|, s)
    && p + Segs(|msg|, s) <= |ws|
    && ws[p] == |msg|
    && (forall i :: p < i < p + Segs(|msg|, s) ==> ws[i] == SKIP)
    && Offset(p, s) + |msg| <= |ds|
    && ds[Offset(p, s)..Offset(p, s) + |msg|] == msg
  }

  /** The cells of `q` fill the segments [p, e) exactly. */
  ghost predicate Tiles(s: nat, ws: seq<Word>, ds: seq<Byte>, p: nat, e: nat, q: seq<Message>)
    requires 1 <= s
    decreases |q|
  {
    if q == [] then p == e
    else
      && Cell(s, ws, ds, p, q[0])
      && Tiles(s, ws, ds, p + Segs(|q[0]|, s), e, q[1..])
  }

  ghost predicate AllAre(ws: seq<Word>, lo: nat, hi: nat, v: Word)
    requires hi <= |ws|
  {
    forall i :: lo <= i < hi ==> ws[i] == v
  }

  /** The management-word invariant. */
  ghost predicate Represents(g: Ring, l: Layout) {
    && Shaped(g)
    && (if g.readPos <= g.writePos then
          && l.back == []
          && l.mid == g.writePos
          && Tiles(g.s, g.words, g.data, g.readPos, g.writePos, l.front)
          && AllAre(g.words, 0, g.readPos, EMPTY)
          && AllAre(g.words, g.writePos, g.n, EMPTY)
        else
          && g.readPos <= l.mid <= g.n
          && Tiles(g.s, g.words, g.data, g.readPos, l.mid, l.front)
          && AllAre(g.words, l.mid, g.n, SKIP)
          && Tiles(g.s, g.words, g.data, 0, g.writePos, l.back)
          && AllAre(g.words, g.writePos, g.readPos, EMPTY)
          && (l.mid < g.n ==> l.back != [] && g.n - l.mid < Segs(|l.back[0]|, g.s)))
  }

  ghost predicate Denotes(g: Ring, q: seq<Message>) {
    exists l :: Represents(g, l) && Contents(l) == q
  }

  // ---------------------------------------------------------------- tiles

  lemma {:induction false} TilesBounds(s: nat, ws: seq<Word>, ds: seq<Byte>, p: nat, e: nat, q: seq<Message>)
    requires 1 <= s && Tiles(s, ws, ds, p, e, q)
    ensures p <= e
    ensures q != [] ==> p < e <= |ws|
    ensures q == [] <==> p == e
    decreases |q|
  {
    if q != [] {
      TilesBounds(s, ws, ds, p + Segs(|q[0]|, s), e, q[1..]);
    }
  }

  /** Tiles depends only on the words and bytes of its own segments. */
  lemma {:induction false} TilesFrame(s: nat, ws: seq<Word>, ds: seq<Byte>, ws': seq<Word>, ds': seq<Byte>,
                                      p: nat, e: nat, q: seq<Message>)
    requires 1 <= s && Tiles(s, ws, ds, p, e, q)
    requires |ws'| == |ws| && |ds'| == |ds|
    requires forall i :: p <= i < e && i < |ws| ==> ws'[i] == ws[i]
    requires forall i :: Offset(p, s) <= i < Offset(e, s) && i < |ds| ==> ds'[i] == ds[i]
    ensures Tiles(s, ws', ds', p, e, q)
    decreases |q|
  {
    if q != [] {
      var num := Segs(|q[0]|, s);
      TilesBounds(s, ws, ds, p, e, q);
      TilesBounds(s, ws, ds, p + num, e, q[1..]);
      SegsIsCeiling(|q[0]|, s);
      OffsetMonotone(p, p + num, s);
      OffsetMonotone(p + num, e, s);
      var o := Offset(p, s);
      assert ds'[o..o + |q[0]|] == ds[o..o + |q[0]|];
      TilesFrame(s, ws, ds, ws', ds', p + num, e, q[1..]);
    }
  }

  lemma {:induction false} TilesAppend(s: nat, ws: seq<Word>, ds: seq<Byte>, p: nat, e: nat,
                                       q: seq<Message>, msg: Message)
    requires 1 <= s && Tiles(s, ws, ds, p, e, q)
    requires Cell(s, ws, ds, e, msg)
    ensures Tiles(s, ws, ds, p, e + Segs(|msg|, s), q + [msg])
    decreases |q|
  {
    if q == [] {
      assert q + [msg] == [msg];
      assert Tiles(s, ws, ds, e + Segs(|msg|, s), e + Segs(|msg|, s), [msg][1..]);
    } else {
      TilesAppend(s, ws, ds, p + Segs(|q[0]|, s), e, q[1..], msg);
      assert (q + [msg])[1..] == q[1..] + [msg];
    }
  }

  /** Inside a row of cells every word is a size or a skip word. */
  lemma {:induction false} TilesWords(s: nat, ws: seq<Word>, ds: seq<Byte>, p: nat, e: nat, q: seq<Message>)
    requires 1 <= s && Tiles(s, ws, ds, p, e, q)
    ensures forall i :: p <= i < e && i < |ws| ==> 1 <= ws[i] <= SKIP
    decreases |q|
  {
    if q != [] {
      TilesWords(s, ws, ds, p + Segs(|q[0]|, s), e, q[1..]);
    }
  }

  function TotalSegs(q: seq<Message>, s: nat): nat
    requires 1 <= s
  {
    if q == [] then 0 else Segs(|q[0]|, s) + TotalSegs(q[1..], s)
  }

  lemma {:induction false} TilesLength(s: nat, ws: seq<Word>, ds: seq<Byte>, p: nat, e: nat, q: seq<Message>)
    requires 1 <= s && Tiles(s, ws, ds, p, e, q)
    ensures e == p + TotalSegs(q, s)
    decreases |q|
  {
    if q != [] {
      TilesLength(s, ws, ds, p + Segs(|q[0]|, s), e, q[1..]);
    }
  }

  /** No size is a marker, so a row of cells can be read back in one way only. */
  lemma {:induction false} TilesUnique(s: nat, ws: seq<Word>, ds: seq<Byte>, p: nat, e: nat, e': nat, n: nat,
                                       q: seq<Message>, q': seq<Message>)
    requires 1 <= s && Tiles(s, ws, ds, p, e, q) && Tiles(s, ws, ds, p, e', q')
    requires e <= n && e' <= n <= |ws|
    requires e == e' || ((e < n ==> ws[e] >= SKIP) && (e' < n ==> ws[e'] >= SKIP))
    ensures q == q' && e == e'
    decreases |q|
  {
    TilesBounds(s, ws, ds, p, e, q);
    TilesBounds(s, ws, ds, p, e', q');
    if q != [] && q' != [] {
      assert q[0] == ds[Offset(p, s)..Offset(p, s) + |q[0]|] == q'[0];
      TilesUnique(s, ws, ds, p + Segs(|q[0]|, s), e, e', n, q[1..], q'[1..]);
      assert q == [q[0]] + q[1..] && q' == [q'[0]] + q'[1..];
    }
  }

  /** The published region parses uniquely: a ring denotes at most one queue. */
  lemma LayoutUnique(g: Ring, l: Layout, l': Layout)
    requires Represents(g, l) && Represents(g, l')
    ensures l == l'
  {
    if g.readPos <= g.writePos {
      TilesUnique(g.s, g.words, g.data, g.readPos, g.writePos, g.writePos, g.n, l.front, l'.front);
    } else {
      TilesUnique(g.s, g.words, g.data, g.readPos, l.mid, l'.mid, g.n, l.front, l'.front);
      TilesUnique(g.s, g.words, g.data, 0, g.writePos, g.writePos, g.n, l.back, l'.back);
    }
  }

  /** Every word of a ring that denotes a queue is a nonzero size or a marker. */
  lemma WordsAreNonzero(g: Ring, l: Layout)
    requires Represents(g, l)
    ensures forall i :: 0 <= i < g.n ==> g.words[i] != 0
  {
    TilesWords(g.s, g.words, g.data, g.readPos, l.mid, l.front);
    if g.readPos > g.writePos {
      TilesWords(g.s, g.words, g.data, 0, g.writePos, l.back);
    }
  }

  lemma EmptyIffPositionsMeet(g: Ring, l: Layout)
    requires Represents(g, l)
    ensures Contents(l) == [] <==> g.readPos == g.writePos
  {
  }

  lemma DenotesUnique(g: Ring, q: seq<Message>, q': seq<Message>)
    requires Denotes(g, q) && Denotes(g, q')
    ensures q == q'
  {
    var l :| Represents(g, l) && Contents(l) == q;
    var l' :| Represents(g, l') && Contents(l') == q';
    LayoutUnique(g, l, l');
  }
}
