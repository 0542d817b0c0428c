/**
 nano_header_sender and nano_body_sender: headers in bulks of ten through a reused
 fragment array, body chunks one by one under an 8-bit index.
 */
module Batching {

  const BULK: nat := 10
  const PREFIX: nat := 4
  const PER_HEADER: nat := 4

  datatype Header = Header(key: string, value: string)

  datatype Fragment =
    | Unset
    | DataType | RequestId | LastPart(flag: bool) | PartIndex(index: nat)
    | KeySize(size: nat) | KeyData(text: string) | ValSize(size: nat) | ValData(text: string)

  // ---------------------------------------------------------------- what should be sent

  function HeaderFragments(h: Header): seq<Fragment> {
    [KeySize(|h.key|), KeyData(h.key), ValSize(|h.value|), ValData(h.value)]
  }

  function BodyFragments(hs: seq<Header>): (fs: seq<Fragment>)
    ensures |fs| == PER_HEADER * |hs|
  {
    if hs == [] then [] else BodyFragments(hs[..|hs| - 1]) + HeaderFragments(hs[|hs| - 1])
  }

  function Encode(hs: seq<Header>, last: bool, index: nat): seq<Fragment> {
    [DataType, RequestId, LastPart(last), PartIndex(index)] + BodyFragments(hs)
  }

  function Bulks(k: nat): nat {
    (k + BULK - 1) / BULK
  }

  /** The headers of bulk i. */
  function Chunk(hs: seq<Header>, i: nat): seq<Header>
    requires BULK * i <= |hs|
  {
    hs[BULK * i..if BULK * i + BULK <= |hs| then BULK * i + BULK else |hs|]
  }

  /** The i-th message for a list of headers; the part index is one byte wide. */
  function Bulk(hs: seq<Header>, i: nat): seq<Fragment>
    requires BULK * i <= |hs|
  {
    Encode(Chunk(hs, i), i + 1 == Bulks(|hs|), i % 256)
  }

  // ---------------------------------------------------------------- the sender

  /** The slots behind the prefix hold exactly these headers; what lies behind them is not looked at. */
  ghost predicate Holds(fragments: array<Fragment>, hs: seq<Header>)
    reads fragments
  {
    && fragments.Length == PREFIX + PER_HEADER * BULK
    && |hs| <= BULK
    && fragments[PREFIX..PREFIX + PER_HEADER * |hs|] == BodyFragments(hs)
  }

  /** add_header_to_bulk */
  method AddHeader(fragments: array<Fragment>, h: Header, index: nat, ghost hs: seq<Header>)
    requires Holds(fragments, hs) && index == |hs| < BULK
    modifies fragments
    ensures Holds(fragments, hs + [h])
  {
    var at := PREFIX + PER_HEADER * index;
    fragments[at] := KeySize(|h.key|);
    fragments[at + 1] := KeyData(h.key);
    fragments[at + 2] := ValSize(|h.value|);
    fragments[at + 3] := ValData(h.value);
    assert (hs + [h])[..|hs|] == hs;
    assert fragments[PREFIX..at] == old(fragments[PREFIX..at]);
    assert fragments[at..at + PER_HEADER] == HeaderFragments(h);
    assert fragments[PREFIX..at + PER_HEADER] == fragments[PREFIX..at] + fragments[at..at + PER_HEADER];
  }

  /** The same, for header `index` of the whole list in a bulk that starts at `start`. */
  method AddNext(fragments: array<Fragment>, hs: seq<Header>, index: nat, slot: nat, ghost start: nat)
    requires start + slot == index < |hs| && slot < BULK
    requires Holds(fragments, hs[start..index])
    modifies fragments
    ensures Holds(fragments, hs[start..index + 1])
  {
    AddHeader(fragments, hs[index], slot, hs[start..index]);
    assert hs[start..index] + [hs[index]] == hs[start..index + 1];
  }

  /** send_header_bulk: the first 4 * count + 4 slots, once the identifiers are set. */
  method TakeBulk(fragments: array<Fragment>, count: nat, last: bool, index: nat, ghost hs: seq<Header>)
    returns (bulk: seq<Fragment>)
    requires Holds(fragments, hs) && count == |hs|
    modifies fragments
    ensures bulk == Encode(hs, last, index % 256)
  {
    fragments[0] := DataType;
    fragments[1] := RequestId;
    fragments[2] := LastPart(last);
    fragments[3] := PartIndex(index % 256);
    bulk := fragments[..PREFIX + PER_HEADER * count];
    assert bulk[PREFIX..] == old(fragments[PREFIX..PREFIX + PER_HEADER * count]);
  }

  lemma ChunkEnds(k: nat, i: nat, slot: nat)
    requires slot <= BULK && BULK * i + slot <= k && 1 <= slot
    requires slot == BULK || BULK * i + slot == k
    ensures i + 1 == Bulks(k) <==> BULK * i + slot == k
    ensures i < Bulks(k)
    ensures BULK * i + slot == if BULK * i + BULK <= k then BULK * i + BULK else k
  {
  }

  ghost predicate Sent(hs: seq<Header>, accepted: nat -> bool, sent: seq<seq<Fragment>>) {
    forall i :: 0 <= i < |sent| ==> accepted(i) && BULK * i <= |hs| && sent[i] == Bulk(hs, i)
  }

  lemma SentSnoc(hs: seq<Header>, accepted: nat -> bool, sent: seq<seq<Fragment>>)
    requires Sent(hs, accepted, sent) && accepted(|sent|) && BULK * |sent| <= |hs|
    ensures Sent(hs, accepted, sent + [Bulk(hs, |sent|)])
  {
  }

  /** What has gone out reads back as a prefix of the headers, and as all of them once every bulk is out. */
  lemma SentDecodes(hs: seq<Header>, sent: seq<seq<Fragment>>)
    requires |sent| <= Bulks(|hs|) && forall i :: 0 <= i < |sent| ==> BULK * i <= |hs| && sent[i] == Bulk(hs, i)
    ensures DecodeFirst(sent, |sent|) <= hs
    ensures DecodeFirst(sent, |sent|) == hs <==> |sent| == Bulks(|hs|)
  {
    DecodedIsPrefix(hs, sent, |sent|);
  }

  /** A full or final bulk: the headers [start, end) as message number `index`. */
  method MakeBulk(fragments: array<Fragment>, hs: seq<Header>, slot: nat, last: bool, index: nat,
                  ghost start: nat, ghost end: nat)
    returns (bulk: seq<Fragment>)
    requires start == BULK * index && end == start + slot <= |hs| && 1 <= slot <= BULK
    requires last <==> end == |hs|
    requires last || slot == BULK
    requires Holds(fragments, hs[start..end])
    modifies fragments
    ensures index < Bulks(|hs|) && (last <==> index + 1 == Bulks(|hs|))
    ensures bulk == Bulk(hs, index)
  {
    ChunkEnds(|hs|, index, slot);
    bulk := TakeBulk(fragments, slot, last, index, hs[start..end]);
  }

  /** The loop of nano_header_sender. */
  method SendBulks(hs: seq<Header>, accepted: nat -> bool)
    returns (ok: bool, sent: seq<seq<Fragment>>, counted: nat)
    ensures |sent| <= Bulks(|hs|)
    ensures forall i :: 0 <= i < |sent| ==> BULK * i <= |hs| && sent[i] == Bulk(hs, i)
    ensures ok <==> forall i :: 0 <= i < Bulks(|hs|) ==> accepted(i)
    ensures ok ==> |sent| == Bulks(|hs|) == counted
    ensures !ok ==> |sent| < Bulks(|hs|) && !accepted(|sent|) && counted == 0
  {
    var fragments := new Fragment[PREFIX + PER_HEADER * BULK](_ => Unset);
    sent := [];
    var index, slot := 0, 0;
    ghost var start := 0;
    while index < |hs|
      invariant 0 <= index <= |hs|
      invariant |sent| <= Bulks(|hs|)
      invariant index == |hs| ==> |sent| == Bulks(|hs|)
      invariant index < |hs| ==> start == BULK * |sent| && index == start + slot && slot < BULK
      invariant index < |hs| ==> Holds(fragments, hs[start..index])
      invariant Sent(hs, accepted, sent)
    {
      var last := index == |hs| - 1;
      AddNext(fragments, hs, index, slot, start);
      slot := slot + 1;
      index := index + 1;
      if slot < BULK && !last {
        continue;
      }
      var bulk := MakeBulk(fragments, hs, slot, last, |sent|, start, index);
      if !accepted(|sent|) {
        return false, sent, 0;
      }
      SentSnoc(hs, accepted, sent);
      sent := sent + [bulk];
      slot := 0;
      start := index;
      assert hs[start..index] == [];
    }
    return true, sent, |sent|;
  }

  /**
   `accepted(i)` is whether the i-th send succeeds.  On success every bulk went out, in order, and nothing
   left over in the fragment array went with it; on failure only the bulks before the refused one did.
   */
  method SendHeaders(hs: seq<Header>, accepted: nat -> bool)
    returns (ok: bool, sent: seq<seq<Fragment>>, counted: nat)
    ensures |sent| <= Bulks(|hs|)
    ensures forall i :: 0 <= i < |sent| ==> BULK * i <= |hs| && sent[i] == Bulk(hs, i)
    ensures ok <==> forall i :: 0 <= i < Bulks(|hs|) ==> accepted(i)
    ensures ok ==> |sent| == Bulks(|hs|) == counted
    ensures !ok ==> |sent| < Bulks(|hs|) && !accepted(|sent|) && counted == 0
    ensures DecodeFirst(sent, |sent|) <= hs
    ensures ok <==> DecodeFirst(sent, |sent|) == hs
  {
    ok, sent, counted := SendBulks(hs, accepted);
    SentDecodes(hs, sent);
  }

  // ---------------------------------------------------------------- what the receiver gets

  /** What goes over the ring: numbers and characters one behind the other, with no mark where a text ends. */
  datatype Unit = Number(n: nat) | Char(c: char)

  function Chars(text: string): (us: seq<Unit>)
    ensures |us| == |text| && forall i :: 0 <= i < |text| ==> us[i] == Char(text[i])
  {
    seq(|text|, i requires 0 <= i < |text| => Char(text[i]))
  }

  function Wire(f: Fragment): seq<Unit> {
    match f
    case KeySize(size) => [Number(size)]
    case ValSize(size) => [Number(size)]
    case KeyData(text) => Chars(text)
    case ValData(text) => Chars(text)
    case _ => []
  }

  function Flat(fs: seq<Fragment>): seq<Unit> {
    if fs == [] then [] else Flat(fs[..|fs| - 1]) + Wire(fs[|fs| - 1])
  }

  /** A number in front, and as many characters behind it. */
  predicate HasText(us: seq<Unit>) {
    us != [] && us[0].Number? && us[0].n < |us| && forall i :: 1 <= i <= us[0].n ==> us[i].Char?
  }

  function Text(us: seq<Unit>): (text: string)
    requires HasText(us)
    ensures |text| == us[0].n && forall i :: 0 <= i < |text| ==> text[i] == us[1 + i].c
  {
    seq(us[0].n, i requires 0 <= i < us[0].n => us[1 + i].c)
  }

  function Rest(us: seq<Unit>): seq<Unit>
    requires HasText(us)
  {
    us[1 + us[0].n..]
  }

  /** Headers as a receiver finds them, going by the sizes alone. */
  function Parse(us: seq<Unit>): seq<Header>
    decreases |us|
  {
    if !HasText(us) || !HasText(Rest(us)) then []
    else [Header(Text(us), Text(Rest(us)))] + Parse(Rest(Rest(us)))
  }

  /** The headers of a message: what stands behind its four identifiers. */
  function Decode(fs: seq<Fragment>): seq<Header> {
    if |fs| < PREFIX then [] else Parse(Flat(fs[PREFIX..]))
  }

  function Announced(text: string): seq<Unit> {
    [Number(|text|)] + Chars(text)
  }

  lemma AnnouncedUnits(text: string, rest: seq<Unit>)
    ensures var us := Announced(text) + rest;
            |us| == 1 + |text| + |rest| && us[0] == Number(|text|) && us[1 + |text|..] == rest
            && forall i :: 1 <= i <= |text| ==> us[i] == Char(text[i - 1])
  {
    var us := Announced(text) + rest;
    assert forall i :: 1 <= i <= |text| ==> us[i] == Chars(text)[i - 1];
  }

  lemma CutText(text: string, rest: seq<Unit>)
    ensures var us := Announced(text) + rest;
            HasText(us) && Text(us) == text && Rest(us) == rest
  {
    AnnouncedUnits(text, rest);
  }

  lemma Associative<T>(a: seq<T>, b: seq<T>, c: seq<T>)
    ensures a + (b + c) == (a + b) + c
  {
  }

  lemma ParseHeader(h: Header, rest: seq<Unit>)
    ensures Parse(Announced(h.key) + Announced(h.value) + rest) == [h] + Parse(rest)
  {
    Associative(Announced(h.key), Announced(h.value), rest);
    CutText(h.key, Announced(h.value) + rest);
    CutText(h.value, rest);
  }

  lemma FlatSnoc(fs: seq<Fragment>, f: Fragment)
    ensures Flat(fs + [f]) == Flat(fs) + Wire(f)
  {
    assert (fs + [f])[..|fs|] == fs;
  }

  lemma FlatTwo(fs: seq<Fragment>, f: Fragment, g: Fragment)
    ensures Flat(fs + [f, g]) == Flat(fs) + (Wire(f) + Wire(g))
  {
    FlatSnoc(fs, f);
    FlatSnoc(fs + [f], g);
    Associative(fs, [f], [g]);
    Associative(Flat(fs), Wire(f), Wire(g));
    assert [f] + [g] == [f, g];
  }

  lemma FlatHeader(fs: seq<Fragment>, h: Header)
    ensures Flat(fs + HeaderFragments(h)) == Flat(fs) + (Announced(h.key) + Announced(h.value))
  {
    var key, val := [KeySize(|h.key|), KeyData(h.key)], [ValSize(|h.value|), ValData(h.value)];
    FlatTwo(fs, key[0], key[1]);
    FlatTwo(fs + key, val[0], val[1]);
    assert HeaderFragments(h) == key + val;
    Associative(fs, key, val);
    Associative(Flat(fs), Announced(h.key), Announced(h.value));
  }

  lemma BodySplits(hs: seq<Header>, rest: seq<Unit>)
    requires hs != []
    ensures var h := hs[|hs| - 1];
            Flat(BodyFragments(hs)) + rest ==
            Flat(BodyFragments(hs[..|hs| - 1])) + (Announced(h.key) + Announced(h.value) + rest)
  {
    var h := hs[|hs| - 1];
    FlatHeader(BodyFragments(hs[..|hs| - 1]), h);
    Associative(Flat(BodyFragments(hs[..|hs| - 1])), Announced(h.key) + Announced(h.value), rest);
  }

  lemma LastHeader(hs: seq<Header>, more: seq<Header>)
    requires hs != []
    ensures hs[..|hs| - 1] + ([hs[|hs| - 1]] + more) == hs + more
  {
  }

  lemma {:induction false} ParseBody(hs: seq<Header>, rest: seq<Unit>)
    ensures Parse(Flat(BodyFragments(hs)) + rest) == hs + Parse(rest)
    decreases |hs|
  {
    if hs == [] {
      assert Flat(BodyFragments(hs)) + rest == rest;
    } else {
      var h := hs[|hs| - 1];
      BodySplits(hs, rest);
      ParseBody(hs[..|hs| - 1], Announced(h.key) + Announced(h.value) + rest);
      ParseHeader(h, rest);
      LastHeader(hs, Parse(rest));
    }
  }

  /** A bulk can be read back by its size fields. */
  lemma DecodeEncode(hs: seq<Header>, last: bool, index: nat)
    ensures Decode(Encode(hs, last, index)) == hs
  {
    var fs := Encode(hs, last, index);
    assert fs[PREFIX..] == BodyFragments(hs);
    ParseBody(hs, []);
    assert Flat(BodyFragments(hs)) + [] == Flat(BodyFragments(hs));
    assert Parse([]) == [];
  }

  /** The headers read back from the first k messages, in order. */
  function DecodeFirst(sent: seq<seq<Fragment>>, k: nat): seq<Header>
    requires k <= |sent|
  {
    Joined(seq(|sent|, i requires 0 <= i < |sent| => Decode(sent[i])), k)
  }

  function Joined(parts: seq<seq<Header>>, k: nat): seq<Header>
    requires k <= |parts|
  {
    if k == 0 then [] else Joined(parts, k - 1) + parts[k - 1]
  }

  /** How many headers the first k messages carry. */
  function Upto(count: nat, k: nat): (e: nat)
    ensures e <= count
  {
    if BULK * k <= count then BULK * k else count
  }

  lemma DecodedIsPrefix(hs: seq<Header>, sent: seq<seq<Fragment>>, k: nat)
    requires k <= |sent| <= Bulks(|hs|)
    requires forall i :: 0 <= i < |sent| ==> BULK * i <= |hs| && sent[i] == Bulk(hs, i)
    ensures DecodeFirst(sent, k) == hs[..Upto(|hs|, k)]
  {
    forall i | 0 <= i < |sent| ensures BULK * i <= |hs| && Decode(sent[i]) == Chunk(hs, i) { DecodeBulk(hs, i); }
    ChunksJoin(hs, seq(|sent|, i requires 0 <= i < |sent| => Decode(sent[i])), k);
  }

  lemma {:induction false} ChunksJoin(hs: seq<Header>, parts: seq<seq<Header>>, k: nat)
    requires k <= |parts| <= Bulks(|hs|)
    requires forall i :: 0 <= i < |parts| ==> BULK * i <= |hs| && parts[i] == Chunk(hs, i)
    ensures Joined(parts, k) == hs[..Upto(|hs|, k)]
  {
    if k > 0 {
      ChunksJoin(hs, parts, k - 1);
      ChunkExtends(hs, k - 1);
    }
  }

  lemma ChunkExtends(hs: seq<Header>, i: nat)
    requires i < Bulks(|hs|)
    ensures BULK * i <= |hs|
    ensures hs[..Upto(|hs|, i)] + Chunk(hs, i) == hs[..Upto(|hs|, i + 1)]
  {
  }

  lemma DecodeBulk(hs: seq<Header>, i: nat)
    requires BULK * i <= |hs|
    ensures Decode(Bulk(hs, i)) == Chunk(hs, i)
  {
    DecodeEncode(Chunk(hs, i), i + 1 == Bulks(|hs|), i % 256);
  }

  /** All the messages for a list of headers. */
  function AllBulks(hs: seq<Header>): (sent: seq<seq<Fragment>>)
    ensures |sent| == Bulks(|hs|)
    ensures forall i :: 0 <= i < |sent| ==> BULK * i <= |hs| && sent[i] == Bulk(hs, i)
  {
    seq(Bulks(|hs|), i requires 0 <= i < Bulks(|hs|) => Bulk(hs, i))
  }

  lemma ChunkSize(hs: seq<Header>, i: nat)
    requires i < Bulks(|hs|)
    ensures BULK * i <= |hs|
    ensures if i < Bulks(|hs|) - 1 then |Chunk(hs, i)| == 10 else 1 <= |Chunk(hs, i)| <= 10
  {
  }

  lemma SlotsAre(hs: seq<Header>, last: bool, index: nat)
    ensures var m := Encode(hs, last, index);
            |m| >= 4 && m[0] == DataType && m[1] == RequestId && m[2] == LastPart(last) && m[3] == PartIndex(index)
  {
  }

  lemma BulkIs(hs: seq<Header>, i: nat)
    requires i < Bulks(|hs|)
    ensures BULK * i <= |hs|
    ensures var m := Bulk(hs, i);
            && |m| >= 4
            && m[0] == DataType
            && m[1] == RequestId
            && m[2] == LastPart(i == Bulks(|hs|) - 1)
            && m[3] == PartIndex(i % 256)
            && (if i < Bulks(|hs|) - 1 then |Decode(m)| == 10 else 1 <= |Decode(m)| <= 10)
  {
    ChunkSize(hs, i);
    DecodeBulk(hs, i);
    SlotsAre(Chunk(hs, i), i + 1 == Bulks(|hs|), i % 256);
  }

  /** The identifiers, the flag and the number of headers that message i of `count` is to have. */
  ghost predicate MessageOk(m: seq<Fragment>, i: nat, count: nat) {
    && |m| >= 4
    && m[0] == DataType && m[1] == RequestId
    && m[2] == LastPart(i + 1 == count)
    && (if i + 1 < count then |Decode(m)| == 10 else 1 <= |Decode(m)| <= 10)
  }

  /**
   The messages partition the header list in order: read back and joined they give it, all but the last
   carry ten headers, and only the last carries the flag.
   */
  lemma BulksPartition(hs: seq<Header>)
    ensures var sent := AllBulks(hs);
            && DecodeFirst(sent, |sent|) == hs
            && forall i :: 0 <= i < |sent| ==> MessageOk(sent[i], i, |sent|)
  {
    var sent := AllBulks(hs);
    DecodedIsPrefix(hs, sent, |sent|);
    forall i | 0 <= i < |sent| ensures MessageOk(sent[i], i, |sent|) {
      BulkIs(hs, i);
    }
  }

  /** Every message carries its own number as part index iff there are at most 2560 headers. */
  lemma IndexIsExactIff(hs: seq<Header>)
    ensures (forall i :: 0 <= i < |AllBulks(hs)| ==> |AllBulks(hs)[i]| >= PREFIX && AllBulks(hs)[i][3] == PartIndex(i))
            <==> |hs| <= 2560
  {
    forall i | 0 <= i < |AllBulks(hs)|
      ensures |AllBulks(hs)[i]| >= PREFIX && AllBulks(hs)[i][3] == PartIndex(i % 256)
    {
      BulkIs(hs, i);
    }
    ByteIndexIff(AllBulks(hs));
    MoreThan256(|hs|);
  }

  lemma MoreThan256(k: nat)
    ensures Bulks(k) <= 256 <==> k <= 2560
  {
  }

  lemma ByteIndexIff(sent: seq<seq<Fragment>>)
    requires forall i :: 0 <= i < |sent| ==> |sent[i]| >= PREFIX && sent[i][3] == PartIndex(i % 256)
    ensures (forall i :: 0 <= i < |sent| ==> |sent[i]| >= PREFIX && sent[i][3] == PartIndex(i)) <==> |sent| <= 256
  {
    if |sent| > 256 {
      assert sent[256][3] == PartIndex(256 % 256);
    }
  }

  // ---------------------------------------------------------------- body chunks

  datatype BodyMessage<T> = BodyMessage(final: bool, index: nat, chunk: T)

  /** The variables of the body loop, and what it has sent. */
  datatype BodyLoop<T> = BodyLoop(index: nat, final: bool, sent: seq<BodyMessage<T>>)

  /** One round: the flag is raised at the last chunk and stays, and the 8-bit index goes back to 0 after 255. */
  function BodyRound<T>(chunks: seq<T>, x: BodyLoop<T>): BodyLoop<T>
    requires x.index < |chunks|
  {
    var final := x.final || x.index == |chunks| - 1;
    BodyLoop((x.index + 1) % 256, final, x.sent + [BodyMessage(final, x.index, chunks[x.index])])
  }

  /** The loop after c rounds in which every send was accepted; once its guard fails it stays as it is. */
  function BodyRun<T>(chunks: seq<T>, c: nat): BodyLoop<T>
    decreases c
  {
    if c == 0 then BodyLoop(0, false, [])
    else
      var x := BodyRun(chunks, c - 1);
      if x.index < |chunks| then BodyRound(chunks, x) else x
  }

  lemma NextIndex(c: nat)
    requires c > 0
    ensures ((c - 1) % 256 + 1) % 256 == c % 256
    ensures c <= 256 ==> (c - 1) % 256 == c - 1
  {
  }

  /** The loop variables after c rounds. */
  lemma {:induction false} BodyVariables<T>(chunks: seq<T>, c: nat)
    requires |chunks| <= 255 ==> c <= |chunks|
    ensures var x := BodyRun(chunks, c);
            && x.index == c % 256 && |x.sent| == c
            && (x.final <==> 1 <= |chunks| <= 256 && c >= |chunks|)
            && (c > 0 ==> BodyRun(chunks, c - 1).index < |chunks| && x == BodyRound(chunks, BodyRun(chunks, c - 1)))
    decreases c
  {
    if c > 0 {
      BodyVariables(chunks, c - 1);
      NextIndex(c);
    }
  }

  /** Up to the last chunk of a body of at most 255 the guard holds; of a longer one it always does. */
  lemma BodyGuard<T>(chunks: seq<T>, c: nat)
    requires |chunks| <= 255 ==> c <= |chunks|
    ensures BodyRun(chunks, c).index < |chunks| <==> |chunks| >= 256 || c < |chunks|
    ensures |chunks| <= 255 ==> BodyRun(chunks, c).index == c
  {
    BodyVariables(chunks, c);
  }

  function OneEach<T>(chunks: seq<T>, k: nat): seq<BodyMessage<T>>
    requires k <= |chunks|
  {
    seq(k, i requires 0 <= i < k => BodyMessage(i == |chunks| - 1, i, chunks[i]))
  }

  lemma OneEachSnoc<T>(chunks: seq<T>, k: nat)
    requires 1 <= k <= |chunks|
    ensures OneEach(chunks, k) == OneEach(chunks, k - 1) + [BodyMessage(k - 1 == |chunks| - 1, k - 1, chunks[k - 1])]
  {
  }

  lemma {:induction false} BodySends<T>(chunks: seq<T>, c: nat)
    requires c <= |chunks| <= 255
    ensures BodyRun(chunks, c).sent == OneEach(chunks, c)
    decreases c
  {
    if c > 0 {
      BodySends(chunks, c - 1);
      BodyVariables(chunks, c - 1);
      BodyVariables(chunks, c);
      NextIndex(c);
      OneEachSnoc(chunks, c);
    }
  }

  /** With more chunks, message i carries chunk and index i modulo 256, and the flag if chunk 255 is the last. */
  lemma {:induction false} BodySendsOn<T>(chunks: seq<T>, c: nat, i: nat)
    requires |chunks| >= 256 && i < c
    ensures i < |BodyRun(chunks, c).sent|
    ensures BodyRun(chunks, c).sent[i] == BodyMessage(|chunks| == 256 && i >= 255, i % 256, chunks[i % 256])
    decreases c
  {
    BodyVariables(chunks, c - 1);
    BodyVariables(chunks, c);
    if i < c - 1 {
      BodySendsOn(chunks, c - 1, i);
    } else {
      FlagAt255(i);
    }
  }

  lemma FlagAt255(i: nat)
    ensures i >= 256 || i % 256 == 255 <==> i >= 255
  {
  }

  lemma {:induction false} BodyRests<T>(chunks: seq<T>, c: nat)
    requires |chunks| <= c && |chunks| <= 255
    ensures BodyRun(chunks, c) == BodyRun(chunks, |chunks|) && BodyRun(chunks, c).index >= |chunks|
    decreases c
  {
    if c > |chunks| {
      BodyRests(chunks, c - 1);
    } else {
      BodyVariables(chunks, c);
    }
  }

  /**
   With every send accepted, the loop ends iff there are at most 255 chunks, and then every chunk was sent once,
   in order, with its own index and the flag on the last; otherwise it goes on sending for ever.
   */
  lemma BodyLoopEndsIff<T>(chunks: seq<T>)
    ensures (exists c: nat :: BodyRun(chunks, c).index >= |chunks|) <==> |chunks| <= 255
    ensures forall c: nat :: BodyRun(chunks, c).index >= |chunks| ==>
              BodyRun(chunks, c).sent == OneEach(chunks, |chunks|)
    ensures |chunks| >= 256 ==> forall c: nat :: |BodyRun(chunks, c).sent| == c
    ensures |chunks| >= 256 ==>
              forall c: nat, i: nat :: i < c && i < |BodyRun(chunks, c).sent| ==>
                BodyRun(chunks, c).sent[i] == BodyMessage(|chunks| == 256 && i >= 255, i % 256, chunks[i % 256])
  {
    if |chunks| <= 255 {
      BodySends(chunks, |chunks|);
      BodyRests(chunks, |chunks|);
      forall c: nat | BodyRun(chunks, c).index >= |chunks|
        ensures BodyRun(chunks, c).sent == OneEach(chunks, |chunks|)
      {
        if c <= |chunks| { BodyVariables(chunks, c); } else { BodyRests(chunks, c); }
      }
    } else {
      forall c: nat ensures BodyRun(chunks, c).index < |chunks| && |BodyRun(chunks, c).sent| == c {
        BodyVariables(chunks, c);
      }
      forall c: nat, i: nat | i < c && i < |BodyRun(chunks, c).sent|
        ensures BodyRun(chunks, c).sent[i] == BodyMessage(|chunks| == 256 && i >= 255, i % 256, chunks[i % 256])
      {
        BodySendsOn(chunks, c, i);
      }
    }
  }

  /**
   `accepted` is the outcome of each send in turn; the send after the last one fails.  The sender succeeds iff
   there are at most 255 chunks and all their sends are accepted; with more it sends on until a send fails.
   */
  method SendBodies<T>(chunks: seq<T>, accepted: seq<bool>) returns (ok: bool, sent: seq<BodyMessage<T>>, counted: nat)
    ensures ok <==> |chunks| <= 255 && |chunks| <= |accepted| && forall c :: 0 <= c < |chunks| ==> accepted[c]
    ensures |sent| <= |accepted| && forall c :: 0 <= c < |sent| ==> accepted[c]
    ensures sent == BodyRun(chunks, |sent|).sent
    ensures ok ==> |sent| == |chunks| == counted
    ensures !ok ==> (|sent| == |accepted| || !accepted[|sent|]) && counted == 0
  {
    sent := [];
    var index: nat, final := 0, false;
    while index < |chunks|
      invariant |sent| <= |accepted| && (|chunks| <= 255 ==> |sent| <= |chunks|)
      invariant BodyLoop(index, final, sent) == BodyRun(chunks, |sent|)
      invariant forall c :: 0 <= c < |sent| ==> accepted[c]
      decreases |accepted| - |sent|
    {
      BodyGuard(chunks, |sent|);
      if index == |chunks| - 1 {
        final := true;
      }
      if |sent| == |accepted| || !accepted[|sent|] {
        return false, sent, 0;
      }
      sent := sent + [BodyMessage(final, index, chunks[index])];
      index := (index + 1) % 256;
    }
    BodyGuard(chunks, |sent|);
    return true, sent, index;
  }
}
