/**
 The direct-mapped table of asynchronous verdicts, against a map keyed by session id.
 */
module AsyncTable {

  const BUCKETS: nat := 2048
  const KNUTH: nat := 2654435761

  type SessionID = x: int | 0 <= x < 0x1_0000_0000

  datatype AttachmentVerdict = Inspect | Accept | Drop | Inject | Delayed

  /** `extra` stands for the modifications and the web response. */
  datatype Response = Response(session: SessionID, verdict: AttachmentVerdict, extra: seq<int>)

  const VACANT: Response := Response(0, Inspect, [])

  /** nano_attachment_async_ctx_hash, in 32-bit arithmetic. */
  function Hash(sid: SessionID): nat {
    ((sid * KNUTH) % 0x1_0000_0000) % BUCKETS
  }

  lemma HashIsMultiple(sid: SessionID) returns (c: int)
    ensures Hash(sid) == 433 * (sid % BUCKETS) - BUCKETS * c
  {
    var a := (sid * KNUTH) / 0x1_0000_0000;
    var b := ((sid * KNUTH) % 0x1_0000_0000) / BUCKETS;
    assert Hash(sid) == sid * KNUTH - 0x1_0000_0000 * a - BUCKETS * b;
    assert sid == BUCKETS * (sid / BUCKETS) + sid % BUCKETS;
    c := 0x20_0000 * a + b - (sid / BUCKETS) * KNUTH - 1296111 * (sid % BUCKETS);
  }

  /** 433, the multiplier modulo 2048, has the inverse 1873. */
  lemma MultiplierIsInvertible(d: int, c: int)
    requires 433 * d == 2048 * c && -2048 < d < 2048
    ensures d == 0
  {
  }

  lemma ResiduesDecide(hx: int, hy: int, rx: int, ry: int, cx: int, cy: int)
    requires 0 <= hx < 2048 && 0 <= hy < 2048 && 0 <= rx < 2048 && 0 <= ry < 2048
    requires hx == 433 * rx - 2048 * cx && hy == 433 * ry - 2048 * cy
    ensures hx == hy <==> rx == ry
  {
    var c := cx - cy;
    assert hx - hy == 433 * (rx - ry) - 2048 * c;
    if hx == hy {
      MultiplierIsInvertible(rx - ry, c);
    }
  }

  /** The multiplier is odd, so two ids share a bucket iff they are congruent modulo the table size. */
  lemma CollideIff(x: SessionID, y: SessionID)
    ensures Hash(x) == Hash(y) <==> x % BUCKETS == y % BUCKETS
  {
    var cx := HashIsMultiple(x);
    var cy := HashIsMultiple(y);
    ResiduesDecide(Hash(x), Hash(y), x % BUCKETS, y % BUCKETS, cx, cy);
  }

  // ---------------------------------------------------------------- the table as a value

  type Table = t: seq<Response> | |t| == BUCKETS witness seq(BUCKETS, _ => VACANT)

  /** GenerateFailedVerdict */
  function FailedResponse(failOpen: bool, sid: SessionID): Response {
    Response(sid, if failOpen then Accept else Drop, [])
  }

  /** NanoAsyncAddResponse, as PopFromNanoQueue calls it. */
  function Added(t: Table, r: Response): Table {
    t[Hash(r.session) := r]
  }

  /** getAttachmentVerdictResponse: find, remove, and fall back to the fail mode. */
  function Taken(t: Table, sid: SessionID, failOpen: bool): (Table, Response) {
    var found := t[Hash(sid)];
    (t[Hash(sid) := VACANT], if found.session == 0 then FailedResponse(failOpen, sid) else found)
  }

  type Live = map<SessionID, Response>

  /** What a lookup is to do: a stored response is taken out, and an absent id gets an empty fail-mode response. */
  function MapTaken(m: Live, sid: SessionID, failOpen: bool): (Live, Response) {
    (m - {sid},
     if sid in m then m[sid] else if failOpen then Response(sid, Accept, []) else Response(sid, Drop, []))
  }

  ghost predicate Agrees(t: Table, m: Live) {
    && (forall x :: x in m ==> x != 0 && m[x].session == x && t[Hash(x)] == m[x])
    && (forall b :: 0 <= b < BUCKETS && t[b].session != 0 ==> t[b].session in m && Hash(t[b].session) == b)
  }

  /** Another live id has the same residue. */
  ghost predicate Clash(m: Live, sid: SessionID) {
    exists x :: x in m && x != sid && x % BUCKETS == sid % BUCKETS
  }

  /** Adding agrees with the map iff no other live id has the same residue. */
  lemma AddAgreesIff(t: Table, m: Live, r: Response)
    requires Agrees(t, m) && r.session != 0
    ensures Agrees(Added(t, r), m[r.session := r]) <==> !Clash(m, r.session)
  {
    var m' := m[r.session := r];
    var t' := Added(t, r);
    if Clash(m, r.session) {
      var x :| x in m && x != r.session && x % BUCKETS == r.session % BUCKETS;
      CollideIff(x, r.session);
      assert x in m' && t'[Hash(x)] == r != m'[x];
    } else {
      forall x | x in m' ensures x != 0 && m'[x].session == x && t'[Hash(x)] == m'[x] {
        CollideIff(x, r.session);
      }
    }
  }

  /** Taking agrees with the map iff no other live id has the same residue. */
  lemma TakeAgreesIff(t: Table, m: Live, sid: SessionID, failOpen: bool)
    requires Agrees(t, m)
    ensures var (t', r) := Taken(t, sid, failOpen);
            var (m', r') := MapTaken(m, sid, failOpen);
            r == r' && Agrees(t', m') <==> !Clash(m, sid)
    ensures !Clash(m, sid) && sid !in m ==>
              var r := Taken(t, sid, failOpen).1;
              && r.session == sid && r.extra == []
              && (r.verdict == Accept <==> failOpen) && (r.verdict == Drop <==> !failOpen)
  {
    var m' := m - {sid};
    var t' := Taken(t, sid, failOpen).0;
    if Clash(m, sid) {
      var x :| x in m && x != sid && x % BUCKETS == sid % BUCKETS;
      CollideIff(x, sid);
      assert t[Hash(sid)] == m[x];
    } else {
      forall x | x in m' ensures x != 0 && m'[x].session == x && t'[Hash(x)] == m'[x] {
        CollideIff(x, sid);
      }
      if t[Hash(sid)].session != 0 {
        CollideIff(t[Hash(sid)].session, sid);
      }
    }
  }

  /**
   Ids 1 and 2049 share a bucket: a lookup for 2049 answers with the verdict of 1, and the lookup for 1 that
   follows finds nothing and answers by the fail mode.
   */
  lemma LookupTakesAnothersVerdict(r: Response, failOpen: bool)
    requires r.session == 1
    ensures var t := Added(seq(BUCKETS, _ => VACANT), r);
            && Taken(t, 2049, failOpen).1 == r
            && Taken(Taken(t, 2049, failOpen).0, 1, failOpen).1 == Response(1, if failOpen then Accept else Drop, [])
  {
    CollideIff(1, 2049);
  }

  // ---------------------------------------------------------------- runs

  datatype Op = Add(r: Response) | Take(sid: SessionID)

  function Results(t: Table, ops: seq<Op>, failOpen: bool): seq<Response>
    decreases |ops|
  {
    if ops == [] then []
    else match ops[0]
      case Add(r) => Results(if r.session == 0 then t else Added(t, r), ops[1..], failOpen)
      case Take(sid) => [Taken(t, sid, failOpen).1] + Results(Taken(t, sid, failOpen).0, ops[1..], failOpen)
  }

  function MapResults(m: Live, ops: seq<Op>, failOpen: bool): seq<Response>
    decreases |ops|
  {
    if ops == [] then []
    else match ops[0]
      case Add(r) => MapResults(if r.session == 0 then m else m[r.session := r], ops[1..], failOpen)
      case Take(sid) => [MapTaken(m, sid, failOpen).1] + MapResults(MapTaken(m, sid, failOpen).0, ops[1..], failOpen)
  }

  /** No operation of the run meets a live id with the residue of its own. */
  ghost predicate ClashFree(m: Live, ops: seq<Op>)
    decreases |ops|
  {
    ops != [] ==>
      match ops[0]
      case Add(r) => if r.session == 0 then ClashFree(m, ops[1..])
                     else !Clash(m, r.session) && ClashFree(m[r.session := r], ops[1..])
      case Take(sid) => !Clash(m, sid) && ClashFree(m - {sid}, ops[1..])
  }

  lemma {:induction false} RunAgrees(t: Table, m: Live, ops: seq<Op>, failOpen: bool)
    requires Agrees(t, m) && ClashFree(m, ops)
    ensures Results(t, ops, failOpen) == MapResults(m, ops, failOpen)
    decreases |ops|
  {
    if ops != [] {
      match ops[0]
      case Add(r) =>
        if r.session == 0 {
          RunAgrees(t, m, ops[1..], failOpen);
        } else {
          AddAgreesIff(t, m, r);
          RunAgrees(Added(t, r), m[r.session := r], ops[1..], failOpen);
        }
      case Take(sid) =>
        TakeAgreesIff(t, m, sid, failOpen);
        RunAgrees(Taken(t, sid, failOpen).0, m - {sid}, ops[1..], failOpen);
    }
  }

  // ---------------------------------------------------------------- the table in place

  class Buckets {
    const entries: array<Response>
    const failOpen: bool

    constructor (failOpen: bool)
      ensures entries.Length == BUCKETS && fresh(entries) && this.failOpen == failOpen
      ensures Agrees(entries[..], map[])
    {
      entries := new Response[BUCKETS](_ => VACANT);
      this.failOpen := failOpen;
    }

    /** PopFromNanoQueue, from the response it popped: id 0 is not stored. */
    method Store(r: Response) returns (sid: SessionID)
      requires entries.Length == BUCKETS
      modifies entries
      ensures sid == r.session
      ensures entries[..] == if r.session == 0 then old(entries[..]) else Added(old(entries[..]), r)
    {
      if r.session == 0 {
        return 0;
      }
      entries[Hash(r.session)] := r;
      return r.session;
    }

    method Find(sid: SessionID) returns (r: Response)
      requires entries.Length == BUCKETS
      ensures r == entries[Hash(sid)]
    {
      r := entries[Hash(sid)];
    }

    method Remove(sid: SessionID)
      requires entries.Length == BUCKETS
      modifies entries
      ensures entries[..] == old(entries[..])[Hash(sid) := VACANT]
    {
      entries[Hash(sid)] := VACANT;
    }

    method TakeVerdict(sid: SessionID) returns (r: Response)
      requires entries.Length == BUCKETS
      modifies entries
      ensures (entries[..], r) == Taken(old(entries[..]), sid, failOpen)
      ensures forall m :: old(Agrees(entries[..], m)) && !Clash(m, sid) ==>
                r == MapTaken(m, sid, failOpen).1 && Agrees(entries[..], m - {sid})
      ensures forall m :: old(Agrees(entries[..], m)) && !Clash(m, sid) && sid !in m ==>
                && r.session == sid && r.extra == []
                && (r.verdict == Accept <==> failOpen) && (r.verdict == Drop <==> !failOpen)
    {
      ghost var t := entries[..];
      forall m | Agrees(t, m) && !Clash(m, sid) { TakeAgreesIff(t, m, sid, failOpen); }
      r := Find(sid);
      Remove(sid);
      if r.session == 0 {
        r := FailedResponse(failOpen, sid);
      }
    }
  }
}
