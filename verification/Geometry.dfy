/**
 The memory map of one queue, and how an attaching process finds out which of the
 two released segment sizes the owner used.
 */
module Geometry {
  import opened Arithmetic
  import opened Ring

  const LARGE_SEGMENT: nat := 4096
  const SMALL_SEGMENT: nat := 1024
  const MAX_SEGMENTS: nat := 2048
  const NAME_LENGTH: nat := 64

  /** The owner's stamp in shared memory. */
  datatype Header = Header(name: string, memory: int, segments: nat, readPos: nat, writePos: nat)

  /** What one process remembers about a queue it created or attached to. */
  datatype View = View(name: string, memory: int, segments: nat, segmentSize: nat)

  predicate Released(s: nat) {
    s == LARGE_SEGMENT || s == SMALL_SEGMENT
  }

  /** snprintf into a 64-byte field. */
  function Field(name: string): (field: string)
    ensures field <= name && |field| == if |name| <= 63 then |name| else 63
  {
    if |name| < NAME_LENGTH then name else name[..NAME_LENGTH - 1]
  }

  /** The owner's side of createSharedRingQueue. */
  function Create(name: string, n: nat, s: nat): (Header, View) {
    (Header(Field(name), MemorySize(n, s), n, 0, 0), View(Field(name), MemorySize(n, s), n, s))
  }

  /** deriveSegmentSizeFromExistingQueue; 0 means "no opinion". */
  function Derive(fileSize: nat, h: Header): nat {
    if fileSize < HEADER_SIZE then 0
    else if h.segments == 0 || h.segments > MAX_SEGMENTS then 0
    else if h.memory <= HEADER_SIZE then 0
    else
      var payload := h.memory - HEADER_SIZE;
      var derived := payload / (h.segments + 1);
      if derived * (h.segments + 1) != payload then 0
      else if !Released(derived) then 0
      else derived
  }

  /** The attaching side of createSharedRingQueue, for whatever size was negotiated beforehand. */
  function Attach(name: string, n: nat, negotiated: nat, fileSize: nat, h: Header): View {
    var adopted := Derive(fileSize, h);
    var s := if adopted != 0 && adopted != negotiated then adopted else negotiated;
    View(Field(name), MemorySize(n, s), n, s)
  }

  /** isCorruptedQueue */
  predicate Corrupted(h: Header, v: View) {
    v.segments != 0 &&
    (h.segments != v.segments || h.memory != v.memory || h.readPos > v.segments || h.writePos > v.segments
     || h.name != v.name)
  }

  /** getDataSegmentAddress, relative to the start of the mapping, with its two branches. */
  function SegmentAddress(v: View, i: nat): nat {
    if v.segmentSize == LARGE_SEGMENT then
      HEADER_SIZE + LARGE_SEGMENT + i * LARGE_SEGMENT
    else
      (HEADER_SIZE + LARGE_SEGMENT) - LARGE_SEGMENT + v.segmentSize + i * v.segmentSize
  }

  function WordAddress(i: nat): nat {
    HEADER_SIZE + 2 * i
  }

  lemma QuotientOfProduct(s: nat, d: nat)
    requires d >= 1
    ensures (s * d) / d == s
  {
    var q := (s * d) / d;
    assert (s - q) * d == (s * d) % d;
    NoMultipleBetween(s - q, d);
  }

  /** A size is derived exactly from the stamps an owner of that size can have made. */
  lemma DerivedIff(fileSize: nat, h: Header, s: nat)
    requires s != 0
    ensures Derive(fileSize, h) == s <==>
              && fileSize >= 82
              && 1 <= h.segments <= 2048
              && (s == 1024 || s == 4096)
              && h.memory == 82 + s + h.segments * s
  {
    assert MemorySize(h.segments, s) == HEADER_SIZE + s * (h.segments + 1);
    assert s * (h.segments + 1) >= s;
    QuotientOfProduct(s, h.segments + 1);
  }

  /** Whatever was negotiated, the attaching process ends with the owner's view and the owner's segments. */
  lemma AttachAdoptsOwner(name: string, n: nat, s: nat, negotiated: nat, fileSize: nat)
    requires 1 <= n <= MAX_SEGMENTS && Released(s) && fileSize >= HEADER_SIZE
    ensures var (h, owner) := Create(name, n, s);
            var v := Attach(name, n, negotiated, fileSize, h);
            && h.segments == n && h.memory == 82 + s + n * s && h.readPos == 0 && h.writePos == 0
            && v == owner
            && v == View(h.name, 82 + s + n * s, n, s)
            && !Corrupted(h, v)
            && forall i: nat :: SegmentAddress(v, i) == HEADER_SIZE + s + Offset(i, s)
  {
    var (h, owner) := Create(name, n, s);
    DerivedIff(fileSize, h, s);
    forall i: nat ensures SegmentAddress(owner, i) == HEADER_SIZE + s + Offset(i, s) {
      SegmentsFollowManagement(owner, i);
    }
  }

  /** A header that no owner of a released size made leaves the attaching process with what was negotiated. */
  lemma AttachFallsBack(name: string, n: nat, negotiated: nat, fileSize: nat, h: Header)
    ensures var v := Attach(name, n, negotiated, fileSize, h);
            && v.segments == n && v.name == Field(name) && v.memory == 82 + v.segmentSize + n * v.segmentSize
            && (v.segmentSize == negotiated || v.segmentSize == Derive(fileSize, h))
            && (Derive(fileSize, h) == 0 ==> v.segmentSize == negotiated)
            && (Derive(fileSize, h) != 0 ==> v.segmentSize == Derive(fileSize, h))
  {
  }

  /** The corruption test reports iff this process knows a queue and the header differs from it or points outside it. */
  lemma CorruptedIff(h: Header, v: View)
    ensures !Corrupted(h, v) <==>
              || v.segments == 0
              || (&& h.segments == v.segments && h.memory == v.memory && h.name == v.name
                  && h.readPos <= h.segments && h.writePos <= h.segments)
  {
  }

  /** On a queue with the right name, the operations go ahead exactly where the corruption test does not report. */
  lemma ReadableIffNotCorrupted(g: Ring, h: Header, v: View)
    requires v.segments == g.n && v.segmentSize == g.s && v.memory == MemorySize(g.n, g.s) && h.name == v.name
    requires h.segments == g.segments && h.memory == g.memory && h.readPos == g.readPos && h.writePos == g.writePos
    ensures Readable(g) <==> g.n != 0 && !Corrupted(h, v)
  {
  }

  /** Segment i of the map is slice [Offset(i), Offset(i + 1)) of the data, behind one management segment. */
  lemma SegmentsFollowManagement(v: View, i: nat)
    ensures SegmentAddress(v, i) == HEADER_SIZE + v.segmentSize + Offset(i, v.segmentSize)
  {
  }

  /**
   Management words, header and data segments are pairwise disjoint and inside the mapping
   exactly when the management segment is long enough.
   */
  lemma LayoutIsDisjointIff(v: View, n: nat)
    requires 1 <= n && Released(v.segmentSize) && v.memory == MemorySize(n, v.segmentSize)
    ensures (forall i, j :: 0 <= i < n && 0 <= j < n ==>
               && HEADER_SIZE <= WordAddress(i)
               && WordAddress(i) + 2 <= SegmentAddress(v, j)
               && SegmentAddress(v, j) + v.segmentSize <= v.memory)
            <==> 2 * n <= v.segmentSize
    ensures forall i, j :: 0 <= i < j < n ==> SegmentAddress(v, i) + v.segmentSize <= SegmentAddress(v, j)
  {
    var s := v.segmentSize;
    forall j | 0 <= j < n
      ensures SegmentAddress(v, 0) <= SegmentAddress(v, j) && SegmentAddress(v, j) + s <= v.memory
    {
      SegmentsFollowManagement(v, j);
      SegmentsFollowManagement(v, 0);
      OffsetMonotone(j + 1, n, s);
      OffsetMonotone(j, j + 1, s);
      assert Offset(1, s) == s;
    }
    forall i, j | 0 <= i < j < n
      ensures SegmentAddress(v, i) + s <= SegmentAddress(v, j)
    {
      OffsetMonotone(i, i + 1, s);
      OffsetMonotone(i + 1, j, s);
      SegmentsFollowManagement(v, i);
      SegmentsFollowManagement(v, j);
    }
    if 2 * n > s {
      assert !(WordAddress(n - 1) + 2 <= SegmentAddress(v, 0));
    }
  }
}
