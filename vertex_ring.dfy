/** The arithmetic of the vertex ring in OGLMaskBuffer.c: how the ring is sized, how the
    two cursors move on a flush and on a quad, and which of the three regions a position is in. */
module VertexRing {
  import opened Gl
  import opened Arith

  /** Bytes per vertex record: 8 floats of 4 bytes. */
  const VertexBytes := 32

  /** Vertices per quad. */
  const QuadVertices := 4

  /** The number of regions the ring is split into. */
  const Regions := 3

  datatype Capacity = Capacity(vtxPerArea: int, vtxBufferSize: int)

  /** allocateVertexBufferPtr: the ring capacity in vertices for a buffer of `size` bytes. */
  function RingCapacity(size: int): (c: Capacity)
    requires 0 <= size
    ensures 0 <= c.vtxPerArea && c.vtxPerArea % QuadVertices == 0
    ensures c.vtxBufferSize == Regions * c.vtxPerArea
    ensures c.vtxBufferSize * VertexBytes <= size
    ensures size < (c.vtxPerArea + QuadVertices) * Regions * VertexBytes
  {
    var vtxBufferSize := size / 32;
    var vtxPerArea := vtxBufferSize / 3;
    var vtxPerArea' := vtxPerArea - vtxPerArea % 4;
    Capacity(vtxPerArea', vtxPerArea' * 3)
  }

  /** The derived regions are non-empty exactly when the buffer holds one quad per region. */
  lemma CapacityUsable(size: int)
    requires 0 <= size
    ensures RingCapacity(size).vtxPerArea > 0 <==> size >= Regions * QuadVertices * VertexBytes
  {
  }

  /** Ring geometry the rest of the file relies on. */
  predicate Aligned(vtxPerArea: int, vtxBufferSize: int)
  {
    0 < vtxPerArea && vtxPerArea % QuadVertices == 0 && vtxBufferSize == Regions * vtxPerArea
  }

  /** curVertPos (next free vertex) and lastVertPos (first vertex not yet drawn). */
  datatype Cursor = Cursor(cur: int, last: int)

  /** The cursor invariant: quad-aligned, ordered, inside the ring, and the flushed position is
      never the physical end (a flush that reaches the end wraps). */
  predicate CursorOk(c: Cursor, vtxPerArea: int, vtxBufferSize: int)
  {
    && Aligned(vtxPerArea, vtxBufferSize)
    && 0 <= c.last <= c.cur <= vtxBufferSize
    && c.last < vtxBufferSize
    && c.cur % QuadVertices == 0 && c.last % QuadVertices == 0
  }

  datatype FlushStep = FlushStep(cursor: Cursor, calls: seq<Call>)

  /** OGLMaskBuffer_FlushMaskCache on the cursors. */
  function Flush(c: Cursor, vtxBufferSize: int): (f: FlushStep)
    ensures c.cur > c.last ==> f.calls == [DrawArrays(c.last, c.cur - c.last)]
    ensures c.cur <= c.last ==> f == FlushStep(c, [])
    ensures c.cur > c.last ==> f.cursor.cur == f.cursor.last
  {
    var vertexCnt := c.cur - c.last;
    if vertexCnt > 0 then
      var cur := if c.cur == vtxBufferSize then 0 else c.cur;
      FlushStep(Cursor(cur, cur), [DrawArrays(c.last, vertexCnt)])
    else
      FlushStep(c, [])
  }

  /** A flush submits every pending vertex in one draw that never runs past the end of the
      ring, leaves nothing pending, and keeps the cursor invariant. */
  lemma FlushSubmitsPending(c: Cursor, vtxPerArea: int, vtxBufferSize: int)
    requires CursorOk(c, vtxPerArea, vtxBufferSize)
    ensures var f := Flush(c, vtxBufferSize);
      && CursorOk(f.cursor, vtxPerArea, vtxBufferSize)
      && f.cursor.cur == f.cursor.last < vtxBufferSize
      && |f.calls| <= 1
      && (forall d :: d in f.calls ==>
            d.DrawArrays? && 0 <= d.first && 0 < d.count
            && d.count % QuadVertices == 0 && d.first + d.count <= vtxBufferSize)
  {
  }

  /** Flushing twice in a row: the second flush draws nothing and moves nothing. */
  lemma FlushIdempotent(c: Cursor, vtxPerArea: int, vtxBufferSize: int)
    requires CursorOk(c, vtxPerArea, vtxBufferSize)
    ensures var f := Flush(c, vtxBufferSize);
      Flush(f.cursor, vtxBufferSize) == FlushStep(f.cursor, [])
  {
  }

  /** Where a flush leaves the cursors: both at the old write position, except that the end of
      the ring wraps to 0. */
  lemma FlushCursor(c: Cursor, vtxPerArea: int, vtxBufferSize: int)
    requires CursorOk(c, vtxPerArea, vtxBufferSize)
    ensures var p := if c.cur == vtxBufferSize then 0 else c.cur;
      Flush(c, vtxBufferSize).cursor == Cursor(p, p)
  {
  }

  /** queueMaskQuad flushes first when the write cursor sits on a region boundary. */
  function WriteCursor(c: Cursor, vtxPerArea: int, vtxBufferSize: int): (w: Cursor)
    requires vtxPerArea > 0
    ensures c.cur % vtxPerArea != 0 ==> w == c
    ensures w.cur == c.cur || (w.cur == 0 && c.cur == vtxBufferSize)
  {
    if c.cur % vtxPerArea == 0 then Flush(c, vtxBufferSize).cursor else c
  }

  /** The position a quad is written at lies inside the ring, and on a boundary nothing is
      left pending before it. */
  lemma WriteCursorOk(c: Cursor, vtxPerArea: int, vtxBufferSize: int)
    requires vtxPerArea > 0
    ensures var w := WriteCursor(c, vtxPerArea, vtxBufferSize);
      CursorOk(c, vtxPerArea, vtxBufferSize) ==>
      && CursorOk(w, vtxPerArea, vtxBufferSize) && w.cur < vtxBufferSize
      && (c.cur % vtxPerArea == 0 ==> w.cur == w.last)
  {
  }

  /** The region queueMaskQuad fences and waits for on a boundary: `nextRegion` in the source. */
  function NextRegion(c: Cursor, vtxPerArea: int, vtxBufferSize: int): (r: int)
    requires vtxPerArea > 0
    ensures CursorOk(c, vtxPerArea, vtxBufferSize) ==> 0 <= r < Regions
  {
    var w := WriteCursor(c, vtxPerArea, vtxBufferSize);
    WriteCursorOk(c, vtxPerArea, vtxBufferSize);
    DivBelow(w.cur, vtxPerArea, Regions);
    w.cur / vtxPerArea
  }

  /** The cursors after one queueMaskQuad. */
  function AfterQuad(c: Cursor, vtxPerArea: int, vtxBufferSize: int): (a: Cursor)
    requires vtxPerArea > 0
    ensures CursorOk(c, vtxPerArea, vtxBufferSize) ==>
      a.cur - a.last == (if c.cur % vtxPerArea == 0 then 0 else c.cur - c.last) + QuadVertices
  {
    var w := WriteCursor(c, vtxPerArea, vtxBufferSize);
    Cursor(w.cur + QuadVertices, w.last)
  }

  /** The region that holds the quad written last: the one being filled. Right after a wrap
      (cur == 0) that is still region 2, whose data precedes the wrap. */
  function CurRegion(cur: int, vtxPerArea: int): (r: int)
    requires vtxPerArea > 0
    ensures 0 <= cur <= Regions * vtxPerArea ==> 0 <= r < Regions
  {
    if cur == 0 then Regions - 1
    else DivBelow(cur - 1, vtxPerArea, Regions); (cur - 1) / vtxPerArea
  }

  /** A quad is written inside the ring and inside one region: its four vertices never straddle
      a region boundary or the physical end, so 16 floats from 4 * position stay in the
      4 * vtxBufferSize floats of each attribute area. */
  lemma QuadFits(c: Cursor, vtxPerArea: int, vtxBufferSize: int)
    requires CursorOk(c, vtxPerArea, vtxBufferSize)
    ensures var p := WriteCursor(c, vtxPerArea, vtxBufferSize).cur;
      && 0 <= p && p + QuadVertices <= vtxBufferSize
      && p % QuadVertices == 0
      && p / vtxPerArea == (p + QuadVertices - 1) / vtxPerArea
      && 4 * p + 16 <= 4 * vtxBufferSize
  {
    var p := WriteCursor(c, vtxPerArea, vtxBufferSize).cur;
    FlushSubmitsPending(c, vtxPerArea, vtxBufferSize);
    assert 0 <= p < vtxBufferSize && p % QuadVertices == 0;
    TripleAligned(vtxPerArea);
    AlignedBelow(p, vtxBufferSize);
    SameBlock(p, vtxPerArea);
  }

  /** A quad-aligned position is in the same block of `n` as the last vertex of its quad. */
  lemma SameBlock(p: int, n: int)
    requires 0 <= p && p % QuadVertices == 0 && 0 < n && n % QuadVertices == 0
    ensures p / n == (p + QuadVertices - 1) / n
  {
    OffsetInBlockAligned(p, n);
    DivIs(p + QuadVertices - 1, n, p / n);
  }

  /** queueMaskQuad advances the write cursor by exactly one quad and keeps the invariant. */
  lemma AfterQuadOk(c: Cursor, vtxPerArea: int, vtxBufferSize: int)
    requires CursorOk(c, vtxPerArea, vtxBufferSize)
    ensures var a := AfterQuad(c, vtxPerArea, vtxBufferSize);
      && CursorOk(a, vtxPerArea, vtxBufferSize)
      && a.cur == WriteCursor(c, vtxPerArea, vtxBufferSize).cur + QuadVertices
  {
    var w := WriteCursor(c, vtxPerArea, vtxBufferSize);
    QuadFits(c, vtxPerArea, vtxBufferSize);
    if c.cur % vtxPerArea == 0 {
      FlushSubmitsPending(c, vtxPerArea, vtxBufferSize);
      assert w == Flush(c, vtxBufferSize).cursor;
    }
    AdvanceOk(w, vtxPerArea, vtxBufferSize);
  }

  /** Moving a valid write cursor by one quad that fits keeps the cursor invariant. */
  lemma AdvanceOk(w: Cursor, vtxPerArea: int, vtxBufferSize: int)
    requires CursorOk(w, vtxPerArea, vtxBufferSize) && w.cur + QuadVertices <= vtxBufferSize
    ensures CursorOk(Cursor(w.cur + QuadVertices, w.last), vtxPerArea, vtxBufferSize)
  {
  }

  /** A flush never changes which region is being filled, also when it wraps. */
  lemma FlushKeepsRegion(c: Cursor, vtxPerArea: int, vtxBufferSize: int)
    requires CursorOk(c, vtxPerArea, vtxBufferSize)
    ensures CurRegion(Flush(c, vtxBufferSize).cursor.cur, vtxPerArea) == CurRegion(c.cur, vtxPerArea)
  {
    if c.cur == vtxBufferSize && c.cur > c.last {
      DivIs(vtxBufferSize - 1, vtxPerArea, Regions - 1);
    }
  }

  /** On a boundary, nextRegion is a valid slot; the fence goes on (nextRegion + 2) % 3, which is
      exactly the region just filled; and the quad is then written into nextRegion, which becomes
      the region being filled. */
  lemma BoundaryRegions(c: Cursor, vtxPerArea: int, vtxBufferSize: int)
    requires CursorOk(c, vtxPerArea, vtxBufferSize) && c.cur % vtxPerArea == 0
    ensures var n := NextRegion(c, vtxPerArea, vtxBufferSize);
      && 0 <= n < Regions
      && WriteCursor(c, vtxPerArea, vtxBufferSize).cur == n * vtxPerArea
      && (n + 2) % Regions == CurRegion(c.cur, vtxPerArea)
      && CurRegion(AfterQuad(c, vtxPerArea, vtxBufferSize).cur, vtxPerArea) == n
  {
    var w := WriteCursor(c, vtxPerArea, vtxBufferSize).cur;
    FlushSubmitsPending(c, vtxPerArea, vtxBufferSize);
    FlushKeepsRegion(c, vtxPerArea, vtxBufferSize);
    assert CurRegion(w, vtxPerArea) == CurRegion(c.cur, vtxPerArea);
    assert 0 <= w < vtxBufferSize && w % vtxPerArea == 0;
    BlockStart(w, vtxPerArea);
  }

  /** A block start `w` inside the ring: its block number, the block before it, the block
      holding the quad written at it. */
  lemma BlockStart(w: int, n: int)
    requires 0 < n && n % QuadVertices == 0 && 0 <= w < Regions * n && w % n == 0
    ensures var k := w / n;
      && 0 <= k < Regions && w == k * n
      && (k + 2) % Regions == CurRegion(w, n)
      && CurRegion(w + QuadVertices, n) == k
  {
    var k := w / n;
    assert w == k * n;
    MulCancelLt(k, Regions, n);
    MulCancelLt(-1, k, n);
    if k > 0 {
      DivIs(w - 1, n, k - 1);
    }
    DivIs(w + QuadVertices - 1, n, k);
  }

  /** Between boundaries the region being filled does not change. */
  lemma InteriorQuadKeepsRegion(c: Cursor, vtxPerArea: int, vtxBufferSize: int)
    requires CursorOk(c, vtxPerArea, vtxBufferSize) && c.cur % vtxPerArea != 0
    ensures CurRegion(AfterQuad(c, vtxPerArea, vtxBufferSize).cur, vtxPerArea) == CurRegion(c.cur, vtxPerArea)
  {
    assert AfterQuad(c, vtxPerArea, vtxBufferSize).cur == c.cur + QuadVertices;
    InsideBlock(c.cur, vtxPerArea);
  }

  lemma InsideBlock(p: int, n: int)
    requires 0 < p && p % QuadVertices == 0 && 0 < n && n % QuadVertices == 0 && p % n != 0
    ensures (p - 1) / n == (p + QuadVertices - 1) / n
  {
    OffsetInBlockAligned(p, n);
    var q := p / n;
    DivIs(p - 1, n, q);
    DivIs(p + QuadVertices - 1, n, q);
  }
}
