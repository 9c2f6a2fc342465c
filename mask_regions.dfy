/** The size constants of OGLMaskBuffer.java and the pure rules behind its queueMaskQuad:
    where a mask is placed in the four-region mask buffer, which MASK_BUFFER_FENCE command a
    region crossing sends, how the pending flags evolve while the caller waits for a region,
    and the row-major layout of the copied bytes as the fragment shader reads it back. */
module MaskRegions {
  import opened Wrappers
  import opened Seqs
  import opened Arith
  import opened QuadLayout
  import VertexRing

  const RegionCount := 4
  const RegionSize := 1024 * 1024
  const BufferSize := RegionSize * RegionCount
  /** VERTEX_BUFFER_SIZE, in bytes: a quarter of the mask buffer. */
  const VertexBufferSize := BufferSize / 4

  /** The vertex ring sized from VERTEX_BUFFER_SIZE holds 10920 vertices (2730 quads) per
      region, so the native side's capacity requirement is met. */
  lemma VertexBufferCapacity()
    ensures VertexRing.RingCapacity(VertexBufferSize) == VertexRing.Capacity(10920, 32760)
    ensures VertexRing.Regions * VertexRing.QuadVertices * VertexRing.VertexBytes <= VertexBufferSize
  {
  }

  /** The mask-buffer region that holds byte `offset`. */
  function RegionOf(offset: int): int
  {
    offset / RegionSize
  }

  /** Where one mask goes: its first byte, the bump position after it, and the regions of the
      bump position before the call (taken before any wrap) and after it. */
  datatype Allocation = Allocation(start: int, next: int, regionBefore: int, regionAfter: int)

  /** The offset arithmetic of queueMaskQuad for a mask of `maskSize` bytes. */
  function Allocate(offset: int, maskSize: int): (al: Allocation)
    requires 0 <= offset < BufferSize && 0 <= maskSize < BufferSize
    ensures 0 <= al.start && al.start + maskSize == al.next < BufferSize
    ensures offset + maskSize < BufferSize ==> al.start == offset
    ensures offset + maskSize >= BufferSize ==> al.start == 0
    ensures al.regionBefore == RegionOf(offset) && al.regionAfter == RegionOf(al.next)
    ensures 0 <= al.regionBefore < RegionCount && 0 <= al.regionAfter < RegionCount
  {
    var regionBefore := offset / RegionSize;
    var start := if offset + maskSize >= BufferSize then 0 else offset;
    var next := start + maskSize;
    Allocation(start, next, regionBefore, next / RegionSize)
  }

  /** A mask smaller than a region moves the bump position on by at most one region, in ring
      order, and every byte it occupies lies in the region before or the region after. */
  lemma SmallMaskRegions(offset: int, maskSize: int)
    requires 0 <= offset < BufferSize && 0 <= maskSize < RegionSize
    ensures var al := Allocate(offset, maskSize);
      && (al.regionAfter == al.regionBefore || al.regionAfter == (al.regionBefore + 1) % RegionCount)
      && forall x :: al.start <= x < al.next ==> RegionOf(x) == al.regionBefore || RegionOf(x) == al.regionAfter
  {
    var al := Allocate(offset, maskSize);
    if offset + maskSize >= BufferSize {
      assert al.regionBefore == RegionCount - 1;
      assert al.regionAfter == 0;
    }
  }

  /** The command queued for the native OGLMaskBuffer_QueueMaskBufferFence: fence
      `fenceRegion`, then wait for `waitRegion` when it is not -1. */
  datatype Command = MaskBufferFence(fenceRegion: int, waitRegion: int)

  /** The command a call of queueMaskQuad queues, given the pending flags before the call:
      one exactly when the mask leaves the region it started in. */
  function FenceCommand(al: Allocation, pending: seq<bool>): (cmd: Option<Command>)
    requires |pending| == RegionCount && 0 <= al.regionBefore < RegionCount
    ensures cmd.Some? <==> al.regionBefore != al.regionAfter
    ensures cmd.Some? ==>
      && cmd.value.fenceRegion == al.regionBefore
      && -1 <= cmd.value.waitRegion < RegionCount
      && cmd.value.waitRegion != cmd.value.fenceRegion
      && (cmd.value.waitRegion >= 0 <==> pending[(al.regionBefore + 2) % RegionCount])
      && (cmd.value.waitRegion >= 0 ==> cmd.value.waitRegion == (al.regionBefore + 2) % RegionCount)
  {
    if al.regionBefore == al.regionAfter then None
    else
      var waitRegion := (al.regionBefore + 2) % RegionCount;
      Some(MaskBufferFence(al.regionBefore, if pending[waitRegion] then waitRegion else -1))
  }

  /** A commands list holding the command, if any. */
  function Queued(cmd: Option<Command>): seq<Command>
  {
    if cmd.Some? then [cmd.value] else []
  }

  /** The setFenceAvailable calls delivered by one flush of the render queue name regions. */
  predicate CallbacksInRange(flushes: seq<seq<int>>)
  {
    forall k, j :: 0 <= k < |flushes| && 0 <= j < |flushes[k]| ==> 0 <= flushes[k][j] < RegionCount
  }

  /** Whether a flush of the render queue reports `region` available. */
  function Reports(region: int): seq<int> -> bool
  {
    callbacks => region in callbacks
  }

  /** The callbacks of consecutive flushes, in order. */
  function Flatten(flushes: seq<seq<int>>): (all: seq<int>)
    ensures forall x :: x in all <==> exists k :: 0 <= k < |flushes| && x in flushes[k]
  {
    if flushes == [] then []
    else
      var init := flushes[..|flushes| - 1];
      var all := Flatten(init) + flushes[|flushes| - 1];
      assert forall k :: 0 <= k < |init| ==> init[k] == flushes[k];
      all
  }

  /** The flags after setFenceAvailable has been called for each of `regions`, in order: each
      call clears one flag. */
  function Cleared(pending: seq<bool>, regions: seq<int>): (q: seq<bool>)
    ensures |q| == |pending|
  {
    if regions == [] then pending
    else
      var earlier := Cleared(pending, regions[..|regions| - 1]);
      var r := regions[|regions| - 1];
      if 0 <= r < |earlier| then earlier[r := false] else earlier
  }

  /** After the calls, a flag is set exactly when it was set before and no call named it. */
  lemma {:induction false} ClearedExactly(pending: seq<bool>, regions: seq<int>, i: int)
    requires 0 <= i < |pending|
    ensures Cleared(pending, regions)[i] <==> pending[i] && i !in regions
  {
    if regions != [] {
      var init := regions[..|regions| - 1];
      ClearedExactly(pending, init, i);
      assert regions == init + [regions[|regions| - 1]];
    }
  }

  /** Clearing in two batches clears what one batch of both would. */
  lemma {:induction false} ClearedTwice(pending: seq<bool>, first: seq<int>, second: seq<int>)
    ensures Cleared(Cleared(pending, first), second) == Cleared(pending, first + second)
  {
    if second == [] {
      assert first + second == first;
    } else {
      var init := second[..|second| - 1];
      ClearedTwice(pending, first, init);
      assert (first + second)[..|first + second| - 1] == first + init;
      assert (first + second)[|first + second| - 1] == second[|second| - 1];
    }
  }

  /** How many times the wait loop flushes the render queue before `region` is free: none when
      it is free already, otherwise up to and including the first flush that reports it. */
  function Spins(pending: seq<bool>, region: int, flushes: seq<seq<int>>): (n: nat)
    requires 0 <= region < |pending|
    requires pending[region] ==> Eventually(flushes, Reports(region))
    ensures n <= |flushes|
    ensures !pending[region] <==> n == 0
    ensures forall k :: 0 <= k < n - 1 ==> region !in flushes[k]
    ensures 0 < n ==> region in flushes[n - 1]
  {
    if pending[region] then FirstWhere(flushes, Reports(region)) + 1 else 0
  }

  /** The pending flags after a call of queueMaskQuad that placed `al`: on a crossing the region
      left behind is marked pending, then the flushes made while waiting clear what they report. */
  function PendingAfter(al: Allocation, pending: seq<bool>, flushes: seq<seq<int>>): (after: seq<bool>)
    requires |pending| == RegionCount
    requires 0 <= al.regionBefore < RegionCount && 0 <= al.regionAfter < RegionCount
    requires al.regionBefore != al.regionAfter && pending[al.regionAfter] ==> Eventually(flushes, Reports(al.regionAfter))
    ensures |after| == RegionCount
  {
    if al.regionBefore == al.regionAfter then pending
    else
      var marked := pending[al.regionBefore := true];
      Cleared(marked, Flatten(flushes[..Spins(marked, al.regionAfter, flushes)]))
  }

  /** After queueMaskQuad the region now being written is not pending; the region left behind on
      a crossing is pending unless a flush made while waiting already reported it; and no other
      region becomes pending. */
  lemma PendingAfterFreesTarget(al: Allocation, pending: seq<bool>, flushes: seq<seq<int>>)
    requires |pending| == RegionCount
    requires 0 <= al.regionBefore < RegionCount && 0 <= al.regionAfter < RegionCount
    requires al.regionBefore != al.regionAfter && pending[al.regionAfter] ==> Eventually(flushes, Reports(al.regionAfter))
    ensures var after := PendingAfter(al, pending, flushes);
      && |after| == RegionCount
      && (al.regionBefore == al.regionAfter ==> after == pending)
      && (al.regionBefore != al.regionAfter ==> !after[al.regionAfter])
      && (al.regionBefore != al.regionAfter ==>
            (after[al.regionBefore] <==>
               forall k :: 0 <= k < Spins(pending, al.regionAfter, flushes) ==> al.regionBefore !in flushes[k]))
      && (forall i :: 0 <= i < RegionCount && i != al.regionBefore && after[i] ==> pending[i])
  {
    if al.regionBefore != al.regionAfter {
      var marked := pending[al.regionBefore := true];
      var n := Spins(marked, al.regionAfter, flushes);
      assert n == Spins(pending, al.regionAfter, flushes);
      var consumed := flushes[..n];
      assert forall k :: 0 <= k < n ==> consumed[k] == flushes[k];
      forall i | 0 <= i < RegionCount {
        ClearedExactly(marked, Flatten(consumed), i);
      }
      if marked[al.regionAfter] {
        assert al.regionAfter in consumed[n - 1];
      }
    }
  }

  /** Offset in the mask array of row `i` of a mask with row stride `scan`. */
  function RowStart(off: int, scan: int, i: int): int
  {
    off + scan * i
  }

  /** Every byte the copy reads lies inside the mask array of length `len`. */
  predicate RowsInside(len: int, off: int, scan: int, w: int, h: int)
  {
    forall i :: 0 <= i < h && 0 < w ==> 0 <= RowStart(off, scan, i) && RowStart(off, scan, i) + w <= len
  }

  /** The `n` bytes of the mask array from `start`. */
  function Row(mask: seq<byte>, start: int, n: int): seq<byte>
    requires 0 <= n && (0 < n ==> 0 <= start && start + n <= |mask|)
  {
    seq(n, k requires 0 <= k < n => mask[start + k])
  }

  /** The first `h` rows of the mask, `w` bytes each, packed one after the other. */
  function Rows(mask: seq<byte>, off: int, scan: int, w: int, h: int): (r: seq<byte>)
    requires 0 <= w && 0 <= h && RowsInside(|mask|, off, scan, w, h)
    ensures |r| == h * w
  {
    if h == 0 then []
    else Rows(mask, off, scan, w, h - 1) + Row(mask, RowStart(off, scan, h - 1), w)
  }

  /** Row-major layout: byte (i, m) of the mask is byte i * w + m of the packed rows. */
  lemma {:induction false} RowsAt(mask: seq<byte>, off: int, scan: int, w: int, h: int, i: int, m: int)
    requires 0 <= w && 0 <= h && RowsInside(|mask|, off, scan, w, h)
    requires 0 <= i < h && 0 <= m < w
    ensures 0 <= i * w + m < h * w
    ensures Rows(mask, off, scan, w, h)[i * w + m] == mask[RowStart(off, scan, i) + m]
  {
    RowIndexBelow(i, m, w, h);
    var init := Rows(mask, off, scan, w, h - 1);
    if i < h - 1 {
      RowsAt(mask, off, scan, w, h - 1, i, m);
      assert Rows(mask, off, scan, w, h)[i * w + m] == init[i * w + m];
    } else {
      assert |init| == i * w;
    }
  }

  /** `s` with `t` written over it from `at` on. */
  function Splice<T>(s: seq<T>, at: int, t: seq<T>): (r: seq<T>)
    requires 0 <= at && at + |t| <= |s|
    ensures |r| == |s|
  {
    s[..at] + t + s[at + |t|..]
  }

  /** Writing the element after a spliced-in sequence extends the splice by that element. */
  lemma SpliceAppend<T>(s: seq<T>, at: int, t: seq<T>, x: T)
    requires 0 <= at && at + |t| < |s|
    ensures Splice(s, at, t)[at + |t| := x] == Splice(s, at, t + [x])
  {
  }

  /** Splicing `u` right after a spliced-in `t` splices in `t + u`. */
  lemma SpliceAfter<T>(s: seq<T>, at: int, t: seq<T>, u: seq<T>)
    requires 0 <= at && at + |t| + |u| <= |s|
    ensures Splice(Splice(s, at, t), at + |t|, u) == Splice(s, at, t + u)
  {
  }

  /** One step of the row copy: row i goes right after rows 0..i-1, inside the target and
      inside the mask, and together they are rows 0..i. */
  lemma RowsStep(orig: seq<byte>, at: int, ptr: int, mask: seq<byte>, off: int, scan: int, w: int, h: int, i: int)
    requires 0 <= w && 0 <= i < h && RowsInside(|mask|, off, scan, w, h)
    requires 0 <= at && at + h * w <= |orig| && ptr == at + i * w
    ensures RowsInside(|mask|, off, scan, w, i) && RowsInside(|mask|, off, scan, w, i + 1)
    ensures 0 <= ptr && ptr + w == at + (i + 1) * w <= |orig|
    ensures 0 < w ==> 0 <= RowStart(off, scan, i) && RowStart(off, scan, i) + w <= |mask|
    ensures Splice(Splice(orig, at, Rows(mask, off, scan, w, i)), ptr, Row(mask, RowStart(off, scan, i), w))
            == Splice(orig, at, Rows(mask, off, scan, w, i + 1))
  {
    MulMonotone(i + 1, h, w);
    assert 0 < w ==> 0 <= RowStart(off, scan, i) && RowStart(off, scan, i) + w <= |mask|;
    SpliceAfter(orig, at, Rows(mask, off, scan, w, i), Row(mask, RowStart(off, scan, i), w));
  }

  /** A row read one byte further. */
  lemma RowAppend(mask: seq<byte>, start: int, n: int)
    requires 0 <= start && 0 <= n && start + n < |mask|
    ensures Row(mask, start, n + 1) == Row(mask, start, n) + [mask[start + n]]
  {
  }

  /** The fragment shader finds each mask pixel where the copy put it. The tile data of the
      quad carries the start of the placed mask (never the "no mask" sentinel) and its width
      as the stride (as QuadTileData shows), and the shader's word-wise byte read at
      (relX, relY) returns byte (relY, relX) of the source mask. */
  lemma ShaderSeesMask(buf: seq<byte>, before: seq<byte>, start: int, ti: TileInfo,
                       mask: seq<byte>, off: int, scan: int, w: int, h: int, relX: int, relY: int)
    requires |before| == BufferSize && 0 <= w && 0 <= h && RowsInside(|mask|, off, scan, w, h)
    requires 0 <= start && start + w * h <= BufferSize
    requires buf == Splice(before, start, Rows(mask, off, scan, w, h))
    requires ti.maskOffset == ToUint(start) && ti.maskStride == ToUint(w)
    requires 0 <= relX < w && 0 <= relY < h
    ensures UsesMask(ti)
    ensures 0 <= ShaderByteOffset(ti, relX, relY) < |buf|
    ensures 4 * (ShaderByteOffset(ti, relX, relY) / 4) + 4 <= |buf|
    ensures ShaderMaskByte(buf, ShaderByteOffset(ti, relX, relY)) == mask[RowStart(off, scan, relY) + relX]
  {
    PlacedMaskByte(buf, before, start, mask, off, scan, w, h, relX, relY);
    MulMonotone(1, h, w);
    assert ti.maskOffset == start && ti.maskStride == w;
    ShaderReadsByte(buf, start + relY * w + relX);
  }

  /** Byte (relY, relX) of the mask lands at start + relY * w + relX of the buffer. */
  lemma PlacedMaskByte(buf: seq<byte>, before: seq<byte>, start: int,
                       mask: seq<byte>, off: int, scan: int, w: int, h: int, relX: int, relY: int)
    requires 0 <= w && 0 <= h && RowsInside(|mask|, off, scan, w, h)
    requires 0 <= start && start + w * h <= |before|
    requires buf == Splice(before, start, Rows(mask, off, scan, w, h))
    requires 0 <= relX < w && 0 <= relY < h
    ensures |buf| == |before| && 0 <= start + relY * w + relX < start + w * h
    ensures buf[start + relY * w + relX] == mask[RowStart(off, scan, relY) + relX]
  {
    RowsAt(mask, off, scan, w, h, relY, relX);
  }
}
