/** The Java half of the turbo mask fill (OGLMaskBuffer.java): a bump allocator over the
    four-region mask buffer that copies each mask in, sends a MASK_BUFFER_FENCE command when it
    leaves a region, and waits until the region it enters is no longer pending. */
module JavaMaskBuffer {
  import opened Wrappers
  import opened Seqs
  import opened Arith
  import opened QuadLayout
  import opened MaskRegions

  /** The part of the render queue queueMaskQuad uses: the commands put into its buffer. */
  class RenderQueue {
    var commands: seq<Command>

    constructor ()
      ensures commands == []
    {
      commands := [];
    }

    /** putInt(MASK_BUFFER_FENCE), putInt(fenceRegion), putInt(waitRegion). */
    method PutFence(cmd: Command)
      modifies this
      ensures commands == old(commands) + [cmd]
    {
      commands := commands + [cmd];
    }
  }

  class MaskBuffer {
    var currentBufferOffset: int
    /** One flag per region: a fence was requested for it and has not been reported passed. */
    var pendingFences: array<bool>
    /** The mapped mask buffer. */
    var maskBuffer: array<byte>

    /** The bump position lies in the buffer, and the region it lies in is never pending: it
        was waited for when the allocator entered it and is only fenced when it leaves. */
    ghost predicate Valid()
      reads this, pendingFences
    {
      && pendingFences.Length == RegionCount && maskBuffer.Length == BufferSize
      && 0 <= currentBufferOffset < BufferSize
      && !pendingFences[RegionOf(currentBufferOffset)]
    }

    /** The constructor with the static flag array's initial state. */
    constructor ()
      ensures Valid() && fresh(pendingFences) && fresh(maskBuffer)
      ensures currentBufferOffset == 0
      ensures pendingFences[..] == [false, false, false, false]
    {
      currentBufferOffset := 0;
      pendingFences := new bool[RegionCount](_ => false);
      maskBuffer := new byte[BufferSize];
    }

    /** setFenceAvailable: the native side reports that the GPU has passed the fence of
        `fenceNum`. */
    method SetFenceAvailable(fenceNum: int)
      requires pendingFences.Length == RegionCount && 0 <= fenceNum < RegionCount
      modifies pendingFences
      ensures pendingFences[..] == old(pendingFences[..])[fenceNum := false]
    {
      pendingFences[fenceNum] := false;
    }

    /** The wait loop of queueMaskQuad: flush the render queue until `region` is not pending.
        `flushes` lists, per flush, the regions the native side reports available during it. */
    method AwaitRegion(region: int, flushes: seq<seq<int>>)
      requires pendingFences.Length == RegionCount && 0 <= region < RegionCount
      requires CallbacksInRange(flushes)
      requires pendingFences[region] ==> Eventually(flushes, Reports(region))
      modifies pendingFences
      ensures pendingFences[..] == Cleared(old(pendingFences[..]),
                                           Flatten(flushes[..Spins(old(pendingFences[..]), region, flushes)]))
    {
      ghost var before := pendingFences[..];
      ghost var n := Spins(before, region, flushes);
      var nextRegionPending := pendingFences[region];
      var k := 0;
      assert flushes[..0] == [];
      while nextRegionPending
        invariant 0 <= k <= n
        invariant pendingFences[..] == Cleared(before, Flatten(flushes[..k]))
        invariant nextRegionPending == pendingFences[region]
        invariant nextRegionPending <==> k < n
        decreases n - k
      {
        FlushNow(flushes[k]);
        ClearedTwice(before, Flatten(flushes[..k]), flushes[k]);
        assert flushes[..k + 1][..k] == flushes[..k];
        ClearedExactly(before, Flatten(flushes[..k + 1]), region);
        nextRegionPending := pendingFences[region];
        k := k + 1;
      }
    }

    /** queue.flushNow(), as far as this class sees it: the native side calls
        setFenceAvailable for each region in `callbacks`, in order. */
    method FlushNow(callbacks: seq<int>)
      requires pendingFences.Length == RegionCount
      requires forall j :: 0 <= j < |callbacks| ==> 0 <= callbacks[j] < RegionCount
      modifies pendingFences
      ensures pendingFences[..] == Cleared(old(pendingFences[..]), callbacks)
    {
      ghost var before := pendingFences[..];
      var j := 0;
      while j < |callbacks|
        invariant 0 <= j <= |callbacks|
        invariant pendingFences[..] == Cleared(before, callbacks[..j])
      {
        SetFenceAvailable(callbacks[j]);
        assert callbacks[..j + 1][..j] == callbacks[..j];
        j := j + 1;
      }
      assert callbacks[..j] == callbacks;
    }

    /** queueMaskQuad: place a w-by-h mask (when there is one), send the fence command and wait
        if that leaves a region, copy the mask in row by row, and return its offset. */
    method QueueMaskQuad(queue: RenderQueue, w: int, h: int, mask: array?<byte>, maskScan: int, maskOff: int,
                         flushes: seq<seq<int>>) returns (offset: int)
      requires Valid()
      requires mask != null ==>
        && mask != maskBuffer
        && 0 <= w && 0 <= h && w * h < BufferSize
        && RowsInside(mask.Length, maskOff, maskScan, w, h)
      requires CallbacksInRange(flushes)
      requires mask != null && 0 <= w && 0 <= h && w * h < BufferSize ==>
        var al := Allocate(currentBufferOffset, w * h);
        al.regionBefore != al.regionAfter && pendingFences[al.regionAfter] ==>
          Eventually(flushes, Reports(al.regionAfter))
      modifies this, pendingFences, maskBuffer, queue
      ensures Valid()
      ensures pendingFences == old(pendingFences) && maskBuffer == old(maskBuffer)
      ensures mask == null ==>
        && offset == currentBufferOffset == old(currentBufferOffset)
        && pendingFences[..] == old(pendingFences[..])
        && maskBuffer[..] == old(maskBuffer[..])
        && queue.commands == old(queue.commands)
      ensures mask != null ==>
        var al := Allocate(old(currentBufferOffset), w * h);
        && offset == al.start && currentBufferOffset == al.next
        && queue.commands == old(queue.commands) + Queued(FenceCommand(al, old(pendingFences[..])))
        && pendingFences[..] == PendingAfter(al, old(pendingFences[..]), flushes)
        && maskBuffer[..] == Splice(old(maskBuffer[..]), al.start, Rows(mask[..], maskOff, maskScan, w, h))
    {
      offset := currentBufferOffset;
      if mask != null {
        offset := Reserve(queue, w * h, flushes);
        CopyRows(maskBuffer, offset, mask, maskOff, maskScan, w, h);
      }
    }

    /** The first half of queueMaskQuad for a mask of `maskSize` bytes: place it (wrapping to
        the start when it does not fit before the end), and when that leaves a region send the
        fence command and wait until the region entered is free. */
    method Reserve(queue: RenderQueue, maskSize: int, flushes: seq<seq<int>>) returns (start: int)
      requires Valid() && 0 <= maskSize < BufferSize && CallbacksInRange(flushes)
      requires var al := Allocate(currentBufferOffset, maskSize);
        al.regionBefore != al.regionAfter && pendingFences[al.regionAfter] ==>
          Eventually(flushes, Reports(al.regionAfter))
      modifies this`currentBufferOffset, pendingFences, queue
      ensures Valid()
      ensures var al := Allocate(old(currentBufferOffset), maskSize);
        && start == al.start && currentBufferOffset == al.next
        && queue.commands == old(queue.commands) + Queued(FenceCommand(al, old(pendingFences[..])))
        && pendingFences[..] == PendingAfter(al, old(pendingFences[..]), flushes)
    {
      ghost var al := Allocate(currentBufferOffset, maskSize);
      ghost var before := pendingFences[..];
      start := currentBufferOffset;
      var regionBefore := currentBufferOffset / RegionSize;
      if currentBufferOffset + maskSize >= BufferSize {
        currentBufferOffset := 0;
        start := 0;
      }
      currentBufferOffset := currentBufferOffset + maskSize;
      var regionAfter := currentBufferOffset / RegionSize;
      if regionBefore != regionAfter {
        var waitRegion := (regionBefore + 2) % RegionCount;
        if !pendingFences[waitRegion] {
          waitRegion := -1;
        }
        queue.PutFence(MaskBufferFence(regionBefore, waitRegion));
        pendingFences[regionBefore] := true;
        AwaitRegion(regionAfter, flushes);
        PendingAfterFreesTarget(al, before, flushes);
      }
    }
  }

  /** The nested copy loop of queueMaskQuad: row i of the mask, `w` bytes from
      maskOff + maskScan * i, goes right after row i - 1 from `at` on. */
  method CopyRows(dst: array<byte>, at: int, mask: array<byte>, maskOff: int, maskScan: int, w: int, h: int)
    requires dst != mask && 0 <= w && 0 <= h && RowsInside(mask.Length, maskOff, maskScan, w, h)
    requires 0 <= at && at + w * h <= dst.Length
    modifies dst
    ensures dst[..] == Splice(old(dst[..]), at, Rows(mask[..], maskOff, maskScan, w, h))
  {
    ghost var orig, src := dst[..], mask[..];
    var maskBuffPtr := at;
    var i := 0;
    while i < h
      invariant 0 <= i <= h
      invariant maskBuffPtr == at + i * w
      invariant mask[..] == src
      invariant dst[..] == Splice(orig, at, Rows(src, maskOff, maskScan, w, i))
    {
      RowsStep(orig, at, maskBuffPtr, src, maskOff, maskScan, w, h, i);
      CopyRow(dst, maskBuffPtr, mask, src, RowStart(maskOff, maskScan, i), w);
      maskBuffPtr := maskBuffPtr + w;
      i := i + 1;
    }
  }

  /** The inner loop of the copy: `w` bytes of the mask from `rowStart` go to `dst` from `at` on,
      advancing the buffer pointer by one byte per byte copied. */
  method CopyRow(dst: array<byte>, at: int, mask: array<byte>, ghost src: seq<byte>, rowStart: int, w: int)
    requires dst != mask && mask[..] == src && 0 <= w && 0 <= at && at + w <= dst.Length
    requires 0 < w ==> 0 <= rowStart && rowStart + w <= mask.Length
    modifies dst
    ensures mask[..] == src
    ensures dst[..] == Splice(old(dst[..]), at, Row(src, rowStart, w))
  {
    ghost var orig := dst[..];
    var maskBuffPtr := at;
    var m := 0;
    assert Row(src, rowStart, 0) == [];
    while m < w
      invariant 0 <= m <= w
      invariant maskBuffPtr == at + m
      invariant dst[..] == Splice(orig, at, Row(src, rowStart, m))
    {
      RowAppend(src, rowStart, m);
      SpliceAppend(orig, at, Row(src, rowStart, m), src[rowStart + m]);
      dst[maskBuffPtr] := mask[rowStart + m];
      maskBuffPtr := maskBuffPtr + 1;
      m := m + 1;
    }
    assert mask[..] == src;
  }
}
