/** The static state of OGLMaskBuffer.c and the functions that change it: the vertex ring with
    its cursors and three region fences, the two attribute areas of the mapped vertex buffer,
    and the four fence slots of the mask buffer. Driver calls are recorded in `calls`. */
module NativeMaskBuffer {
  import opened Wrappers
  import opened Gl
  import opened VertexRing
  import opened QuadLayout

  /** maskSyncs has one slot per mask-buffer region. */
  const MaskRegions := 4

  class MaskCache {
    var vtxBufferSize: int
    var vtxPerArea: int
    var curVertPos: int
    var lastVertPos: int
    /** First half of the mapped vertex buffer: 4 floats per vertex. */
    var vtxPosAndSource: array<int>
    /** Second half of the mapped vertex buffer: 4 unsigned ints per vertex. */
    var tileDataVtx: array<int>
    var vtxSyncs: array<Option<Sync>>
    var maskSyncs: array<Option<Sync>>
    /** The driver's next fence name. */
    var syncNames: nat
    /** Every driver call made so far, and every call back into Java. */
    ghost var calls: seq<Call>

    /** The fence, if any, was handed out by the driver. */
    ghost predicate Issued(s: Option<Sync>)
      reads this`syncNames
    {
      s.Some? ==> s.value.name < syncNames
    }

    /** Layout of the state: sizes of the areas and slot arrays, the cursor invariant, and
        every stored fence issued by the driver. */
    ghost predicate Shape()
      reads this`vtxBufferSize, this`vtxPerArea, this`curVertPos, this`lastVertPos, this`syncNames
      reads this`vtxPosAndSource, this`tileDataVtx, this`vtxSyncs, this`maskSyncs, vtxSyncs, maskSyncs
    {
      && vtxPosAndSource != tileDataVtx && vtxSyncs != maskSyncs
      && vtxSyncs.Length == Regions && maskSyncs.Length == MaskRegions
      && vtxPosAndSource.Length == 4 * vtxBufferSize && tileDataVtx.Length == 4 * vtxBufferSize
      && CursorOk(Cursor(curVertPos, lastVertPos), vtxPerArea, vtxBufferSize)
      && (forall i :: 0 <= i < Regions ==> Issued(vtxSyncs[i]))
      && (forall i :: 0 <= i < MaskRegions ==> Issued(maskSyncs[i]))
    }

    /** The state invariant: besides its shape, the region being filled carries no fence, so
        the next region boundary never fences a region that still has one. */
    ghost predicate Valid()
      reads this`vtxBufferSize, this`vtxPerArea, this`curVertPos, this`lastVertPos, this`syncNames
      reads this`vtxPosAndSource, this`tileDataVtx, this`vtxSyncs, this`maskSyncs, vtxSyncs, maskSyncs
    {
      Shape() && vtxSyncs[CurRegion(curVertPos, vtxPerArea)] == None
    }

    /** allocateVertexBufferPtr: sizes the ring for `size` bytes and starts with empty cursors;
        the fence slots start out empty (zero-initialised statics). */
    constructor (size: int)
      requires Regions * QuadVertices * VertexBytes <= size
      ensures Valid()
      ensures fresh(vtxPosAndSource) && fresh(tileDataVtx) && fresh(vtxSyncs) && fresh(maskSyncs)
      ensures Capacity(vtxPerArea, vtxBufferSize) == RingCapacity(size)
      ensures curVertPos == 0 && lastVertPos == 0
      ensures vtxSyncs[..] == [None, None, None] && maskSyncs[..] == [None, None, None, None]
      ensures calls == []
    {
      var capacity := RingCapacity(size);
      CapacityUsable(size);
      vtxBufferSize := capacity.vtxBufferSize;
      vtxPerArea := capacity.vtxPerArea;
      vtxPosAndSource := new int[4 * capacity.vtxBufferSize];
      tileDataVtx := new int[4 * capacity.vtxBufferSize];
      vtxSyncs := new Option<Sync>[Regions](_ => None);
      maskSyncs := new Option<Sync>[MaskRegions](_ => None);
      curVertPos := 0;
      lastVertPos := 0;
      syncNames := 0;
      calls := [];
    }

    /** glFenceSync: a fence with a name not used before. */
    method NewFence() returns (s: Sync)
      requires Shape()
      modifies this`syncNames, this`calls
      ensures Shape()
      ensures s == Sync(old(syncNames)) && syncNames == old(syncNames) + 1
      ensures calls == old(calls) + [FenceSync(s)]
    {
      s := Sync(syncNames);
      syncNames := syncNames + 1;
      calls := calls + [FenceSync(s)];
    }

    /** waitForFence: poll glClientWaitSync until it answers ALREADY_SIGNALED or
        CONDITION_SATISFIED, then delete the fence. `replies` are the driver's answers in order. */
    method WaitForFence(sync: Sync, replies: seq<WaitStatus>)
      requires SignalsEventually(replies)
      modifies this`calls
      ensures calls == old(calls) + WaitTrace(sync, replies)
    {
      ghost var n := Attempts(replies);
      var i := 0;
      var waitReturn := replies[i];
      calls := calls + [ClientWaitSync(sync, waitReturn)];
      i := i + 1;
      while waitReturn != AlreadySignaled && waitReturn != ConditionSatisfied
        invariant 1 <= i <= n
        invariant waitReturn == replies[i - 1]
        invariant calls == old(calls) + Polls(sync, replies[..i])
        decreases n - i
      {
        assert !Signalled(replies[i - 1]);
        waitReturn := replies[i];
        assert Polls(sync, replies[..i + 1]) == Polls(sync, replies[..i]) + [ClientWaitSync(sync, waitReturn)];
        calls := calls + [ClientWaitSync(sync, waitReturn)];
        i := i + 1;
      }
      assert Signalled(replies[i - 1]);
      calls := calls + [DeleteSync(sync)];
    }

    /** OGLMaskBuffer_FlushMaskCache: draw the pending vertices [lastVertPos, curVertPos). */
    method FlushMaskCache()
      requires Valid()
      modifies this`curVertPos, this`lastVertPos, this`calls
      ensures Valid()
      ensures var f := Flush(Cursor(old(curVertPos), old(lastVertPos)), vtxBufferSize);
        Cursor(curVertPos, lastVertPos) == f.cursor && calls == old(calls) + f.calls
    {
      FlushSubmitsPending(Cursor(curVertPos, lastVertPos), vtxPerArea, vtxBufferSize);
      FlushKeepsRegion(Cursor(curVertPos, lastVertPos), vtxPerArea, vtxBufferSize);
      var vertexCnt := curVertPos - lastVertPos;
      if vertexCnt > 0 {
        calls := calls + [DrawArrays(lastVertPos, vertexCnt)];
        if curVertPos == vtxBufferSize {
          curVertPos := 0;
        }
        lastVertPos := curVertPos;
      }
    }

    /** OGLMaskBuffer_DisableMaskBuffer, of which only the final flush is modelled. */
    method DisableMaskBuffer()
      requires Valid()
      modifies this`curVertPos, this`lastVertPos, this`calls
      ensures Valid()
      ensures var f := Flush(Cursor(old(curVertPos), old(lastVertPos)), vtxBufferSize);
        Cursor(curVertPos, lastVertPos) == f.cursor && calls == old(calls) + f.calls
    {
      FlushMaskCache();
    }

    /** OGLMaskBuffer_QueueMaskBufferFence: flush, fence mask region `fenceRegion` (dropping
        whatever fence was there), and when `waitRegion >= 0` wait for that region's fence,
        clear its slot and tell Java the region is free. */
    method QueueMaskBufferFence(fenceRegion: int, waitRegion: int, replies: seq<WaitStatus>)
      requires Valid() && SignalsEventually(replies)
      requires 0 <= fenceRegion < MaskRegions && waitRegion < MaskRegions
      requires 0 <= waitRegion && waitRegion != fenceRegion ==> maskSyncs[waitRegion] != None
      modifies this`curVertPos, this`lastVertPos, this`syncNames, this`calls, maskSyncs
      ensures Valid()
      ensures var f := Flush(Cursor(old(curVertPos), old(lastVertPos)), vtxBufferSize);
              var fence := Sync(old(syncNames));
              var placed := old(maskSyncs[..])[fenceRegion := Some(fence)];
        && Cursor(curVertPos, lastVertPos) == f.cursor
        && syncNames == old(syncNames) + 1
        && (waitRegion < 0 ==>
              && maskSyncs[..] == placed
              && calls == old(calls) + f.calls + [FenceSync(fence)] + [GlFlush])
        && (0 <= waitRegion ==>
              && placed[waitRegion].Some?
              && maskSyncs[..] == placed[waitRegion := None]
              && calls == old(calls) + f.calls + [FenceSync(fence)] + [GlFlush]
                          + WaitTrace(placed[waitRegion].value, replies) + [SetFenceAvailable(waitRegion)])
    {
      FlushMaskCache();
      FenceMaskRegion(fenceRegion);
      if waitRegion >= 0 {
        ReleaseMaskRegion(waitRegion, replies);
      }
    }

    /** The fence half of QueueMaskBufferFence: a new fence on mask region `fenceRegion`, then
        glFlush so that the GPU sees it. */
    method FenceMaskRegion(fenceRegion: int)
      requires Valid() && 0 <= fenceRegion < MaskRegions
      modifies this`syncNames, this`calls, maskSyncs
      ensures Valid()
      ensures syncNames == old(syncNames) + 1
      ensures maskSyncs[..] == old(maskSyncs[..])[fenceRegion := Some(Sync(old(syncNames)))]
      ensures calls == old(calls) + [FenceSync(Sync(old(syncNames)))] + [GlFlush]
    {
      var fence := NewFence();
      maskSyncs[fenceRegion] := Some(fence);
      calls := calls + [GlFlush];
    }

    /** The wait half of QueueMaskBufferFence: wait for the fence of mask region `waitRegion`,
        clear its slot and tell Java the region is free. */
    method ReleaseMaskRegion(waitRegion: int, replies: seq<WaitStatus>)
      requires Valid() && SignalsEventually(replies)
      requires 0 <= waitRegion < MaskRegions && maskSyncs[waitRegion] != None
      modifies this`calls, maskSyncs
      ensures Valid()
      ensures maskSyncs[..] == old(maskSyncs[..])[waitRegion := None]
      ensures calls == old(calls) + WaitTrace(old(maskSyncs[waitRegion]).value, replies) + [SetFenceAvailable(waitRegion)]
    {
      WaitForFence(maskSyncs[waitRegion].value, replies);
      maskSyncs[waitRegion] := None;
      calls := calls + [SetFenceAvailable(waitRegion)];
    }

    /** The cursor may advance by one quad into a region that carries no fence. */
    ghost predicate ReadyForQuad()
      reads this`vtxBufferSize, this`vtxPerArea, this`curVertPos, this`lastVertPos, this`syncNames
      reads this`vtxPosAndSource, this`tileDataVtx, this`vtxSyncs, this`maskSyncs, vtxSyncs, maskSyncs
    {
      && Shape()
      && CursorOk(Cursor(curVertPos + QuadVertices, lastVertPos), vtxPerArea, vtxBufferSize)
      && vtxSyncs[CurRegion(curVertPos + QuadVertices, vtxPerArea)] == None
    }

    /** The region-boundary step of queueMaskQuad: flush, fence the region just filled, and
        wait for (then clear) the fence of the region about to be overwritten. */
    method CrossRegionBoundary(replies: seq<WaitStatus>)
      requires Valid() && SignalsEventually(replies) && curVertPos % vtxPerArea == 0
      modifies this`curVertPos, this`lastVertPos, this`syncNames, this`calls, vtxSyncs
      ensures ReadyForQuad()
      ensures var c := Cursor(old(curVertPos), old(lastVertPos));
              var n := NextRegion(c, vtxPerArea, vtxBufferSize);
              var fence := Sync(old(syncNames));
        && Cursor(curVertPos, lastVertPos) == WriteCursor(c, vtxPerArea, vtxBufferSize)
        && 0 <= n < Regions
        && old(vtxSyncs[(n + 2) % Regions]) == None
        && syncNames == old(syncNames) + 1
        && vtxSyncs[..] == old(vtxSyncs[..])[(n + 2) % Regions := Some(fence)][n := None]
        && calls == (var fenced := old(calls) + Flush(c, vtxBufferSize).calls + [FenceSync(fence)];
                     if old(vtxSyncs[n]).Some? then fenced + WaitTrace(old(vtxSyncs[n]).value, replies) else fenced)
    {
      ghost var c := Cursor(curVertPos, lastVertPos);
      BoundaryRegions(c, vtxPerArea, vtxBufferSize);
      AfterQuadOk(c, vtxPerArea, vtxBufferSize);
      FlushMaskCache();
      var nextRegion := curVertPos / vtxPerArea;
      var lastRegion := (nextRegion + 2) % 3;
      if vtxSyncs[lastRegion] != None {
        // the source prints "Sync was in progress!" here; the region invariant rules it out
        assert false;
      }
      FenceAndWait(lastRegion, nextRegion, replies);
    }

    /** The fence step of a region boundary: fence `lastRegion`, then wait for the fence of
        `nextRegion`, if it has one, and clear its slot. */
    method FenceAndWait(lastRegion: int, nextRegion: int, replies: seq<WaitStatus>)
      requires Shape() && SignalsEventually(replies)
      requires 0 <= lastRegion < Regions && 0 <= nextRegion < Regions && lastRegion != nextRegion
      modifies this`syncNames, this`calls, vtxSyncs
      ensures Shape()
      ensures syncNames == old(syncNames) + 1
      ensures vtxSyncs[..] == old(vtxSyncs[..])[lastRegion := Some(Sync(old(syncNames)))][nextRegion := None]
      ensures calls == (var fenced := old(calls) + [FenceSync(Sync(old(syncNames)))];
                        if old(vtxSyncs[nextRegion]).Some? then fenced + WaitTrace(old(vtxSyncs[nextRegion]).value, replies)
                        else fenced)
    {
      var fence := NewFence();
      vtxSyncs[lastRegion] := Some(fence);
      var nextSync := vtxSyncs[nextRegion];
      if nextSync != None {
        WaitForFence(nextSync.value, replies);
        vtxSyncs[nextRegion] := None;
      }
    }

    /** queueMaskQuad: on a region boundary flush, fence the region just filled and wait until
        the GPU is done with the region about to be overwritten; then write the quad's four
        vertices at curVertPos and advance it by one quad. */
    method QueueMaskQuad(dstX: int, dstY: int, w: int, h: int, maskOffset: int,
                         r: int, g: int, b: int, a: int, setColor: bool, replies: seq<WaitStatus>)
      requires Valid() && SignalsEventually(replies)
      modifies this`curVertPos, this`lastVertPos, this`syncNames, this`calls
      modifies vtxSyncs, vtxPosAndSource, tileDataVtx
      ensures Valid()
      ensures var c := Cursor(old(curVertPos), old(lastVertPos));
              var p := WriteCursor(c, vtxPerArea, vtxBufferSize).cur;
              var q := Quad(dstX, dstY, w, h, maskOffset);
        && Cursor(curVertPos, lastVertPos) == AfterQuad(c, vtxPerArea, vtxBufferSize)
        && 0 <= 4 * p && 4 * p + 16 <= 4 * vtxBufferSize
        && vtxPosAndSource[..] == Place(old(vtxPosAndSource[..]), 4 * p,
                                        PositionWrites(q, if setColor then Some(Rgba(r, g, b, a)) else None))
        && tileDataVtx[..] == Place(old(tileDataVtx[..]), 4 * p, TileWrites(q))
      ensures old(curVertPos) % vtxPerArea != 0 ==>
        vtxSyncs[..] == old(vtxSyncs[..]) && syncNames == old(syncNames) && calls == old(calls)
      ensures old(curVertPos) % vtxPerArea == 0 ==>
        var c := Cursor(old(curVertPos), old(lastVertPos));
        var n := NextRegion(c, vtxPerArea, vtxBufferSize);
        var fence := Sync(old(syncNames));
        && 0 <= n < Regions
        && old(vtxSyncs[(n + 2) % Regions]) == None
        && syncNames == old(syncNames) + 1
        && vtxSyncs[..] == old(vtxSyncs[..])[(n + 2) % Regions := Some(fence)][n := None]
        && calls == (var fenced := old(calls) + Flush(c, vtxBufferSize).calls + [FenceSync(fence)];
                     if old(vtxSyncs[n]).Some? then fenced + WaitTrace(old(vtxSyncs[n]).value, replies) else fenced)
    {
      PrepareQuad(replies);
      ghost var syncs, names, log := vtxSyncs[..], syncNames, calls;
      QuadFits(Cursor(old(curVertPos), old(lastVertPos)), vtxPerArea, vtxBufferSize);
      StoreQuad(Quad(dstX, dstY, w, h, maskOffset), if setColor then Some(Rgba(r, g, b, a)) else None);
      assert vtxSyncs[..] == syncs && syncNames == names && calls == log;
    }

    /** The first half of queueMaskQuad: the region-boundary step when the cursor sits on a
        boundary; in both cases the cursor may then advance by one quad. */
    method PrepareQuad(replies: seq<WaitStatus>)
      requires Valid() && SignalsEventually(replies)
      modifies this`curVertPos, this`lastVertPos, this`syncNames, this`calls, vtxSyncs
      ensures ReadyForQuad()
      ensures var c := Cursor(old(curVertPos), old(lastVertPos));
        && Cursor(curVertPos, lastVertPos) == WriteCursor(c, vtxPerArea, vtxBufferSize)
        && AfterQuad(c, vtxPerArea, vtxBufferSize) == Cursor(curVertPos + QuadVertices, lastVertPos)
      ensures old(curVertPos) % vtxPerArea != 0 ==>
        vtxSyncs[..] == old(vtxSyncs[..]) && syncNames == old(syncNames) && calls == old(calls)
      ensures old(curVertPos) % vtxPerArea == 0 ==>
        var c := Cursor(old(curVertPos), old(lastVertPos));
        var n := NextRegion(c, vtxPerArea, vtxBufferSize);
        var fence := Sync(old(syncNames));
        && 0 <= n < Regions
        && old(vtxSyncs[(n + 2) % Regions]) == None
        && syncNames == old(syncNames) + 1
        && vtxSyncs[..] == old(vtxSyncs[..])[(n + 2) % Regions := Some(fence)][n := None]
        && calls == (var fenced := old(calls) + Flush(c, vtxBufferSize).calls + [FenceSync(fence)];
                     if old(vtxSyncs[n]).Some? then fenced + WaitTrace(old(vtxSyncs[n]).value, replies) else fenced)
    {
      ghost var c := Cursor(curVertPos, lastVertPos);
      if curVertPos % vtxPerArea == 0 {
        CrossRegionBoundary(replies);
      } else {
        InteriorQuadKeepsRegion(c, vtxPerArea, vtxBufferSize);
        AfterQuadOk(c, vtxPerArea, vtxBufferSize);
      }
    }

    /** The vertex writes of queueMaskQuad at curVertPos, and the advance by one quad. */
    method StoreQuad(q: Quad, color: Option<Rgba>)
      requires ReadyForQuad()
      modifies this`curVertPos, vtxPosAndSource, tileDataVtx
      ensures Valid()
      ensures curVertPos == old(curVertPos) + QuadVertices
      ensures vtxPosAndSource[..] == Place(old(vtxPosAndSource[..]), 4 * old(curVertPos), PositionWrites(q, color))
      ensures tileDataVtx[..] == Place(old(tileDataVtx[..]), 4 * old(curVertPos), TileWrites(q))
    {
      StorePositions(vtxPosAndSource, 4 * curVertPos, q, color);
      StoreTileData(tileDataVtx, curVertPos * 4, q);
      curVertPos := curVertPos + 4;
    }
  }

  /** The position stores of queueMaskQuad through `vert = &vtxPosAndSource[4 * curVertPos]`:
      the four corners in winding order, and the packed colour on the provoking vertex only. */
  method StorePositions(vert: array<int>, at: int, q: Quad, color: Option<Rgba>)
    requires 0 <= at && at + 16 <= vert.Length
    modifies vert
    ensures vert[..] == Place(old(vert[..]), at, PositionWrites(q, color))
  {
    PositionStores(vert[..], at, q, color);
    var dstX2 := q.dstX + q.w;
    var dstY2 := q.dstY + q.h;
    vert[at] := q.dstX;
    vert[at + 1] := q.dstY;
    vert[at + 4] := dstX2;
    vert[at + 5] := q.dstY;
    vert[at + 8] := dstX2;
    vert[at + 9] := dstY2;
    vert[at + 12] := q.dstX;
    vert[at + 13] := dstY2;
    // flat shading: only the provoking (last) vertex carries colour
    if color.Some? {
      vert[at + 14] := color.value.g * 256 + color.value.r;
      vert[at + 15] := color.value.a * 256 + color.value.b;
    }
  }

  /** The tile-data stores of queueMaskQuad through `tileData = &tileDataVtx[curVertPos * 4]`:
      bounding box origin, mask offset and mask stride (the width), on the provoking vertex. */
  method StoreTileData(tileData: array<int>, at: int, q: Quad)
    requires 0 <= at && at + 16 <= tileData.Length
    modifies tileData
    ensures tileData[..] == Place(old(tileData[..]), at, TileWrites(q))
  {
    TileStores(tileData[..], at, q);
    tileData[at + 12] := ToUint(q.dstX);
    tileData[at + 13] := ToUint(q.dstY);
    tileData[at + 14] := ToUint(q.maskOffset);
    tileData[at + 15] := ToUint(q.w);
  }
}
