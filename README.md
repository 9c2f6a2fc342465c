# OpenGL turbo mask fill: the CPU-side bookkeeping

This project models, in Dafny, the part of the OpenGL "turbo" mask fill that decides where
data goes and when the CPU may overwrite memory the GPU may still be reading. It has two
halves.

The native half (`OGLMaskBuffer.c`) streams mask quads into a persistently mapped vertex ring.
- The ring is split into three regions, each a whole number of quads.
- Pending vertices are drawn with one `glDrawArrays` per flush.
- When the write cursor reaches a region boundary, the region just filled gets a fence, and
  the code waits until the GPU has passed the fence of the region about to be overwritten.
- Each quad writes four corners into the position area, a packed colour on the provoking
  vertex, and the box origin, mask offset and stride into the tile area.
- The mask buffer has a second fence domain of four slots, driven from Java through
  `QueueMaskBufferFence`.

The Java half (`OGLMaskBuffer.java`) is a bump allocator over the 4 MiB mask buffer.
- The buffer is split into four regions of 1 MiB.
- When a mask leaves a region, the allocator queues a `MASK_BUFFER_FENCE` command, marks that
  region pending, and flushes the render queue until the native side reports that the region
  it enters is free again.
- It then copies the mask row by row.

What the proofs establish:
- The ring sizing wastes less than one quad per region.
- A flush draws exactly the pending vertices and never past the ring's end, and a second flush
  does nothing.
- The cursor invariant holds, and every quad is written inside one region.
- The fence placed at a boundary always lands on an empty slot. This makes the "Sync was in
  progress" branch unreachable.
- `waitForFence` retries every answer except the two success codes and deletes the fence once.
- The colour pack and its decode in the vertex shader are a round trip.
- The Java fence command is sent exactly on a region crossing and has the right wait region.
- After the wait, the region entered is not pending.
- The fragment shader's word-wise read at (x, y) returns byte (y, x) of the source mask.

Modules:
- `Wrappers` (`wrappers.dfy`) and `Seqs` (`seqs.dfy`): helpers.
- `Arith` (`arith.dfy`): the division and multiplication facts the ring and region arithmetic
  needs.
- `Gl` (`gl.dfy`): fence handles, `glClientWaitSync` answers, and the log of driver calls and
  callbacks into Java.
- `VertexRing` (`vertex_ring.dfy`): ring capacity, the cursors, flushing and regions.
- `QuadLayout` (`quad_layout.dfy`): the vertex layout of one quad and the shader decodes.
- `NativeMaskBuffer` (`native_mask_buffer.dfy`): class `MaskCache`, holding the static state of
  the C file and the functions that update it.
- `MaskRegions` (`mask_regions.dfy`): the Java constants and the pure rules of
  `queueMaskQuad`.
- `JavaMaskBuffer` (`mask_buffer.dfy`): class `MaskBuffer`, with `RenderQueue` as the part of
  the render queue that `queueMaskQuad` uses.

Inputs from outside the model are parameters:
- The driver's answers to `glClientWaitSync` are a sequence `replies`.
- The `setFenceAvailable` callbacks each render-queue flush delivers are a sequence of
  sequences, `flushes`.
- Both come with a requirement that the awaited event eventually happens. This is the only
  assumption about GPU progress.

Paths in the table are relative to the repository root.

## Model

| member | source | states |
|---|---|---|
| VertexRing.RingCapacity | src/java.desktop/share/native/common/java2d/opengl/OGLMaskBuffer.c:243-249 | The capacity is three regions of a quad-aligned vertex count. It fits in `size` bytes, and less than one quad per region of the buffer is discarded. |
| VertexRing.CapacityUsable | src/java.desktop/share/native/common/java2d/opengl/OGLMaskBuffer.c:243-247 | The regions are non-empty if and only if the buffer holds at least one quad per region (384 bytes). |
| VertexRing.Flush | src/java.desktop/share/native/common/java2d/opengl/OGLMaskBuffer.c:67-83 | With pending vertices, one draw of `[lastVertPos, curVertPos)` is made and nothing stays pending. Without pending vertices, there is no call and no change. |
| VertexRing.FlushSubmitsPending | src/java.desktop/share/native/common/java2d/opengl/OGLMaskBuffer.c:67-83 | A flush keeps the cursor invariant. It makes at most one draw, of a positive whole number of quads, ending inside the ring, and the flushed position is never the ring's end. |
| VertexRing.FlushIdempotent | src/java.desktop/share/native/common/java2d/opengl/OGLMaskBuffer.c:62-84 | A second flush right after a first draws nothing and moves nothing. |
| VertexRing.FlushCursor | src/java.desktop/share/native/common/java2d/opengl/OGLMaskBuffer.c:78-82 | After a flush both cursors sit at the old write position, except that a write position at the end of the ring becomes 0. |
| VertexRing.FlushKeepsRegion | src/java.desktop/share/native/common/java2d/opengl/OGLMaskBuffer.c:78-82 | The wrap to 0 at the ring's end does not change which region counts as being filled. |
| VertexRing.CurRegion | src/java.desktop/share/native/common/java2d/opengl/OGLMaskBuffer.c:324-325 | Every cursor inside the ring names one of the three regions. |
| VertexRing.WriteCursor | src/java.desktop/share/native/common/java2d/opengl/OGLMaskBuffer.c:318-322 | Off a boundary the cursors are left alone. On a boundary the write position only moves by the wrap from the ring's end to 0. |
| VertexRing.WriteCursorOk | src/java.desktop/share/native/common/java2d/opengl/OGLMaskBuffer.c:318-322 | The position a quad is written at keeps the cursor invariant and lies below the ring's end. On a boundary nothing is left pending before the quad. |
| VertexRing.NextRegion | src/java.desktop/share/native/common/java2d/opengl/OGLMaskBuffer.c:324 | For every cursor inside the ring, `nextRegion` is one of the three regions. |
| VertexRing.AfterQuad | src/java.desktop/share/native/common/java2d/opengl/OGLMaskBuffer.c:373 | After a quad the pending vertices are the quad alone when the cursor was on a boundary, and otherwise the old pending vertices plus the quad. |
| VertexRing.QuadFits | src/java.desktop/share/native/common/java2d/opengl/OGLMaskBuffer.c:345-373 | The quad's four vertices lie inside the ring and inside one region, and its 16 floats lie inside the attribute area. |
| VertexRing.AfterQuadOk | src/java.desktop/share/native/common/java2d/opengl/OGLMaskBuffer.c:373 | A quad advances the write position by exactly four vertices and keeps the cursor invariant. |
| VertexRing.BoundaryRegions | src/java.desktop/share/native/common/java2d/opengl/OGLMaskBuffer.c:318-325 | On a boundary, `nextRegion` is 0..2 and the write position is its start. `lastRegion` is the region just filled, and the quad is written into `nextRegion`. |
| VertexRing.InteriorQuadKeepsRegion | src/java.desktop/share/native/common/java2d/opengl/OGLMaskBuffer.c:315-374 | Off a boundary, a quad stays in the region being filled. |
| QuadLayout.PackColor | src/java.desktop/share/native/common/java2d/opengl/OGLMaskBuffer.c:363-364 | `(g << 8) + r` and `(a << 8) + b` of 8-bit channels stay below 2^16, so a float holds them exactly. |
| QuadLayout.UnpackColor | src/java.desktop/share/native/common/java2d/opengl/OGLMaskBuffer.c:125-130 | The vertex shader's decode always yields four channels in 0..255. |
| QuadLayout.ColorRoundTrip | src/java.desktop/share/native/common/java2d/opengl/OGLMaskBuffer.c:125-130 | The vertex shader's `& 0xFF` and `>> 8` decode returns every channel of the packed colour. |
| QuadLayout.ToUint | src/java.desktop/share/native/common/java2d/opengl/OGLMaskBuffer.c:368-371 | Storing an int into a GLuint gives a value below 2^32 that equals the int when the int is in range. |
| QuadLayout.QuadCorners | src/java.desktop/share/native/common/java2d/opengl/OGLMaskBuffer.c:345-365 | The position stores give the corners (x, y), (x2, y), (x2, y2), (x, y2) in that order. With a colour, the provoking vertex decodes to it. |
| QuadLayout.QuadUntouched | src/java.desktop/share/native/common/java2d/opengl/OGLMaskBuffer.c:349-365 | The z/w slots of vertices 0-2, the colour slots when no colour is set, and everything outside the quad keep their values. |
| QuadLayout.QuadTileData | src/java.desktop/share/native/common/java2d/opengl/OGLMaskBuffer.c:367-371 | The provoking vertex carries x, y, the mask offset and w as unsigned values. Every other slot is unchanged. |
| QuadLayout.ShaderByteOffset | src/java.desktop/share/native/common/java2d/opengl/OGLMaskBuffer.c:159 | For a column inside the stride, the byte address splits back into the row `relY` and the column `relX`, so distinct pixels of a row-major mask read distinct bytes. |
| QuadLayout.WordLane | src/java.desktop/share/native/common/java2d/opengl/OGLMaskBuffer.c:160-162 | Lane `k` of the little-endian word `i` is byte `4 * i + k` of the buffer. |
| QuadLayout.ShaderMaskByte | src/java.desktop/share/native/common/java2d/opengl/OGLMaskBuffer.c:160-162 | Whenever the word holding byte `o` lies in the buffer, the shader's read at `o` returns byte `o`. |
| QuadLayout.ShaderReadsByte | src/java.desktop/share/native/common/java2d/opengl/OGLMaskBuffer.c:159-162 | Reading `mask[o / 4] >> ((o % 4) * 8) & 0xFF` over a little-endian word view returns byte `o` of the buffer. |
| Gl.Attempts | src/java.desktop/share/native/common/java2d/opengl/OGLMaskBuffer.c:307-309 | The polling loop calls `glClientWaitSync` at least once and at most once per reply. |
| Gl.WaitTraceShape | src/java.desktop/share/native/common/java2d/opengl/OGLMaskBuffer.c:305-312 | Every poll but the last got a non-success answer, and the last got one of the two success answers. The fence is deleted exactly once, after the last poll. |
| NativeMaskBuffer.MaskCache.constructor | src/java.desktop/share/native/common/java2d/opengl/OGLMaskBuffer.c:243-259 | The capacity is `RingCapacity(size)` and both cursors start at 0. All fence slots are empty and the state invariant holds. |
| NativeMaskBuffer.MaskCache.NewFence | src/java.desktop/share/native/common/java2d/opengl/OGLMaskBuffer.c:333 | `glFenceSync` returns a fence not handed out before and records the call. |
| NativeMaskBuffer.MaskCache.WaitForFence | src/java.desktop/share/native/common/java2d/opengl/OGLMaskBuffer.c:305-312 | The calls made are exactly the polls up to the first success answer, then the deletion (`WaitTrace`). |
| NativeMaskBuffer.MaskCache.FlushMaskCache | src/java.desktop/share/native/common/java2d/opengl/OGLMaskBuffer.c:62-84 | The cursors and the call log move exactly as `Flush` says, and the invariant is kept. |
| NativeMaskBuffer.MaskCache.DisableMaskBuffer | src/java.desktop/share/native/common/java2d/opengl/OGLMaskBuffer.c:297 | Disabling performs one `Flush` of the pending vertices. |
| NativeMaskBuffer.MaskCache.QueueMaskBufferFence | src/java.desktop/share/native/common/java2d/opengl/OGLMaskBuffer.c:87-101 | It flushes and puts a new fence on `fenceRegion`, then calls `glFlush`. For `waitRegion >= 0` it also waits for that slot's fence, clears the slot, and calls back `setFenceAvailable(waitRegion)`. The call log is given exactly. |
| NativeMaskBuffer.MaskCache.FenceMaskRegion | src/java.desktop/share/native/common/java2d/opengl/OGLMaskBuffer.c:90-92 | The slot gets a new fence, followed by `glFlush`. |
| NativeMaskBuffer.MaskCache.ReleaseMaskRegion | src/java.desktop/share/native/common/java2d/opengl/OGLMaskBuffer.c:94-100 | It waits for the slot's fence, empties the slot, and calls Java back with the region. |
| NativeMaskBuffer.MaskCache.CrossRegionBoundary | src/java.desktop/share/native/common/java2d/opengl/OGLMaskBuffer.c:318-343 | On a boundary it flushes and fences `lastRegion`, whose slot was empty. When `nextRegion` has a fence, it waits for it and clears the slot. The cursor may then advance into a fence-free region. |
| NativeMaskBuffer.MaskCache.FenceAndWait | src/java.desktop/share/native/common/java2d/opengl/OGLMaskBuffer.c:333-342 | `lastRegion` gets a new fence. If `nextRegion` has a fence, it is waited for and its slot is emptied. |
| NativeMaskBuffer.MaskCache.PrepareQuad | src/java.desktop/share/native/common/java2d/opengl/OGLMaskBuffer.c:318-343 | The boundary step happens if and only if `curVertPos % vtxPerArea == 0`. Otherwise the fences, the log and the cursors are unchanged. |
| NativeMaskBuffer.MaskCache.QueueMaskQuad | src/java.desktop/share/native/common/java2d/opengl/OGLMaskBuffer.c:315-374 | The cursors become `AfterQuad`, and the 16 position and 16 tile slots are written at the write position. Fences and calls change only on a boundary, as described there. The invariant is kept. |
| NativeMaskBuffer.MaskCache.StoreQuad | src/java.desktop/share/native/common/java2d/opengl/OGLMaskBuffer.c:345-373 | The quad's writes land at `4 * curVertPos` of both areas, and the cursor advances by one quad. |
| NativeMaskBuffer.StorePositions | src/java.desktop/share/native/common/java2d/opengl/OGLMaskBuffer.c:349-365 | The element stores through `vert` equal `PositionWrites` placed at the quad's offset. |
| NativeMaskBuffer.StoreTileData | src/java.desktop/share/native/common/java2d/opengl/OGLMaskBuffer.c:367-371 | The element stores through `tileData` equal `TileWrites` placed at the quad's offset. |
| MaskRegions.VertexBufferCapacity | src/java.desktop/share/classes/sun/java2d/opengl/OGLMaskBuffer.java:11-20 | A `VERTEX_BUFFER_SIZE` of 1 MiB gives 10920 vertices per region, which meets the native minimum. |
| MaskRegions.Allocate | src/java.desktop/share/classes/sun/java2d/opengl/OGLMaskBuffer.java:74-84 | The mask starts at the current offset, or at 0 when it would reach the end. It ends inside the buffer. The regions before and after lie in 0..3. |
| MaskRegions.SmallMaskRegions | src/java.desktop/share/classes/sun/java2d/opengl/OGLMaskBuffer.java:76-84 | A mask smaller than a region moves on by at most one region, in ring order. Each of its bytes lies in the region before or the region after. |
| MaskRegions.FenceCommand | src/java.desktop/share/classes/sun/java2d/opengl/OGLMaskBuffer.java:86-98 | A command is sent if and only if the region changes. It fences the region left. It waits on `(regionBefore + 2) % 4` if that region is pending, and sends -1 otherwise. |
| MaskRegions.Spins | src/java.desktop/share/classes/sun/java2d/opengl/OGLMaskBuffer.java:105-121 | There are no flushes when the region entered is free. Otherwise the flushes run up to and including the first one that reports it. |
| MaskRegions.Cleared | src/java.desktop/share/classes/sun/java2d/opengl/OGLMaskBuffer.java:134-139 | Successive `setFenceAvailable` calls keep the number of flags. |
| MaskRegions.ClearedExactly | src/java.desktop/share/classes/sun/java2d/opengl/OGLMaskBuffer.java:134-139 | After the calls a flag is set if and only if it was set before and no call named its region. |
| MaskRegions.ClearedTwice | src/java.desktop/share/classes/sun/java2d/opengl/OGLMaskBuffer.java:109-121 | The calls of two flushes clear what the calls of both, in order, clear. |
| MaskRegions.PendingAfter | src/java.desktop/share/classes/sun/java2d/opengl/OGLMaskBuffer.java:103-121 | The flags after `queueMaskQuad` are four flags; what they hold is stated by `PendingAfterFreesTarget`. |
| MaskRegions.PendingAfterFreesTarget | src/java.desktop/share/classes/sun/java2d/opengl/OGLMaskBuffer.java:103-121 | Without a crossing the flags are unchanged. After a crossing, the region entered is free. The region left is pending unless a flush reported it. No other region becomes pending. |
| MaskRegions.Rows | src/java.desktop/share/classes/sun/java2d/opengl/OGLMaskBuffer.java:124-128 | The copied bytes number `h * w`. |
| MaskRegions.RowsAt | src/java.desktop/share/classes/sun/java2d/opengl/OGLMaskBuffer.java:124-128 | Byte `i * w + m` of the copy is `mask[maskOff + maskScan * i + m]`. |
| MaskRegions.PlacedMaskByte | src/java.desktop/share/classes/sun/java2d/opengl/OGLMaskBuffer.java:124-128 | Mask byte (row `relY`, column `relX`) lands at `start + relY * w + relX` of the mask buffer. |
| MaskRegions.ShaderSeesMask | src/java.desktop/share/native/common/java2d/opengl/OGLMaskBuffer.c:156-162 | With the tile data carrying the placed offset and `w`, the shader takes the mask path. Its read at (relX, relY) returns mask byte (relY, relX). |
| JavaMaskBuffer.RenderQueue.PutFence | src/java.desktop/share/classes/sun/java2d/opengl/OGLMaskBuffer.java:87-98 | The three ints of the fence command are appended to the queue. |
| JavaMaskBuffer.MaskBuffer.constructor | src/java.desktop/share/classes/sun/java2d/opengl/OGLMaskBuffer.java:61-68 | The offset starts at 0, no region is pending, and the invariant holds. |
| JavaMaskBuffer.MaskBuffer.SetFenceAvailable | src/java.desktop/share/classes/sun/java2d/opengl/OGLMaskBuffer.java:134-139 | Exactly the flag of `fenceNum` is cleared. |
| JavaMaskBuffer.MaskBuffer.FlushNow | src/java.desktop/share/classes/sun/java2d/opengl/OGLMaskBuffer.java:111 | A flush clears exactly the flags of the regions it reports. |
| JavaMaskBuffer.MaskBuffer.AwaitRegion | src/java.desktop/share/classes/sun/java2d/opengl/OGLMaskBuffer.java:105-121 | The loop flushes `Spins` times. Afterwards the flags are the old ones with every reported region cleared. |
| JavaMaskBuffer.MaskBuffer.Reserve | src/java.desktop/share/classes/sun/java2d/opengl/OGLMaskBuffer.java:71-121 | The returned offset and the new bump position follow `Allocate`. The queue gains exactly `FenceCommand`, the flags become `PendingAfter`, and the invariant holds. |
| JavaMaskBuffer.MaskBuffer.QueueMaskQuad | src/java.desktop/share/classes/sun/java2d/opengl/OGLMaskBuffer.java:70-132 | A null mask changes nothing and returns the current offset. Otherwise the return value is the mask's start, with the queue, flags and offset as in `Reserve`. The buffer is the old one with the packed rows spliced in at that start. |
| JavaMaskBuffer.CopyRows | src/java.desktop/share/classes/sun/java2d/opengl/OGLMaskBuffer.java:124-128 | The nested loop writes exactly `Rows(...)` from the start pointer on, and nothing else. |
| JavaMaskBuffer.CopyRow | src/java.desktop/share/classes/sun/java2d/opengl/OGLMaskBuffer.java:125-127 | The inner loop writes exactly the `w` bytes of one row from the pointer on. |

## Left out

- GL program and shader creation, buffer creation and mapping, and `EnableMaskBuffer`.
  - These are driver setup with no bookkeeping.
  - The attribute disables in `DisableMaskBuffer` are not modelled either; only its flush is.
- `OGLMaskBuffer_AddMaskQuadTurbo` only forwards the context colour with `setColor = 1`. It is
  `QueueMaskQuad` with `setColor` true.
- The position area holds GLfloats, and the model stores ints.
  - This is exact for the packed colours, which stay below 2^16 by `PackColor`.
  - It is also exact for coordinates up to 2^24; larger ones are rounded in the source and not
    in the model.
- C and Java `int` arithmetic (`dstX + w`, `w * h`) is unbounded in the model. The Java side
  stays in range because of the size requirement below.
- GPU execution is not modelled. A fence is a name in the call log. Whether the GPU has
  finished with a region is only observable through the `replies` and `flushes` parameters.
- The fence command put in the queue is the only content of the render queue modelled.
  - `ensureCapacity` may flush earlier commands, and this is not modelled.
  - How the native side executes the queued commands is not modelled.
  - A flush is represented by the `setFenceAvailable` callbacks it delivers.
- Concurrency: the `synchronized` blocks, the volatile singleton and `getInstance` are not
  modelled.
  - `pendingFences` is a static array in Java and a field of the one instance here.
- The commented-out and diagnostic prints are left out, including the `fenceCounter` print.
  The "Sync was in progress" print sits in a branch the model proves unreachable.
- The unused Java fields (`tileDataOffset`, `currentVtxPos`, `lastVtxPos`,
  `BUFFER_ARRAY_STRIDE`) are not modelled.
- Java `byte` is signed. The model keeps the unsigned value 0..255 of the same bits, which is
  what the shader reads.
- The float conversion `grayVal / 255.0` and the colour multiply in the fragment shader are
  not modelled. The model stops at the byte the shader reads.
- GPU-side ordering between the fence commands and the draws that read a mask straddling two
  regions is not modelled.
- JavaMaskBuffer.MaskBuffer.QueueMaskQuad: requires `0 <= w`, `0 <= h`,
  `w * h < MASK_BUFFER_SIZE`, and every row inside the mask array.
  - A larger mask makes Java index `pendingFences` out of bounds.
  - Out-of-range rows make the array read throw.
  - These exception paths are not modelled.
  - Masks of a region or more are modelled, but `SmallMaskRegions` covers only smaller masks:
    a larger mask can write into regions that were not waited for.
- NativeMaskBuffer.MaskCache.QueueMaskBufferFence: requires a fence in the `waitRegion` slot
  whenever it differs from `fenceRegion`.
  - The code passes that slot to `glClientWaitSync` without testing for NULL, and does not
    skip an empty slot. The model follows the code.
  - Java names a wait region only when its pending flag is set, and it sets that flag when it
    requests the fence there.
- MaskRegions.Cleared: a callback naming no region leaves the flags alone, where Java would
  index `pendingFences` out of bounds. Every caller requires the callbacks to name regions.
- Liveness is a requirement, not something proved.
  - `WaitForFence` requires that some reply is a success answer.
  - `AwaitRegion` requires that some flush reports the region entered.
- The Java mask-fill code that requests mask space and draws the quads is not part of this model.
