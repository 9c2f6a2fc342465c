/** What queueMaskQuad writes into the two attribute areas of the vertex ring, and how the
    mask-fill shaders read it back. Each vertex has 4 floats in the position area
    (x, y and, on the provoking vertex, the packed colour) and 4 unsigned ints in the tile
    area (on the provoking vertex: bounding box x, y, mask offset, mask stride). */
module QuadLayout {
  import opened Wrappers
  import opened Arith

  /** A paint colour with four 8-bit channels. */
  datatype Rgba = Rgba(r: int, g: int, b: int, a: int)

  predicate IsChannel(x: int)
  {
    0 <= x < 256
  }

  predicate ValidColor(c: Rgba)
  {
    IsChannel(c.r) && IsChannel(c.g) && IsChannel(c.b) && IsChannel(c.a)
  }

  /** The two packed colour floats of the provoking vertex. */
  datatype PackedColor = PackedColor(rg: int, ba: int)

  /** (g << 8) + r and (a << 8) + b; the shift by 8 is a multiplication by 256. */
  function PackColor(c: Rgba): (p: PackedColor)
    ensures ValidColor(c) ==> 0 <= p.rg < 0x1_0000 && 0 <= p.ba < 0x1_0000
  {
    PackedColor(c.g * 256 + c.r, c.a * 256 + c.b)
  }

  /** The vertex shader's decode: r = rg & 0xFF, g = (rg >> 8) & 0xFF, and likewise for ba.
      On the non-negative value the shader converts to uint, `& 0xFF` is `% 256` and `>> 8`
      is `/ 256`. */
  function UnpackColor(p: PackedColor): (c: Rgba)
    ensures ValidColor(c)
  {
    Rgba(p.rg % 256, (p.rg / 256) % 256, p.ba % 256, (p.ba / 256) % 256)
  }

  /** Packing then decoding gives back every channel; the packed values stay below 2^16, so a
      float holds them exactly. */
  lemma ColorRoundTrip(c: Rgba)
    requires ValidColor(c)
    ensures UnpackColor(PackColor(c)) == c
  {
  }

  /** The `Integer.MAX_VALUE` mask offset that tells the fragment shader "no mask". */
  const NoMask := 0x7FFF_FFFF

  /** C's conversion of an int to GLuint. */
  function ToUint(x: int): (u: nat)
    ensures u < 0x1_0000_0000
    ensures 0 <= x < 0x1_0000_0000 ==> u == x
  {
    x % 0x1_0000_0000
  }

  /** One mask quad: destination rectangle and mask offset. */
  datatype Quad = Quad(dstX: int, dstY: int, w: int, h: int, maskOffset: int)

  /** Slot `k` (0..15) of the position area from 4 * curVertPos on: the value queueMaskQuad
      stores there, or None where it stores nothing. Vertex v owns slots 4v..4v+3. */
  function PositionSlot(q: Quad, color: Option<Rgba>, k: int): Option<int>
  {
    if k == 0 || k == 12 then Some(q.dstX)
    else if k == 1 || k == 5 then Some(q.dstY)
    else if k == 4 || k == 8 then Some(q.dstX + q.w)
    else if k == 9 || k == 13 then Some(q.dstY + q.h)
    else if k == 14 && color.Some? then Some(PackColor(color.value).rg)
    else if k == 15 && color.Some? then Some(PackColor(color.value).ba)
    else None
  }

  /** Slot `k` (0..15) of the tile area from 4 * curVertPos on. */
  function TileSlot(q: Quad, k: int): Option<int>
  {
    if k == 12 then Some(ToUint(q.dstX))
    else if k == 13 then Some(ToUint(q.dstY))
    else if k == 14 then Some(ToUint(q.maskOffset))
    else if k == 15 then Some(ToUint(q.w))
    else None
  }

  function PositionWrites(q: Quad, color: Option<Rgba>): (w: seq<Option<int>>)
    ensures |w| == 16
  {
    seq(16, k => PositionSlot(q, color, k))
  }

  function TileWrites(q: Quad): (w: seq<Option<int>>)
    ensures |w| == 16
  {
    seq(16, k => TileSlot(q, k))
  }

  /** `s` after storing `writes` from index `at` on. */
  function Place(s: seq<int>, at: int, writes: seq<Option<int>>): seq<int>
    requires 0 <= at && at + |writes| <= |s|
  {
    seq(|s|, i requires 0 <= i < |s| =>
      if at <= i < at + |writes| && writes[i - at].Some? then writes[i - at].value else s[i])
  }

  /** PositionWrites placed at `at` are the element stores queueMaskQuad makes, in its order. */
  lemma PositionStores(s: seq<int>, at: int, q: Quad, color: Option<Rgba>)
    requires 0 <= at && at + 16 <= |s|
    ensures var x2, y2 := q.dstX + q.w, q.dstY + q.h;
      var corners := s[at := q.dstX][at + 1 := q.dstY][at + 4 := x2][at + 5 := q.dstY]
                      [at + 8 := x2][at + 9 := y2][at + 12 := q.dstX][at + 13 := y2];
      Place(s, at, PositionWrites(q, color))
        == if color.Some? then corners[at + 14 := PackColor(color.value).rg][at + 15 := PackColor(color.value).ba]
           else corners
  {
  }

  /** TileWrites placed at `at` are the four element stores queueMaskQuad makes. */
  lemma TileStores(t: seq<int>, at: int, q: Quad)
    requires 0 <= at && at + 16 <= |t|
    ensures Place(t, at, TileWrites(q))
      == t[at + 12 := ToUint(q.dstX)][at + 13 := ToUint(q.dstY)][at + 14 := ToUint(q.maskOffset)][at + 15 := ToUint(q.w)]
  {
  }

  /** posAndSource.xy of vertex `v` of the quad whose first float is at `at`. */
  function Corner(s: seq<int>, at: int, v: int): (int, int)
    requires 0 <= at && at + 16 <= |s| && 0 <= v < 4
  {
    (s[at + 4 * v], s[at + 4 * v + 1])
  }

  /** The colour the vertex shader computes from posAndSource.zw of the provoking vertex. */
  function ProvokingColor(s: seq<int>, at: int): Rgba
    requires 0 <= at && at + 16 <= |s|
  {
    UnpackColor(PackedColor(s[at + 14], s[at + 15]))
  }

  /** tileDataVtx of the provoking vertex: bounding box origin (xy) and the mask's byte offset
      and row stride in pixels (zw). */
  datatype TileInfo = TileInfo(boxX: int, boxY: int, maskOffset: int, maskStride: int)

  function ProvokingTile(t: seq<int>, at: int): TileInfo
    requires 0 <= at && at + 16 <= |t|
  {
    TileInfo(t[at + 12], t[at + 13], t[at + 14], t[at + 15])
  }

  /** The fragment shader only reads the mask when the offset is not the sentinel. */
  predicate UsesMask(ti: TileInfo)
  {
    ti.maskOffset != NoMask
  }

  /** What the vertex shader reads back from the position area written by queueMaskQuad: the
      four corners in the winding order top-left, top-right, bottom-right, bottom-left, and the
      colour of the provoking vertex when one was written. */
  lemma QuadCorners(s: seq<int>, at: int, q: Quad, color: Option<Rgba>)
    requires 0 <= at && at + 16 <= |s|
    ensures var s' := Place(s, at, PositionWrites(q, color));
      && |s'| == |s|
      && Corner(s', at, 0) == (q.dstX, q.dstY)
      && Corner(s', at, 1) == (q.dstX + q.w, q.dstY)
      && Corner(s', at, 2) == (q.dstX + q.w, q.dstY + q.h)
      && Corner(s', at, 3) == (q.dstX, q.dstY + q.h)
      && (color.Some? && ValidColor(color.value) ==> ProvokingColor(s', at) == color.value)
  {
    PositionStores(s, at, q, color);
    if color.Some? && ValidColor(color.value) {
      ColorRoundTrip(color.value);
    }
  }

  /** The slots queueMaskQuad leaves alone in the position area: z/w of vertices 0..2, the
      colour slots when no colour is written, and everything outside the quad's 16 slots. */
  lemma QuadUntouched(s: seq<int>, at: int, q: Quad, color: Option<Rgba>)
    requires 0 <= at && at + 16 <= |s|
    ensures var s' := Place(s, at, PositionWrites(q, color));
      && |s'| == |s|
      && s'[at + 2] == s[at + 2] && s'[at + 3] == s[at + 3]
      && s'[at + 6] == s[at + 6] && s'[at + 7] == s[at + 7]
      && s'[at + 10] == s[at + 10] && s'[at + 11] == s[at + 11]
      && (color.None? ==> s'[at + 14] == s[at + 14] && s'[at + 15] == s[at + 15])
      && (forall i :: 0 <= i < |s| && !(at <= i < at + 16) ==> s'[i] == s[i])
  {
    PositionStores(s, at, q, color);
  }

  /** What the fragment shader reads back from the tile area written by queueMaskQuad: the
      provoking vertex carries the bounding box origin, the mask offset and the mask stride
      (the quad's width), converted to unsigned; nothing else is touched. */
  lemma QuadTileData(t: seq<int>, at: int, q: Quad)
    requires 0 <= at && at + 16 <= |t|
    ensures var t' := Place(t, at, TileWrites(q));
      && |t'| == |t|
      && ProvokingTile(t', at) == TileInfo(ToUint(q.dstX), ToUint(q.dstY), ToUint(q.maskOffset), ToUint(q.w))
      && (forall i :: 0 <= i < |t| && !(at + 12 <= i < at + 16) ==> t'[i] == t[i])
  {
    TileStores(t, at, q);
  }

  /** The fragment shader's byte address for the pixel at (relX, relY) of the bounding box. */
  function ShaderByteOffset(ti: TileInfo, relX: int, relY: int): (o: int)
    ensures 0 <= relX < ti.maskStride ==>
      (o - ti.maskOffset) / ti.maskStride == relY && (o - ti.maskOffset) % ti.maskStride == relX
  {
    RowMajor(relY, relX, ti.maskStride);
    ti.maskOffset + relY * ti.maskStride + relX
  }

  /** One byte of the mask buffer, as the unsigned value the shader sees. */
  newtype byte = x: int | 0 <= x < 0x100

  /** The 32-bit element `i` of the shader's `uint[] mask` view of the byte buffer
      (little-endian), as an unsigned value. */
  function Word(buf: seq<byte>, i: int): (word: nat)
    requires 0 <= i && 4 * i + 4 <= |buf|
    ensures word < 0x1_0000_0000
  {
    buf[4 * i] as int + 0x100 * buf[4 * i + 1] as int
    + 0x1_0000 * buf[4 * i + 2] as int + 0x100_0000 * buf[4 * i + 3] as int
  }

  /** 2^(8k) for the four lanes of a word: shifting an unsigned word right by 8k bits divides
      it by this. */
  function LaneScale(k: int): nat
    requires 0 <= k < 4
  {
    if k == 0 then 1 else if k == 1 then 0x100 else if k == 2 then 0x1_0000 else 0x100_0000
  }

  /** The four bytes of a little-endian word, each recovered by its division and remainder. */
  lemma WordLanes(word: int, b0: int, b1: int, b2: int, b3: int)
    requires 0 <= b0 < 0x100 && 0 <= b1 < 0x100 && 0 <= b2 < 0x100 && 0 <= b3 < 0x100
    requires word == b0 + 0x100 * b1 + 0x1_0000 * b2 + 0x100_0000 * b3
    ensures (word / 1) % 0x100 == b0
    ensures (word / 0x100) % 0x100 == b1
    ensures (word / 0x1_0000) % 0x100 == b2
    ensures (word / 0x100_0000) % 0x100 == b3
  {
    assert word / 0x100 == b1 + 0x100 * b2 + 0x1_0000 * b3;
    assert word / 0x1_0000 == b2 + 0x100 * b3;
    assert word / 0x100_0000 == b3;
  }

  /** Lane `k` of word `i` is byte `4 * i + k` of the buffer. */
  lemma WordLane(buf: seq<byte>, i: int, k: int)
    requires 0 <= i && 4 * i + 4 <= |buf| && 0 <= k < 4
    ensures (Word(buf, i) / LaneScale(k)) % 0x100 == buf[4 * i + k] as int
  {
    WordLanes(Word(buf, i), buf[4 * i] as int, buf[4 * i + 1] as int, buf[4 * i + 2] as int, buf[4 * i + 3] as int);
  }

  /** The fragment shader's read: mask[byteOffset / 4], shifted right by (byteOffset % 4) * 8,
      masked with 0xFF. Whenever the word holding the byte lies inside the buffer, the read
      returns exactly the byte stored at that address. */
  function ShaderMaskByte(buf: seq<byte>, byteOffset: int): (b: byte)
    requires 0 <= byteOffset && 4 * (byteOffset / 4) + 4 <= |buf|
    ensures byteOffset < |buf| && b == buf[byteOffset]
  {
    WordLane(buf, byteOffset / 4, byteOffset % 4);
    ((Word(buf, byteOffset / 4) / LaneScale(byteOffset % 4)) % 0x100) as byte
  }

  /** In a buffer of whole words every byte can be read through the word view, and the read
      returns that byte. */
  lemma ShaderReadsByte(buf: seq<byte>, byteOffset: int)
    requires |buf| % 4 == 0 && 0 <= byteOffset < |buf|
    ensures 4 * (byteOffset / 4) + 4 <= |buf|
    ensures ShaderMaskByte(buf, byteOffset) == buf[byteOffset]
  {
    var i := byteOffset / 4;
    assert byteOffset == 4 * i + byteOffset % 4;
    assert |buf| == 4 * (|buf| / 4);
  }
}
