# Tiled software rasterizer core, modelled in Dafny

This project models the data structures and inner loops of the software
rasterizer in `src/LibGlimpsw/SwRast/Rasterizer.h`:

- the **framebuffer**: colour and depth planes stored in 4x4 pixel tiles, with
  pixel addressing, clearing, masked tile writes, bounds-checked sampling and
  typed views of the attachment planes;
- the **vertex reader**: reading 8-, 16- and 32-bit little-endian indices,
  gathering a 32-bit word per lane, and unpacking normalized 8- and 16-bit
  integer attributes from bit fields of that word;
- **shaded vertex packets** and the **varying buffer** through which a pixel
  shader reads a triangle's flat attributes;
- the **triangle batch**: allocating packets, peeking at the last one, and
  appending packet lanes to screen bins;
- **`DrawBinnedTriangle`**: the scan of one triangle lane over the 4x4 tiles of one
  128x128 bin. Its edge functions step incrementally with 32-bit wrap-around.
  The scan tests coverage with `(w0 | w1 | w2) >= 0` and depth with
  `newDepth < oldDepth`, and calls the pixel shader once per tile that has a
  visible lane.

Files and modules:

| file | module | contents |
|---|---|---|
| `machine_int.dfy` | `MachineInt` | `uint32_t` / `int32_t` wrap-around, powers of two, congruence modulo 2^32 |
| `simd.dfy` | `Simd` | 16-lane vectors as sequences and the lane-wise operations the core uses |
| `framebuffer.dfy` | `Framebuffers` | tile addressing and the `Framebuffer` class |
| `vertex_reader.dfy` | `VertexReading` | index decoding, attribute gathers, normalized-integer unpacking, `ReadAttribs` |
| `shaded_vertex.dfy` | `Varyings` | `ShadedVertexPacket` class, packet memory layout, `VaryingBuffer.GetFlat` |
| `triangle_batch.dfy` | `Batching` | `TriangleBatch` class and bin arithmetic |
| `bin_scan.dfy` | `BinScan` | a direct specification of the tile scan: which tiles get a shader call, with which mask |
| `rasterizer.dfy` | `Rasterization` | triangle packets, the clipped scan box, and `Rasterizer.DrawBinnedTriangle` with its loops |

Modelling choices:

- **Integers.** Integers are unbounded. The `uint32_t` / `int32_t` wrap-around
  of the bin bounds, the edge values and their steps, the lane offsets and
  `PeekLast` is written out with `WrapU32` / `WrapI32`. Where a member instead
  requires that a sum does not wrap (the scalar `GetPixelOffset`, the
  constructor, the gather offsets, `ScanFits`), "## Left out" says so.
- **Vectors.** A vector (`VInt`, `VFloat`, `VMask`) is a sequence of 16 lanes.
- **Floats.** Float values only flow through the core (attributes, depths),
  so they are `real`. Depths are compared with strict `<`, as the depth test
  does.
- **Pixel shader.** The shader is abstract. `DrawBinnedTriangle` returns the
  calls it would make, as a sequence of `ShadeCall(x, y, varyings)`. The
  interpolated depth of lane `k` of the tile at (x, y) is a parameter
  `newDepth(x, y, k)`.
- **`FragPixelOffsetsX/Y`.** These are defined outside the modelled header.
  They are taken to be `k % 4` and `k / 4`, the in-tile order that
  `GetPixelOffset` stores pixels in.
- **Proof strategy.** `DrawBinnedTriangle` is proved against `BinScan.Scan.Calls`.
  `Calls` visits tile rows top to bottom and tiles left to right, and computes
  each tile's edge values directly from the triangle's origin. The lemmas
  about `Calls` say that:
  - a lane is shaded exactly when its pixel is inside all three edges and its
    fragment is nearer than the stored depth;
  - no tile is visited twice;
  - distinct calls write disjoint tiles;
  - every call lies inside the bin.

## Model

| member | source | states |
|---|---|---|
| `Framebuffers.AlignUp` | src/LibGlimpsw/SwRast/Rasterizer.h:26-29 | `(v + align - 1) & ~(align - 1)` on `uint32_t` is a multiple of `align`. It is the least such value at or above `v`, and it is 0 when the sum wraps. |
| `Framebuffers.TileAlign` | src/LibGlimpsw/SwRast/Rasterizer.h:26-27 | A tile-aligned dimension is a multiple of 4, within 3 above the requested size. |
| `Framebuffers.Framebuffer.constructor` | src/LibGlimpsw/SwRast/Rasterizer.h:25-35 | Width and height are rounded up to whole tiles, and `TileStride = Width / 4`. The attachment stride is the plane size rounded up to 64. Colour and depth planes hold `Width * Height` cells, and the attachment buffer holds `stride * numAttachments` bytes. |
| `Framebuffers.Framebuffer.PlaneSizes` | src/LibGlimpsw/SwRast/Rasterizer.h:29-34 | The plane size fits 32 bits, and the 64-byte-aligned attachment stride is within 63 above it. |
| `Framebuffers.Framebuffer.GetPixelOffset` | src/LibGlimpsw/SwRast/Rasterizer.h:46-51 | For `x + 3 < Width` and `y + 3 < Height` taken without wrap-around, the offset lies in the plane. The offset divided by 16 is the tile id `x/4 + (y/4) * TileStride`, and the offset mod 16 is the in-tile position `x%4 + (y%4)*4`. |
| `Framebuffers.PixelOffsetParts` | src/LibGlimpsw/SwRast/Rasterizer.h:48-50 | Splits the offset into tile id (`/ 16`) and in-tile position (`% 16`). |
| `Framebuffers.PixelOffsetInRange` | src/LibGlimpsw/SwRast/Rasterizer.h:46-51 | Every pixel of the framebuffer has an offset inside the plane. |
| `Framebuffers.PixelAtPixelOffset` | src/LibGlimpsw/SwRast/Rasterizer.h:46-51 | The tiled layout is injective: the pixel can be read back from its offset. |
| `Framebuffers.PixelOffsetPixelAt` | src/LibGlimpsw/SwRast/Rasterizer.h:46-51 | The tiled layout is onto: every cell of the plane is the offset of a pixel inside the framebuffer. |
| `Framebuffers.PixelOffsetInjective` | src/LibGlimpsw/SwRast/Rasterizer.h:46-51 | Two pixels of the framebuffer share an offset only when they are the same pixel. |
| `Framebuffers.TileLane` | src/LibGlimpsw/SwRast/Rasterizer.h:48-50 | Pixel `(x + k%4, y + k/4)` of a tile-aligned (x, y) is stored `k` cells after the tile's first cell. |
| `Framebuffers.Framebuffer.GetPixelOffsetV` | src/LibGlimpsw/SwRast/Rasterizer.h:52-56 | The lane-wise offset, computed with `int32_t` lanes, equals the exact in-plane offset on every lane that lies inside the framebuffer. |
| `Framebuffers.Framebuffer.PixelOffsetLane` | src/LibGlimpsw/SwRast/Rasterizer.h:53-55 | One lane of the vector offset: exact and in range for an in-frame pixel. |
| `Framebuffers.UnsignedBoundCheck` | src/LibGlimpsw/SwRast/Rasterizer.h:75-77 | Comparing a lane read as `uint32_t` with a bound of at most 2^31 checks both `0 <= v` and `v < bound`. |
| `Framebuffers.Framebuffer.InBoundsLane` | src/LibGlimpsw/SwRast/Rasterizer.h:76-77 | The two unsigned compares pass exactly for in-frame lanes, and for those lanes the wrapped gather index is the exact offset. |
| `Framebuffers.Framebuffer.SampleColorLane` | src/LibGlimpsw/SwRast/Rasterizer.h:80-85 | A lane gets the stored colour of its pixel when the pixel is inside the framebuffer, and the default colour otherwise. |
| `Framebuffers.Framebuffer.SampleColor` | src/LibGlimpsw/SwRast/Rasterizer.h:80-85 | Every lane is the stored colour at `(ix[k], iy[k])` if in frame, else `defaultColor[k]`. |
| `Framebuffers.Framebuffer.SampleDepthLane` | src/LibGlimpsw/SwRast/Rasterizer.h:74-79 | A lane gets the stored depth of its pixel when the pixel is inside the framebuffer, and 1.0 otherwise. |
| `Framebuffers.Framebuffer.SampleDepth` | src/LibGlimpsw/SwRast/Rasterizer.h:74-79 | Every lane is the stored depth at `(ix[k], iy[k])` if in frame, else 1.0. |
| `Framebuffers.AttachmentElementInPlanes` | src/LibGlimpsw/SwRast/Rasterizer.h:63-67 | An element of the typed view of plane `id` starts in or after that plane. When its index is below the stride, it ends within the attachment planes. |
| `Framebuffers.Framebuffer.GetAttachmentOffset` | src/LibGlimpsw/SwRast/Rasterizer.h:63-67 | Under the "missing attachment storage" assertion, the element address starts at plane `attachmentId`. For an index below the stride, the element lies inside the attachment buffer. |
| `Framebuffers.Framebuffer.WriteTile` | src/LibGlimpsw/SwRast/Rasterizer.h:58-61 | The masked store writes colour and depth of lane `k` to cell `offset + k` exactly for the set mask bits. Every other cell of both planes is unchanged. |
| `Framebuffers.PlaneIsWholeTiles` | src/LibGlimpsw/SwRast/Rasterizer.h:94-96 | A plane of tile-aligned dimensions is a whole number of 16-cell steps, so the fill loop neither overruns nor leaves a tail. |
| `Framebuffers.Framebuffer.FillBuffer` | src/LibGlimpsw/SwRast/Rasterizer.h:91-99 | After the loop of 16-cell stores, every cell of the plane holds the value. |
| `Framebuffers.Framebuffer.ClearDepth` | src/LibGlimpsw/SwRast/Rasterizer.h:41 | Every depth cell holds the clear depth. |
| `Framebuffers.Framebuffer.Clear` | src/LibGlimpsw/SwRast/Rasterizer.h:37-40 | Every colour cell holds the colour and every depth cell the depth. |
| `VertexReading.LoadEncodeLE` | src/LibGlimpsw/SwRast/Rasterizer.h:123-125 | A little-endian load of `n` bytes reads back the value they encode. |
| `VertexReading.VertexReader.ReadIndex` | src/LibGlimpsw/SwRast/Rasterizer.h:121-129 | An offset at or past `Count` gives 0. Otherwise the entry fits the format's width and 32 bits. |
| `VertexReading.ReadIndexEncoded` | src/LibGlimpsw/SwRast/Rasterizer.h:121-126 | Reading an index buffer encoded in any format gives back the logical index at `offset`, or 0 past the end. |
| `VertexReading.IndexFormatsAgree` | src/LibGlimpsw/SwRast/Rasterizer.h:121-126 | The same indices stored as 8-, 16- or 32-bit entries read back identically, whenever the format can hold them. |
| `VertexReading.GatherWord` | src/LibGlimpsw/SwRast/Rasterizer.h:139-141 | One gather lane is an `int32_t` whose bits are the little-endian word at the address. |
| `VertexReading.VertexReader.ReadAttribS32` | src/LibGlimpsw/SwRast/Rasterizer.h:136-141 | Lane `k` holds the word at byte `Indices[k] * stride + offset` of the vertex buffer. |
| `VertexReading.UnpackUNormInt` | src/LibGlimpsw/SwRast/Rasterizer.h:174-180 | The integer part of `UnpackUNorm` lies in `0 .. 2^bitCount - 1`. |
| `VertexReading.UnpackUNormIsBitField` | src/LibGlimpsw/SwRast/Rasterizer.h:177-178 | `(data >> bitPos) & mask` on a signed lane is bits `bitPos ..` of the lane's 32-bit word, even for negative lanes. |
| `VertexReading.UnpackSNormInt` | src/LibGlimpsw/SwRast/Rasterizer.h:181-187 | The integer part of `UnpackSNorm` lies in `-2^(n-1) .. 2^(n-1) - 1`. |
| `VertexReading.UnpackSNormIsSignExtended` | src/LibGlimpsw/SwRast/Rasterizer.h:184-185 | The wrapping left shift and arithmetic right shift sign-extend exactly the field that the unsigned unpacker extracts. |
| `VertexReading.SignExtend` | src/LibGlimpsw/SwRast/Rasterizer.h:185 | The two's-complement reading of an `n`-bit field is the field, or the field minus 2^n, and lies in the signed range. |
| `VertexReading.UnpackUNorm` | src/LibGlimpsw/SwRast/Rasterizer.h:174-180 | Every lane is the unsigned field of that lane's word, and lies in the unsigned range of the field. |
| `VertexReading.UnpackSNorm` | src/LibGlimpsw/SwRast/Rasterizer.h:181-187 | Every lane is the sign-extended field of that lane's word, and lies in the signed range of the field. |
| `VertexReading.UnpackField` | src/LibGlimpsw/SwRast/Rasterizer.h:164-167 | Each lane is the raw word for floats, and otherwise the field at `pos`, sign-extended exactly when `A` is a signed integer. |
| `VertexReading.UnpackFieldDispatch` | src/LibGlimpsw/SwRast/Rasterizer.h:164-167 | The unpack loop's choice is `UnpackField`: floats keep the raw word, signed members are `UnpackSNorm` of the field and unsigned members `UnpackUNorm`. |
| `VertexReading.WordFieldIsElement` | src/LibGlimpsw/SwRast/Rasterizer.h:161-167 | The member unpacked from bit `8 * j` of a gathered word is the member stored `j` bytes after the word's address. |
| `VertexReading.SlotArith` | src/LibGlimpsw/SwRast/Rasterizer.h:163-166 | A word holds `32 / elemSize` members. The unpack loop's `pos < 32` admits exactly those slots, and slot `s` is byte `s * sizeof(A)`. |
| `VertexReading.AsWrittenGroupElement` | src/LibGlimpsw/SwRast/Rasterizer.h:162-167 | As written, member `i` of the word group starting at `g` is unpacked from the word at `offset + g * 4`. |
| `VertexReading.IntendedGroupElement` | src/LibGlimpsw/SwRast/Rasterizer.h:162-167 | Unpacked from the word at `offset + g * sizeof(A)`, member `i` of the group is the member stored at its own address. |
| `VertexReading.ReadAttribsAsWritten` | src/LibGlimpsw/SwRast/Rasterizer.h:144-172 | The packing loop as written returns `count` vectors, member `i` being what it unpacks from the word gathered at `offset + g * 4`. |
| `VertexReading.ReadAttribs` | src/LibGlimpsw/SwRast/Rasterizer.h:144-172 | With each group's word gathered at `offset + g * sizeof(A)`, the loop returns, for every lane, the `count` members stored from `offset` on, each read at its own address. |
| `VertexReading.AsWrittenAgreesWithinOneWord` | src/LibGlimpsw/SwRast/Rasterizer.h:153-170 | The loop as written is correct for floats, and for integer members that fit in one word. |
| `VertexReading.MisreadIntended` | src/LibGlimpsw/SwRast/Rasterizer.h:162 | In the example vertex, the third 16-bit member, read at its own address, is 7. |
| `VertexReading.MisreadAsWritten` | src/LibGlimpsw/SwRast/Rasterizer.h:162 | The loop as written takes that member from the word at byte 8, giving 0. |
| `VertexReading.ReadAttribsAsWrittenMisreads` | src/LibGlimpsw/SwRast/Rasterizer.h:162 | For the same vertex, the as-written loop and the corrected loop disagree on member 2 (0 versus 7). |
| `Varyings.SpliceAt` | src/LibGlimpsw/SwRast/Rasterizer.h:201 | Writing `values` at `attrId` keeps the length, puts the values there and leaves every other element in place. |
| `Varyings.ShadedVertexPacket.constructor` | src/LibGlimpsw/SwRast/Rasterizer.h:190-194 | A packet holds 4 position vectors and `MaxAttribs = 12` attribute vectors of 16 lanes. |
| `Varyings.ShadedVertexPacket.Slots` | src/LibGlimpsw/SwRast/Rasterizer.h:193-194 | The packet in memory order is 16 vectors: the 4 position components x, y, z, w in slots 0 .. 3, then attribute `a` in slot `4 + a`. |
| `Varyings.ShadedVertexPacket.SetAttribs` | src/LibGlimpsw/SwRast/Rasterizer.h:196-202 | Under `attrId + n <= MaxAttribs`, the attributes `attrId .. attrId + n - 1` become `values` and the other attributes and the position are unchanged. |
| `Varyings.PacketMemory` | src/LibGlimpsw/SwRast/Rasterizer.h:190-194 | A triangle's three packets occupy `3 * 256` consecutive floats. |
| `Varyings.FlatIndexBijective` | src/LibGlimpsw/SwRast/Rasterizer.h:243 | The flat index `vertex * 256 + slot * 16 + lane` is in range, and vertex, vector and lane can be read back from it. |
| `Varyings.FlatIndexOnto` | src/LibGlimpsw/SwRast/Rasterizer.h:243 | Every float of the three packets has such an index. |
| `Varyings.VaryingBuffer.GetFlat` | src/LibGlimpsw/SwRast/Rasterizer.h:239-245 | For `-4 <= attrId < 12` and `vertexId < 3`, every lane reads the float at `Attribs + attrId * 16 + vertexId * 256`. |
| `Varyings.VaryingsOf` | src/LibGlimpsw/SwRast/Rasterizer.h:416-417 | The varying buffer of triangle lane `i` points `i` floats past the first attribute vector of vertex 0, and is valid. |
| `Varyings.GetFlatReadsVertex` | src/LibGlimpsw/SwRast/Rasterizer.h:219 | `GetFlat(attrId, v)` broadcasts lane `i` of vector `attrId + 4` of vertex `v`. So ids `-4 .. -1` are the position components x, y, z, w, and ids 0 and up are the attributes. |
| `Varyings.GetFlatReadsPacket` | src/LibGlimpsw/SwRast/Rasterizer.h:239-245 | For three packets laid out one after another, `GetFlat(attrId, v)` at a lane is position component `attrId + 4` of packet `v` when `attrId < 0`, and attribute `attrId` of packet `v` otherwise. |
| `Batching.BinCount` | src/LibGlimpsw/SwRast/Rasterizer.h:324-325 | `(v + BinSize - 1) >> 7` is `ceil(v / 128)` when the sum does not wrap, and 0 when it wraps. |
| `Batching.BinsCoverFramebuffer` | src/LibGlimpsw/SwRast/Rasterizer.h:323-327 | Every pixel of the framebuffer falls in a bin numbered below `NumBins`, and the number gives back the bin's column and row. |
| `Batching.TriangleBatch.constructor` | src/LibGlimpsw/SwRast/Rasterizer.h:323-327 | `BinsPerRow` and `NumBins` are the wrapped bin counts, and every bin starts empty with `Count == 0`. |
| `Batching.TriangleBatch.Alloc` | src/LibGlimpsw/SwRast/Rasterizer.h:329-332 | Under `Count < MaxSize`, it returns the packet `Count` and increments `Count`. |
| `Batching.TriangleBatch.PeekLast` | src/LibGlimpsw/SwRast/Rasterizer.h:333-336 | Under the assertion on the wrapped `Count - 1 + offset`, it returns that packet. This is `Count - 1 + offset` or, when the sum wraps, 2^32 less. |
| `Batching.BinEntry` | src/LibGlimpsw/SwRast/Rasterizer.h:340 | The 16-bit entry of lane `index < 16` of packet `slot` decodes back to `(slot, index)`. |
| `Batching.BinEntryInjective` | src/LibGlimpsw/SwRast/Rasterizer.h:340 | Distinct packet lanes have distinct bin entries, and equal lanes have equal entries. |
| `Batching.TriangleBatch.BinIndex` | src/LibGlimpsw/SwRast/Rasterizer.h:341 | The bin number is `x + y * BinsPerRow` modulo 2^32. |
| `Batching.TriangleBatch.AddBin` | src/LibGlimpsw/SwRast/Rasterizer.h:337-342 | The entry of the packet lane is appended to bin `x + y * BinsPerRow`, and every other bin is unchanged. |
| `Batching.TriangleBatch.IsFull` | src/LibGlimpsw/SwRast/Rasterizer.h:343 | A batch is not full exactly when `Count + 24 < MaxSize`. |
| `Batching.TriangleBatch.NotFullLeavesClipRoom` | src/LibGlimpsw/SwRast/Rasterizer.h:343 | A batch that is not full has room for up to 24 more packets for clipping: with `n <= 24` packets already added, `Count + n < MaxSize`, so `Alloc`'s precondition holds for the current packet and each of the 24 clipped ones. |
| `BinScan.EdgeStepX` | src/LibGlimpsw/SwRast/Rasterizer.h:404-434 | Adding the wrapped `4 * StepX` to an `int32_t` edge value gives the edge value one tile to the right. |
| `BinScan.EdgeStepY` | src/LibGlimpsw/SwRast/Rasterizer.h:405-436 | Adding the wrapped `4 * StepY` gives the edge value one tile down. |
| `BinScan.EdgeStart` | src/LibGlimpsw/SwRast/Rasterizer.h:400-402 | `Weight + stepX * tileOffsX + stepY * tileOffsY` in wrapping lane arithmetic, from offsets congruent mod 2^32 to the exact ones, is the edge value at the exact pixel. |
| `BinScan.NumTiles` | src/LibGlimpsw/SwRast/Rasterizer.h:409-412 | `lo, lo + 4, ...` up to `hi` is `NumTiles` tiles: the last one at or before `hi`, the next one past it. |
| `BinScan.NextTile` | src/LibGlimpsw/SwRast/Rasterizer.h:409-412 | `x += 4` on `uint32_t` does not wrap within the bin, and reaches the next tile. |
| `BinScan.Scan.Coverage` | src/LibGlimpsw/SwRast/Rasterizer.h:413 | Lane `k` of the coverage mask is set exactly when pixel `(x + k%4, y + k/4)` is inside all three edges. |
| `BinScan.Scan.TileCall` | src/LibGlimpsw/SwRast/Rasterizer.h:413-432 | A tile makes at most one call. A call is for that tile, which lies inside the box. |
| `BinScan.RowOfSound` | src/LibGlimpsw/SwRast/Rasterizer.h:412-435 | Each call of a row is the call of its own tile, and the row's calls are strictly left to right. |
| `BinScan.RowOfComplete` | src/LibGlimpsw/SwRast/Rasterizer.h:412-435 | The call of every tile of the row appears in the row. |
| `BinScan.RowsOfSound` | src/LibGlimpsw/SwRast/Rasterizer.h:409-437 | Each call of the rows is its tile's call, and the calls are strictly ordered by row, then by column. |
| `BinScan.RowsOfComplete` | src/LibGlimpsw/SwRast/Rasterizer.h:409-437 | The call of every tile of every row appears. |
| `BinScan.CallsSound` | src/LibGlimpsw/SwRast/Rasterizer.h:409-437 | Every call of the scan is the call of its own tile, and no tile is called twice. |
| `BinScan.CallsComplete` | src/LibGlimpsw/SwRast/Rasterizer.h:409-437 | Every tile of the box that makes a call is in the scan's calls. |
| `BinScan.CallLanes` | src/LibGlimpsw/SwRast/Rasterizer.h:413-431 | For a call, `TileOffset` is the tile's pixel offset and the mask has a set lane. Lane `k` is set exactly when its pixel is covered and its new depth is below the stored depth. `Depth` is the fragment depth, and `Attribs` points at the triangle's lane. |
| `BinScan.TileHasLane` | src/LibGlimpsw/SwRast/Rasterizer.h:413-431 | A covered lane that passes the depth test makes its tile call with that lane set. |
| `BinScan.LaneShadedComplete` | src/LibGlimpsw/SwRast/Rasterizer.h:409-437 | Every covered lane that passes the depth test is shaded by some call. |
| `BinScan.LaneShadedSound` | src/LibGlimpsw/SwRast/Rasterizer.h:409-437 | Every shaded lane is covered and passes the depth test. |
| `BinScan.LaneShadedIff` | src/LibGlimpsw/SwRast/Rasterizer.h:409-437 | A lane of a tile of the box is shaded iff it is covered and its new depth is below the stored depth. |
| `BinScan.PixelShadedIff` | src/LibGlimpsw/SwRast/Rasterizer.h:409-437 | A pixel of the box is shaded iff it is inside all three edges and its fragment is nearer than the depth stored for that pixel. |
| `BinScan.TileInFrame` | src/LibGlimpsw/SwRast/Rasterizer.h:418-422 | The 16 cells loaded as `oldDepth` for an in-frame tile lie inside the depth plane. |
| `BinScan.CallInFrame` | src/LibGlimpsw/SwRast/Rasterizer.h:418 | Each call's tile is tile-aligned and inside the framebuffer, and its `TileOffset` is that tile's pixel offset. |
| `BinScan.TilesDisjoint` | src/LibGlimpsw/SwRast/Rasterizer.h:46-51 | Distinct tile-aligned tiles occupy disjoint 16-cell ranges, in row-major order. |
| `BinScan.CallsDisjoint` | src/LibGlimpsw/SwRast/Rasterizer.h:418-431 | Calls of the scan are for disjoint 16-cell ranges of the planes, in increasing order. So a shader writing its tile never touches another call's tile. |
| `Rasterization.MinU32` | src/LibGlimpsw/SwRast/Rasterizer.h:375-376 | `std::min` returns the smaller argument. |
| `Rasterization.ColumnOffsets` | src/LibGlimpsw/SwRast/Rasterizer.h:378 | Lane `k` of `FragPixelOffsetsX` is `k % 4`. |
| `Rasterization.RowOffsets` | src/LibGlimpsw/SwRast/Rasterizer.h:378 | Lane `k` of `FragPixelOffsetsY` is `k / 4`. |
| `Rasterization.BinBox` | src/LibGlimpsw/SwRast/Rasterizer.h:373-387 | The box to scan starts at the later of the triangle's min and the bin's corner. It ends at the earlier of the triangle's max and the bin's last tile: it is one of the two and at or below both. The triangle's own min stays the origin of the edge values. |
| `Rasterization.SetupScan` | src/LibGlimpsw/SwRast/Rasterizer.h:396-397 | The scan of a bin uses `BinBox` as its box, the bin's triangle index as its lane, the framebuffer's size and depth plane, and the triangle's packets as vertex memory. A bin that fits a tile-aligned framebuffer gives a valid scan. |
| `Rasterization.StartOffsets` | src/LibGlimpsw/SwRast/Rasterizer.h:378-386 | After clipping to the bin, the lane offsets are congruent mod 2^32 to the pixel distance from the triangle's origin. |
| `Rasterization.EdgeRowStart` | src/LibGlimpsw/SwRast/Rasterizer.h:399-402 | `rowW = Weight + stepX * tileOffsX + stepY * tileOffsY` is the edge vector at the box's first tile. |
| `Rasterization.RowStarts` | src/LibGlimpsw/SwRast/Rasterizer.h:378-402 | All three start vectors, computed from the clipped offsets, are the edges at the first tile. |
| `Rasterization.StepTimesFour` | src/LibGlimpsw/SwRast/Rasterizer.h:404-405 | `step *= 4` on a broadcast lane is the wrapped product. |
| `Rasterization.EdgeLanesStepX` | src/LibGlimpsw/SwRast/Rasterizer.h:434 | `w += stepX` moves an edge vector one tile right. |
| `Rasterization.EdgeLanesStepY` | src/LibGlimpsw/SwRast/Rasterizer.h:436 | `rowW += stepY` moves an edge vector one tile down. |
| `Rasterization.EdgesStepX` | src/LibGlimpsw/SwRast/Rasterizer.h:434 | The three edge vectors, stepped right, are the edges at the next tile. |
| `Rasterization.EdgesStepY` | src/LibGlimpsw/SwRast/Rasterizer.h:436 | The three row-start vectors, stepped down, are the edges at the next row. |
| `Rasterization.CoverageOfEdges` | src/LibGlimpsw/SwRast/Rasterizer.h:413 | `(w0 \| w1 \| w2) >= 0` is the mask of lanes inside all three edges. |
| `Rasterization.TileUncovered` | src/LibGlimpsw/SwRast/Rasterizer.h:415 | A tile with no covered lane makes no call. |
| `Rasterization.TileCovered` | src/LibGlimpsw/SwRast/Rasterizer.h:415-432 | A covered tile makes a call, with mask `coverage & (newDepth < oldDepth)`, exactly when that mask has a set lane. |
| `Rasterization.TileFits` | src/LibGlimpsw/SwRast/Rasterizer.h:46-51 | A tile-aligned coordinate inside the framebuffer satisfies `GetPixelOffset`'s assertion `x + 3 < Width`. |
| `Rasterization.Rasterizer.constructor` | src/LibGlimpsw/SwRast/Rasterizer.h:441 | The rasterizer draws into the given framebuffer. |
| `Rasterization.Rasterizer.ShadeTile` | src/LibGlimpsw/SwRast/Rasterizer.h:413-433 | The loop body at tile (x, y) returns exactly the scan's call for that tile. |
| `Rasterization.Rasterizer.DepthTest` | src/LibGlimpsw/SwRast/Rasterizer.h:415-432 | The covered branch loads `oldDepth` at the tile offset, masks by the depth test, and calls iff a lane survives. This is the scan's call. |
| `Rasterization.Rasterizer.ScanRow` | src/LibGlimpsw/SwRast/Rasterizer.h:410-435 | The inner loop returns the calls of the row's tiles, left to right. |
| `Rasterization.Rasterizer.ScanTiles` | src/LibGlimpsw/SwRast/Rasterizer.h:409-437 | The outer loop returns the calls of all rows, top to bottom. |
| `Rasterization.Rasterizer.ScanTriangle` | src/LibGlimpsw/SwRast/Rasterizer.h:396-437 | Edge setup and loops together return the scan's calls. |
| `Rasterization.Rasterizer.DrawBinnedTriangle` | src/LibGlimpsw/SwRast/Rasterizer.h:368-438 | The shader calls are exactly `SetupScan(...).Calls()`. So they are one per tile of the clipped box that has a covered lane passing the depth test, with the mask of those lanes, in row-major order. |
| `Rasterization.ScanStaysInBin` | src/LibGlimpsw/SwRast/Rasterizer.h:373-387 | Every shaded tile lies inside the bin and inside the triangle's bounding box. |
| `Rasterization.AssumedBoxOrderFails` | src/LibGlimpsw/SwRast/Rasterizer.h:389-390 | An ordinary triangle two tiles wide in one bin violates the assumed `minX >= maxX`, `minY >= maxY`, while its scan covers 3 tile columns and 2 tile rows. |

## Left out

- `Camera.h`, `SIMD.h`, the profiler, `AlignedBuffer` / `alloc_buffer`, and the `.cpp` files are not part of this model. The SIMD lane operations are modelled directly on 16-lane sequences.
- Members declared in the header without a body are not modelled: `IterateTiles`, `GetPixels`, `SaveImage`, `ReadIndices`, `ReadTriangleIndices`, `TrianglePacket::Setup`, the `Clipper`, `Draw`, `SetupTriangles`, `BinTriangles`. The `Rasterizer` constructor is modelled only as storing the framebuffer.
- `VaryingBuffer::GetSmooth`, its vector form and `ApplyPerspectiveCorrection`: floating-point interpolation. `newDepth` in the scan is the abstract value `GetSmooth(AttribZ)` produces, and the weights `W1`, `W2` are not fields of the modelled varying buffer.
- `Framebuffer::SampleDepth(VFloat, VFloat)`: float scaling and `round2i` are not modelled. Only the integer-coordinate overloads are.
- `VertexReading.UnpackUNorm`: only the integer part; the multiplication by `1.0f / mask` is floating point.
- `VertexReading.UnpackSNorm`: only the integer part; the multiplication by `1.0f / scale` is floating point.
- `VertexReading.VertexReader.ReadAttribS32`: also stands for `ReadAttribF`, whose lanes are the same gathered bits read as floats.
- `VertexReading.VertexReader.ReadIndex`: the "unknown index buffer format" branch cannot occur with a three-value format type.
- The 256-byte over-read of the index buffer is not modelled: `ReadIndex` is bounded by `Count`.
- `VertexReading.ReadAttribs`: members are 8-, 16- or 32-bit values. 32-bit integer members, `int32_t` and `uint32_t`, are refused, as the unpackers' `bitCount != 32` assertion refuses them; the element type has no 32-bit integer case, so only `float` is read at 32 bits.
- `Framebuffers.Framebuffer.FillBuffer`: non-temporal streaming stores and the `bit_cast` of the depth to a `uint32_t` are modelled as plain stores of the value.
- `Framebuffers.Framebuffer.SampleColor`: requires `Width * Height <= 2^31`, where the `(int32_t)Width` bound of the unsigned compare and the `int32_t` gather index are exact.
- `Framebuffers.Framebuffer.SampleDepth`: requires `Width * Height <= 2^31`, for the same reason.
- `Framebuffers.Framebuffer.GetPixelOffsetV`: states the lane value only for in-frame lanes. Out-of-frame lanes are defined (wrapped) but only ever used masked off.
- `Framebuffers.Framebuffer.GetPixelOffsetV`: requires `Width * Height <= 2^31`, so that the `int32_t` offset of an in-frame pixel does not wrap.
- `Framebuffers.Framebuffer.PixelOffsetLane`: requires `Width * Height <= 2^31`, for the same reason.
- `Framebuffers.Framebuffer.GetPixelOffset`: requires `x + 3 < Width` and `y + 3 < Height` without wrap-around. The source adds in `uint32_t`, so for x or y of at least 2^32 - 3 its assertion passes on a wrapped sum and the offset falls outside the plane; those inputs are excluded. The only caller scans x up to the box's `MaxX`, which lies inside the framebuffer.
- `Framebuffers.Framebuffer.constructor`: requires `TileAlign(width) * TileAlign(height) + 63` and `AttachmentStride * numAttachments` to fit in 32 bits. The source computes both in `uint32_t` and would wrap, allocating too small a buffer; the model does not cover that case.
- `VertexReading.VertexReader.LanesReadable`: requires `Indices[k] * stride < 2^31` in every lane, so that the `int32_t` gather offset `_Indices * stride` does not wrap. This bound is a precondition of `VertexReading.VertexReader.ReadAttribS32` and `VertexReading.ReadAttribs`.
- `VertexReading.VertexReader.ReadAttribS32`: requires the lane offsets not to wrap 32 bits, as `LanesReadable` states.
- `VertexReading.ReadAttribs`: requires the lane offsets not to wrap 32 bits, as `LanesReadable` states.
- `Rasterization.ScanFits`: requires `bin.X + BinSize < 2^32` and `bin.Y + BinSize < 2^32`, so that the bin's last tile `bin.X + BinSize - 4` does not wrap.
- `Framebuffers.Framebuffer.GetAttachmentOffset`: returns a byte index instead of a typed pointer. The aliasing of typed views is not modelled.
- `Varyings.VaryingBuffer.GetFlat`: states only that the stored value at slot `attrId` of vertex `vertexId` is read. The documented meaning `attr[vertexId] - attr[0]` for `vertexId != 0` comes from the layout `TrianglePacket::Setup` writes, and `TrianglePacket::Setup` is not part of this model; `Varyings.GetFlatReadsPacket` speaks of the packets as laid out, not of that difference.
- `Batching.TriangleBatch.Alloc`: returns the packet's slot number instead of a reference. The packets' contents are not stored in the batch.
- `Batching.TriangleBatch.PeekLast`: returns the slot number instead of a reference, for the same reason.
- `Batching.TriangleBatch.AddBin`: takes the packet's slot for `&tri - Triangles`. It requires the bin number to be below `NumBins`, where the source indexes the bin array unchecked.
- `Rasterization.Rasterizer.DrawBinnedTriangle`: the pixel shader is not run. The method returns the calls it would make, with their varying buffers, so the shader's framebuffer writes are not modelled. `CallsDisjoint` shows that the calls address disjoint tiles.
- `Rasterization.Rasterizer.DrawBinnedTriangle`: requires the clipped box to start on a tile boundary, the `% 4 == 0` assumptions the source makes, and a non-empty box to lie in the framebuffer.
- The source's `__builtin_assume(minX >= maxX)` and `minY >= maxY` are not made; see Findings.
- `FragPixelOffsetsX/Y` are defined outside the header; they are taken as `k % 4` and `k / 4`.
- Concurrency (tiles drawn in parallel) and the batch-level driver are not modelled.

## Findings

| source | as written | input that shows it | evidently intended | confidence | as-written member | corrected member |
|---|---|---|---|---|---|---|
| src/LibGlimpsw/SwRast/Rasterizer.h:162 | The integer path of `ReadAttribs` gathers the word for the group starting at member `i` at byte `offset + i * 4`, but member `i` is stored at `offset + i * sizeof(A)`. | Three `uint16_t` members 0, 0, 7 at bytes 0..5 of a 12-byte vertex: the third member is read from the word at byte 8 (giving 0) instead of byte 4 (giving 7). | Gather at `offset + i * sizeof(A)`; the two agree only for floats and for groups that fit in one 32-bit word. | high, not executed | `VertexReading.ReadAttribsAsWrittenMisreads` | `VertexReading.ReadAttribs` |
| src/LibGlimpsw/SwRast/Rasterizer.h:389-390 | `__builtin_assume(minX >= maxX)` and `__builtin_assume(minY >= maxY)` promise the compiler a box at most one tile wide and tall, which lets it run each scan loop at most once. | A triangle with box (0, 0)..(8, 4) in bin (0, 0): `minX = 0 < maxX = 8`, and the scan has 3 tile columns and 2 tile rows. | `minX <= maxX` and `minY <= maxY`, the order of a non-empty box; the loops then visit every tile. | medium, not executed | `Rasterization.AssumedBoxOrderFails` | `Rasterization.Rasterizer.DrawBinnedTriangle` |
