/** The rasterizer's innermost stage: scanning one binned triangle over the
    4x4 tiles of one bin with incrementally updated edge functions, testing
    coverage and depth per tile and handing every tile with a visible lane to
    the pixel shader. */
module Rasterization {
  import opened MachineInt
  import opened Simd
  import opened Framebuffers
  import opened Varyings
  import opened Batching
  import opened BinScan

  /** A set-up triangle packet: per lane, the clamped bounding box, the three
      edge values at the box origin and the edge steps per pixel in x (`A`) and
      in y (`B`); and the three shaded vertex packets, as their sixteen vectors
      each. */
  datatype TrianglePacket = TrianglePacket(
    MinX: seq<int>, MinY: seq<int>, MaxX: seq<int>, MaxY: seq<int>,
    Weight0: seq<int>, Weight1: seq<int>, Weight2: seq<int>,
    A01: seq<int>, A12: seq<int>, A20: seq<int>,
    B01: seq<int>, B12: seq<int>, B20: seq<int>,
    Vertices: seq<seq<seq<real>>>)
  {
    predicate Valid() {
      IsVInt(MinX) && IsVInt(MinY) && IsVInt(MaxX) && IsVInt(MaxY)
      && IsVInt(Weight0) && IsVInt(Weight1) && IsVInt(Weight2)
      && IsVInt(A01) && IsVInt(A12) && IsVInt(A20)
      && IsVInt(B01) && IsVInt(B12) && IsVInt(B20)
      && |Vertices| == TriangleVertices
      && (forall v :: 0 <= v < TriangleVertices ==> |Vertices[v]| == PacketSlots)
      && forall v, j :: 0 <= v < TriangleVertices && 0 <= j < PacketSlots ==> IsVFloat(Vertices[v][j])
    }
  }

  /** One lane of a triangle packet queued on the bin whose top-left pixel is
      (X, Y). */
  datatype BinnedTriangle = BinnedTriangle(X: int, Y: int, TriangleIndex: int, Triangle: TrianglePacket)
  {
    predicate Valid() {
      IsU32(X) && IsU32(Y) && 0 <= TriangleIndex < W && Triangle.Valid()
    }
  }

  /** `std::min` on `uint32_t`. */
  function MinU32(a: int, b: int): (r: int)
    ensures r <= a && r <= b && (r == a || r == b)
  {
    if a < b then a else b
  }

  /** The pixel offsets of the lanes of a tile from its top-left corner. */
  const FragPixelOffsetsX: seq<int> := ColumnOffsets(W)
  const FragPixelOffsetsY: seq<int> := RowOffsets(W)

  /** The column `k % 4` of each of the first `n` lanes within its tile. */
  function ColumnOffsets(n: nat): (v: seq<int>)
    ensures |v| == n && forall k :: 0 <= k < n ==> v[k] == k % 4
  {
    if n == 0 then [] else ColumnOffsets(n - 1) + [(n - 1) % 4]
  }

  /** The row `k / 4` of each of the first `n` lanes within its tile. */
  function RowOffsets(n: nat): (v: seq<int>)
    ensures |v| == n && forall k :: 0 <= k < n ==> v[k] == k / 4
  {
    if n == 0 then [] else RowOffsets(n - 1) + [(n - 1) / 4]
  }

  /** The rectangle the rasterizer scans for a binned triangle: the triangle's
      bounding box (read as `uint32_t`) clipped to the bin, whose last tile
      starts `BinSize - 4` pixels after the bin's first; the unclipped
      top-left corner stays the origin of the edge values. */
  function BinBox(bin: BinnedTriangle): (b: Box)
    requires bin.Valid()
    ensures b.OrigX == AsU32(bin.Triangle.MinX[bin.TriangleIndex])
    ensures b.OrigY == AsU32(bin.Triangle.MinY[bin.TriangleIndex])
    ensures b.MinX >= bin.X && b.MinX >= b.OrigX && (b.MinX == bin.X || b.MinX == b.OrigX)
    ensures b.MinY >= bin.Y && b.MinY >= b.OrigY && (b.MinY == bin.Y || b.MinY == b.OrigY)
    ensures b.MaxX <= AsU32(bin.Triangle.MaxX[bin.TriangleIndex])
    ensures b.MaxY <= AsU32(bin.Triangle.MaxY[bin.TriangleIndex])
    ensures b.MaxX == AsU32(bin.Triangle.MaxX[bin.TriangleIndex]) || b.MaxX == WrapU32(bin.X + BinSize - 4)
    ensures b.MaxY == AsU32(bin.Triangle.MaxY[bin.TriangleIndex]) || b.MaxY == WrapU32(bin.Y + BinSize - 4)
    ensures b.MaxX <= WrapU32(bin.X + BinSize - 4) && b.MaxY <= WrapU32(bin.Y + BinSize - 4)
    ensures bin.X + BinSize < TwoTo32 ==> b.MaxX <= bin.X + BinSize - 4
    ensures bin.Y + BinSize < TwoTo32 ==> b.MaxY <= bin.Y + BinSize - 4
    ensures IsU32(b.MinX) && IsU32(b.MinY) && IsU32(b.MaxX) && IsU32(b.MaxY)
  {
    var tri, i := bin.Triangle, bin.TriangleIndex;
    var minX, minY := AsU32(tri.MinX[i]), AsU32(tri.MinY[i]);
    var maxX := MinU32(AsU32(tri.MaxX[i]), WrapU32(bin.X + BinSize - 4));
    var maxY := MinU32(AsU32(tri.MaxY[i]), WrapU32(bin.Y + BinSize - 4));
    Box(minX, minY, if minX < bin.X then bin.X else minX, if minY < bin.Y then bin.Y else minY, maxX, maxY)
  }

  /** What the scan needs of a binned triangle in a `width` by `height`
      framebuffer: the bin's last tile does not wrap `uint32_t`, the clipped
      box starts on a tile boundary (which the rasterizer takes for granted),
      and a non-empty box lies inside the framebuffer. */
  predicate ScanFits(bin: BinnedTriangle, width: int, height: int)
    requires bin.Valid()
  {
    var b := BinBox(bin);
    bin.X + BinSize < TwoTo32 && bin.Y + BinSize < TwoTo32
    && b.MinX % TileSize == 0 && b.MinY % TileSize == 0
    && (b.MinX <= b.MaxX && b.MinY <= b.MaxY ==> b.MaxX < width && b.MaxY < height)
  }

  /** The inputs of the scan of `bin`: edge `k` is the one opposite vertex
      `k`, whose weight grows by `A` per pixel in x and `B` per pixel in y. */
  function SetupScan(bin: BinnedTriangle, width: int, height: int, depth: seq<real>,
                     newDepth: (int, int, int) -> real): (s: Scan)
    requires bin.Valid()
    ensures s.Box == BinBox(bin) && s.Lane == bin.TriangleIndex
    ensures s.Width == width && s.Height == height && s.Depth == depth && s.NewDepth == newDepth
    ensures s.Memory == PacketMemory(bin.Triangle.Vertices)
    ensures ScanFits(bin, width, height) && width >= 0 && height >= 0
            && width % TileSize == 0 && height % TileSize == 0 && |depth| == width * height
            ==> s.Valid()
  {
    var tri, i := bin.Triangle, bin.TriangleIndex;
    Scan(Edge(tri.Weight0[i], tri.A12[i], tri.B12[i]),
         Edge(tri.Weight1[i], tri.A20[i], tri.B20[i]),
         Edge(tri.Weight2[i], tri.A01[i], tri.B01[i]),
         BinBox(bin), width, height, depth, newDepth, PacketMemory(tri.Vertices), i)
  }

  // ---------------------------------------------------------------------------
  // The incremental edge values
  // ---------------------------------------------------------------------------

  /** `Weight + stepX * tileOffsX + stepY * tileOffsY` on lanes, with lane
      offsets congruent to the pixel offsets from the origin, is the edge value
      at each pixel of the box's first tile. */
  lemma EdgeRowStart(s: Scan, e: Edge, tx: seq<int>, ty: seq<int>)
    requires |tx| == W && |ty| == W
    requires forall k :: 0 <= k < W ==> Congruent(tx[k], s.Box.MinX + FragPixelOffsetsX[k] - s.Box.OrigX)
    requires forall k :: 0 <= k < W ==> Congruent(ty[k], s.Box.MinY + FragPixelOffsetsY[k] - s.Box.OrigY)
    ensures AddV(AddV(Broadcast(e.Weight), MulV(Broadcast(e.StepX), tx)), MulV(Broadcast(e.StepY), ty))
            == s.EdgeLanes(e, s.Box.MinX, s.Box.MinY)
  {
    var r := AddV(AddV(Broadcast(e.Weight), MulV(Broadcast(e.StepX), tx)), MulV(Broadcast(e.StepY), ty));
    forall k | 0 <= k < W
      ensures r[k] == s.EdgeLanes(e, s.Box.MinX, s.Box.MinY)[k]
    {
      EdgeRowStartLane(s, e, tx, ty, k);
    }
  }

  /** Lane `k` of `EdgeRowStart`. */
  lemma EdgeRowStartLane(s: Scan, e: Edge, tx: seq<int>, ty: seq<int>, k: int)
    requires |tx| == W && |ty| == W && 0 <= k < W
    requires Congruent(tx[k], s.Box.MinX + FragPixelOffsetsX[k] - s.Box.OrigX)
    requires Congruent(ty[k], s.Box.MinY + FragPixelOffsetsY[k] - s.Box.OrigY)
    ensures AddV(AddV(Broadcast(e.Weight), MulV(Broadcast(e.StepX), tx)), MulV(Broadcast(e.StepY), ty))[k]
            == s.EdgeLanes(e, s.Box.MinX, s.Box.MinY)[k]
  {
    var sx, sy := Broadcast(e.StepX), Broadcast(e.StepY);
    var mx, my := MulV(sx, tx), MulV(sy, ty);
    var sum := AddV(Broadcast(e.Weight), mx);
    assert mx[k] == WrapI32(e.StepX * tx[k]) && my[k] == WrapI32(e.StepY * ty[k]);
    assert sum[k] == WrapI32(e.Weight + WrapI32(e.StepX * tx[k]));
    assert AddV(sum, my)[k] == WrapI32(sum[k] + my[k]);
    var dx, dy := s.Box.MinX + k % 4 - s.Box.OrigX, s.Box.MinY + k / 4 - s.Box.OrigY;
    assert FragPixelOffsetsX[k] == k % 4 && FragPixelOffsetsY[k] == k / 4;
    EdgeStart(e, tx[k], ty[k], dx, dy);
    assert s.EdgeLanes(e, s.Box.MinX, s.Box.MinY)[k] == e.At(dx, dy);
  }

  /** The lane offsets of the first tile of the clipped box from the box
      origin, where `clippedX` and `clippedY` say whether the bin cut the box
      on the left or at the top. */
  function FirstTileOffsets(frag: seq<int>, lo: int, orig: int, clipped: bool): (t: seq<int>)
    requires IsVInt(frag)
    ensures IsVInt(t)
  {
    if clipped then AddV(frag, Broadcast(WrapI32(lo - orig))) else frag
  }

  /** The three edge vectors computed from the first tile's lane offsets are
      the edge values at the pixels of the box's first tile. */
  lemma RowStarts(s: Scan, clippedX: bool, clippedY: bool)
    requires IsU32(s.Box.MinX) && IsU32(s.Box.OrigX) && IsU32(s.Box.MinY) && IsU32(s.Box.OrigY)
    requires clippedX ==> s.Box.OrigX < s.Box.MinX
    requires !clippedX ==> s.Box.MinX == s.Box.OrigX
    requires clippedY ==> s.Box.OrigY < s.Box.MinY
    requires !clippedY ==> s.Box.MinY == s.Box.OrigY
    ensures var tx := FirstTileOffsets(FragPixelOffsetsX, s.Box.MinX, s.Box.OrigX, clippedX);
            var ty := FirstTileOffsets(FragPixelOffsetsY, s.Box.MinY, s.Box.OrigY, clippedY);
            s.EdgesAt(AddV(AddV(Broadcast(s.E0.Weight), MulV(Broadcast(s.E0.StepX), tx)), MulV(Broadcast(s.E0.StepY), ty)),
                      AddV(AddV(Broadcast(s.E1.Weight), MulV(Broadcast(s.E1.StepX), tx)), MulV(Broadcast(s.E1.StepY), ty)),
                      AddV(AddV(Broadcast(s.E2.Weight), MulV(Broadcast(s.E2.StepX), tx)), MulV(Broadcast(s.E2.StepY), ty)),
                      s.Box.MinX, s.Box.MinY)
  {
    FragOffsetsI32();
    var tx := FirstTileOffsets(FragPixelOffsetsX, s.Box.MinX, s.Box.OrigX, clippedX);
    var ty := FirstTileOffsets(FragPixelOffsetsY, s.Box.MinY, s.Box.OrigY, clippedY);
    StartOffsets(FragPixelOffsetsX, s.Box.MinX, s.Box.OrigX, clippedX);
    StartOffsets(FragPixelOffsetsY, s.Box.MinY, s.Box.OrigY, clippedY);
    EdgeRowStart(s, s.E0, tx, ty);
    EdgeRowStart(s, s.E1, tx, ty);
    EdgeRowStart(s, s.E2, tx, ty);
  }

  /** The lane offsets fit `int32_t` lanes. */
  lemma FragOffsetsI32()
    ensures IsVInt(FragPixelOffsetsX) && IsVInt(FragPixelOffsetsY)
  {
    assert forall k :: 0 <= k < W ==> 0 <= FragPixelOffsetsX[k] < 4;
    assert forall k :: 0 <= k < W ==> 0 <= FragPixelOffsetsY[k] < 4;
  }

  /** The per-tile step: the per-pixel step times four, wrapped, on every lane. */
  lemma StepTimesFour(a: int)
    ensures MulV(Broadcast(a), Broadcast(4)) == Broadcast(WrapI32(a * 4))
  {
  }

  /** Adding the wrapped step `4 * StepX` to an edge vector moves it one tile right. */
  lemma EdgeLanesStepX(s: Scan, e: Edge, x: int, y: int)
    ensures AddV(s.EdgeLanes(e, x, y), Broadcast(WrapI32(e.StepX * 4))) == s.EdgeLanes(e, x + 4, y)
  {
    var r := AddV(s.EdgeLanes(e, x, y), Broadcast(WrapI32(e.StepX * 4)));
    forall k | 0 <= k < W
      ensures r[k] == s.EdgeLanes(e, x + 4, y)[k]
    {
      EdgeStepX(e, x + k % 4 - s.Box.OrigX, y + k / 4 - s.Box.OrigY);
    }
  }

  /** Adding the wrapped step `4 * StepY` to an edge vector moves it one tile down. */
  lemma EdgeLanesStepY(s: Scan, e: Edge, x: int, y: int)
    ensures AddV(s.EdgeLanes(e, x, y), Broadcast(WrapI32(e.StepY * 4))) == s.EdgeLanes(e, x, y + 4)
  {
    var r := AddV(s.EdgeLanes(e, x, y), Broadcast(WrapI32(e.StepY * 4)));
    forall k | 0 <= k < W
      ensures r[k] == s.EdgeLanes(e, x, y + 4)[k]
    {
      EdgeStepY(e, x + k % 4 - s.Box.OrigX, y + k / 4 - s.Box.OrigY);
    }
  }

  /** `a`, `b` and `c` hold, on every lane, the steps of the three edges
      across one tile in x: four times their steps per pixel, wrapped. */
  predicate TileStepsX(s: Scan, a: seq<int>, b: seq<int>, c: seq<int>) {
    a == Broadcast(WrapI32(s.E0.StepX * 4)) && b == Broadcast(WrapI32(s.E1.StepX * 4))
    && c == Broadcast(WrapI32(s.E2.StepX * 4))
  }

  /** `a`, `b` and `c` hold the steps of the three edges across one tile in y. */
  predicate TileStepsY(s: Scan, a: seq<int>, b: seq<int>, c: seq<int>) {
    a == Broadcast(WrapI32(s.E0.StepY * 4)) && b == Broadcast(WrapI32(s.E1.StepY * 4))
    && c == Broadcast(WrapI32(s.E2.StepY * 4))
  }

  /** Edge vectors at tile (x, y), each stepped right by its wrapped step
      `4 * StepX`, are the edge values at the next tile. */
  lemma EdgesStepX(s: Scan, w0: seq<int>, w1: seq<int>, w2: seq<int>,
                   stepX0: seq<int>, stepX1: seq<int>, stepX2: seq<int>, x: int, y: int,
                   next0: seq<int>, next1: seq<int>, next2: seq<int>, next: int)
    requires s.EdgesAt(w0, w1, w2, x, y)
    requires TileStepsX(s, stepX0, stepX1, stepX2)
    requires next0 == AddV(w0, stepX0) && next1 == AddV(w1, stepX1) && next2 == AddV(w2, stepX2)
    requires next == x + 4
    ensures s.EdgesAt(next0, next1, next2, next, y)
  {
    EdgeLanesStepX(s, s.E0, x, y);
    EdgeLanesStepX(s, s.E1, x, y);
    EdgeLanesStepX(s, s.E2, x, y);
  }

  /** One step of the inner loop of `DrawBinnedTriangle`: the next tile of the
      row is `x + 4` without wrapping, and the stepped edge vectors are its
      edge values. */
  lemma StepRight(s: Scan, minX: int, maxX: int, m: nat, x: int, y: int,
                  w0: seq<int>, w1: seq<int>, w2: seq<int>,
                  stepX0: seq<int>, stepX1: seq<int>, stepX2: seq<int>,
                  next0: seq<int>, next1: seq<int>, next2: seq<int>, next: int)
    requires 0 <= minX && m < NumTiles(minX, maxX) && maxX + 4 < TwoTo32 && x == minX + 4 * m
    requires s.EdgesAt(w0, w1, w2, x, y)
    requires TileStepsX(s, stepX0, stepX1, stepX2)
    requires next0 == AddV(w0, stepX0) && next1 == AddV(w1, stepX1) && next2 == AddV(w2, stepX2)
    requires next == WrapU32(x + 4)
    ensures m + 1 <= NumTiles(minX, maxX) && next == minX + 4 * (m + 1)
    ensures s.EdgesAt(next0, next1, next2, next, y)
  {
    NextTile(minX, maxX, m, x);
    EdgesStepX(s, w0, w1, w2, stepX0, stepX1, stepX2, x, y, next0, next1, next2, next);
  }

  /** Edge vectors at tile (x, y), each stepped down by its wrapped step
      `4 * StepY`, are the edge values at the tile below. */
  lemma EdgesStepY(s: Scan, w0: seq<int>, w1: seq<int>, w2: seq<int>,
                   stepY0: seq<int>, stepY1: seq<int>, stepY2: seq<int>, x: int, y: int,
                   next0: seq<int>, next1: seq<int>, next2: seq<int>, next: int)
    requires s.EdgesAt(w0, w1, w2, x, y)
    requires TileStepsY(s, stepY0, stepY1, stepY2)
    requires next0 == AddV(w0, stepY0) && next1 == AddV(w1, stepY1) && next2 == AddV(w2, stepY2)
    requires next == y + 4
    ensures s.EdgesAt(next0, next1, next2, x, next)
  {
    EdgeLanesStepY(s, s.E0, x, y);
    EdgeLanesStepY(s, s.E1, x, y);
    EdgeLanesStepY(s, s.E2, x, y);
  }

  /** `(w0 | w1 | w2) >= 0` on the edge vectors of tile (x, y) holds in
      exactly the lanes whose pixel is inside all three edges: the sign bit of
      the or is set iff one of the three sign bits is. */
  lemma CoverageOfEdges(s: Scan, w0: seq<int>, w1: seq<int>, w2: seq<int>, x: int, y: int)
    requires s.EdgesAt(w0, w1, w2, x, y)
    ensures IsVInt(w0) && IsVInt(w1) && IsVInt(w2)
    ensures NonNegative(OrV(OrV(w0, w1), w2)) == s.Coverage(x, y)
  {
    var m := NonNegative(OrV(OrV(w0, w1), w2));
    assert forall k :: 0 <= k < W ==> m[k] == s.Coverage(x, y)[k];
  }

  /** The lane offsets of the first tile: `FragPixelOffsets`, plus the distance
      from the triangle's box to the bin when the box starts left of the bin. */
  lemma StartOffsets(frag: seq<int>, lo: int, orig: int, clipped: bool)
    requires IsVInt(frag)
    requires IsU32(lo) && IsU32(orig) && (clipped ==> orig < lo) && (!clipped ==> lo == orig)
    ensures var t := FirstTileOffsets(frag, lo, orig, clipped);
            forall k :: 0 <= k < W ==> Congruent(t[k], lo + frag[k] - orig)
  {
    var t := FirstTileOffsets(frag, lo, orig, clipped);
    forall k | 0 <= k < W
      ensures Congruent(t[k], lo + frag[k] - orig)
    {
      if clipped {
        WrapI32AddLeft(lo - orig, frag[k]);
        var d := lo - orig + frag[k];
        assert t[k] == WrapI32(d);
        CongruentSym(d, WrapI32(d));
      } else {
        assert t[k] - (lo + frag[k] - orig) == 0 * TwoTo32;
      }
    }
  }

  /** `tile` agrees with the scan's tile function at (x, y). */
  ghost predicate TileOf(s: Scan, tile: (int, int) -> seq<ShadeCall>, x: int, y: int) {
    tile(x, y) == s.TileCall(x, y)
  }

  /** A tile whose lanes are all outside the triangle makes no call. */
  lemma TileUncovered(s: Scan, tile: (int, int) -> seq<ShadeCall>, x: int, y: int)
    requires forall a, b {:trigger TileOf(s, tile, a, b)} :: TileOf(s, tile, a, b)
    requires !Any(s.Coverage(x, y))
    ensures tile(x, y) == []
  {
    assert TileOf(s, tile, x, y);
  }

  /** A tile with a lane inside the triangle makes a call exactly when a lane
      inside the triangle also passes the depth test against the sixteen
      stored depths of the tile; the call's mask is those lanes. */
  lemma TileCovered(s: Scan, tile: (int, int) -> seq<ShadeCall>, x: int, y: int,
                    offset: int, oldDepth: seq<real>, depth: seq<real>)
    requires forall a, b {:trigger TileOf(s, tile, a, b)} :: TileOf(s, tile, a, b)
    requires s.Valid() && s.InCols(x) && s.InRows(y) && Any(s.Coverage(x, y))
    requires offset == PixelOffset(x, y, s.Width / TileSize)
    requires 0 <= offset && offset + W <= |s.Depth| && oldDepth == s.Depth[offset..offset + W]
    requires depth == s.FragmentDepth(x, y)
    ensures var mask := AndM(s.Coverage(x, y), LessF(depth, oldDepth));
            tile(x, y) == if Any(mask) then [ShadeCall(x, y, VaryingBuffer(s.Memory, 4 * W + s.Lane, offset, mask, depth))] else []
  {
    assert TileOf(s, tile, x, y);
  }

  /** A tile-aligned column left of a tile-aligned width leaves room for the
      whole tile. */
  lemma TileFits(v: int, size: int)
    requires 0 <= v < size && v % TileSize == 0 && size % TileSize == 0
    ensures v + 3 < size
  {
    DivModUnique(v, TileSize, v / TileSize, 0);
    DivModUnique(size, TileSize, size / TileSize, 0);
  }

  // ---------------------------------------------------------------------------
  // The rasterizer
  // ---------------------------------------------------------------------------

  /** The rasterizer's framebuffer. The batch, the clipper and the shader
      plumbing are not part of the scan. */
  class Rasterizer {
    const Fb: Framebuffer

    constructor (fb: Framebuffer)
      ensures Fb == fb
    {
      Fb := fb;
    }

    /** `DrawBinnedTriangle`: scans the bin's part of the triangle tile by tile,
        top to bottom and left to right, and returns the pixel shader calls it
        makes, in order. They are exactly the calls of the scan's direct
        specification: one per tile with a lane inside all three edges whose
        fragment is nearer than the stored depth, with the mask of those lanes.
        `newDepth(x, y, k)` is the interpolated depth of lane `k` of the tile
        at (x, y). */
    method DrawBinnedTriangle(bin: BinnedTriangle, newDepth: (int, int, int) -> real) returns (calls: seq<ShadeCall>)
      requires Fb.Valid() && bin.Valid()
      requires ScanFits(bin, Fb.Width, Fb.Height)
      ensures calls == SetupScan(bin, Fb.Width, Fb.Height, Fb.DepthBuffer[..], newDepth).Calls()
    {
      var fb := Fb;
      var tri := bin.Triangle;
      var i := bin.TriangleIndex;

      var minX, minY := AsU32(tri.MinX[i]), AsU32(tri.MinY[i]);
      var maxX := MinU32(AsU32(tri.MaxX[i]), WrapU32(bin.X + BinSize - 4));
      var maxY := MinU32(AsU32(tri.MaxY[i]), WrapU32(bin.Y + BinSize - 4));

      FragOffsetsI32();
      var tileOffsX, tileOffsY := FragPixelOffsetsX, FragPixelOffsetsY;
      ghost var clippedX, clippedY := minX < bin.X, minY < bin.Y;
      if minX < bin.X {
        tileOffsX := AddV(tileOffsX, Broadcast(WrapI32(bin.X - minX)));
        minX := bin.X;
      }
      if minY < bin.Y {
        tileOffsY := AddV(tileOffsY, Broadcast(WrapI32(bin.Y - minY)));
        minY := bin.Y;
      }
      ghost var box := BinBox(bin);
      assert minX == box.MinX;
      assert minY == box.MinY;
      assert maxX == box.MaxX && maxY == box.MaxY;
      calls := ScanTriangle(bin, minX, minY, maxX, maxY, tileOffsX, tileOffsY, clippedX, clippedY, newDepth);
    }

    /** The rest of `DrawBinnedTriangle`, from the clamped box and the lane
        offsets of its first tile (`clippedX` and `clippedY` say whether the
        bin cut the box): the edge values at that tile and the edge steps per
        tile, then the loops over the box. */
    method ScanTriangle(bin: BinnedTriangle, minX: int, minY: int, maxX: int, maxY: int,
                        tileOffsX: seq<int>, tileOffsY: seq<int>, ghost clippedX: bool, ghost clippedY: bool,
                        newDepth: (int, int, int) -> real)
      returns (calls: seq<ShadeCall>)
      requires Fb.Valid() && bin.Valid()
      requires ScanFits(bin, Fb.Width, Fb.Height)
      requires var box := BinBox(bin);
               minX == box.MinX && minY == box.MinY && maxX == box.MaxX && maxY == box.MaxY
               && (clippedX ==> box.OrigX < minX) && (!clippedX ==> minX == box.OrigX)
               && (clippedY ==> box.OrigY < minY) && (!clippedY ==> minY == box.OrigY)
               && tileOffsX == FirstTileOffsets(FragPixelOffsetsX, minX, box.OrigX, clippedX)
               && tileOffsY == FirstTileOffsets(FragPixelOffsetsY, minY, box.OrigY, clippedY)
      ensures calls == SetupScan(bin, Fb.Width, Fb.Height, Fb.DepthBuffer[..], newDepth).Calls()
    {
      var tri := bin.Triangle;
      var i := bin.TriangleIndex;
      ghost var s := SetupScan(bin, Fb.Width, Fb.Height, Fb.DepthBuffer[..], newDepth);
      RowStarts(s, clippedX, clippedY);

      var stepX0, stepX1, stepX2 := Broadcast(tri.A12[i]), Broadcast(tri.A20[i]), Broadcast(tri.A01[i]);
      var stepY0, stepY1, stepY2 := Broadcast(tri.B12[i]), Broadcast(tri.B20[i]), Broadcast(tri.B01[i]);

      var rowW0 := AddV(AddV(Broadcast(tri.Weight0[i]), MulV(stepX0, tileOffsX)), MulV(stepY0, tileOffsY));
      var rowW1 := AddV(AddV(Broadcast(tri.Weight1[i]), MulV(stepX1, tileOffsX)), MulV(stepY1, tileOffsY));
      var rowW2 := AddV(AddV(Broadcast(tri.Weight2[i]), MulV(stepX2, tileOffsX)), MulV(stepY2, tileOffsY));

      stepX0, stepX1, stepX2 := MulV(stepX0, Broadcast(4)), MulV(stepX1, Broadcast(4)), MulV(stepX2, Broadcast(4));
      stepY0, stepY1, stepY2 := MulV(stepY0, Broadcast(4)), MulV(stepY1, Broadcast(4)), MulV(stepY2, Broadcast(4));
      StepTimesFour(tri.A12[i]); StepTimesFour(tri.A20[i]); StepTimesFour(tri.A01[i]);
      StepTimesFour(tri.B12[i]); StepTimesFour(tri.B20[i]); StepTimesFour(tri.B01[i]);

      calls := ScanTiles(s, s.Tiles(), minX, minY, maxX, maxY, rowW0, rowW1, rowW2,
                         stepX0, stepX1, stepX2, stepY0, stepY1, stepY2, PacketMemory(tri.Vertices), i, newDepth);
    }

    /** What the loops of `DrawBinnedTriangle` rely on: the scan's frame is
        this framebuffer, `tile` is the scan's tile function, and the shader
        reads the scan's vertex memory and lane. */
    ghost predicate Scanning(s: Scan, tile: (int, int) -> seq<ShadeCall>, memory: seq<real>, i: int,
                             newDepth: (int, int, int) -> real)
      reads Fb.DepthBuffer
    {
      Fb.Valid() && s.Valid()
      && (forall a, b {:trigger TileOf(s, tile, a, b)} :: TileOf(s, tile, a, b))
      && s.Width == Fb.Width && s.Height == Fb.Height && s.Depth == Fb.DepthBuffer[..]
      && s.NewDepth == newDepth && s.Lane == i && s.Memory == memory
    }

    /** The outer loop of `DrawBinnedTriangle`, from the edge values at the
        first tile and the edge steps per tile: the rows of tiles of the box,
        top to bottom, stepping the edge values down a tile per row. `tile` is
        the scan's tile function, named apart so that the proof of the loops
        looks at one tile at a time. */
    method ScanTiles(ghost s: Scan, ghost tile: (int, int) -> seq<ShadeCall>, minX: int, minY: int, maxX: int, maxY: int,
                     rowW0: seq<int>, rowW1: seq<int>, rowW2: seq<int>,
                     stepX0: seq<int>, stepX1: seq<int>, stepX2: seq<int>,
                     stepY0: seq<int>, stepY1: seq<int>, stepY2: seq<int>,
                     memory: seq<real>, i: int, newDepth: (int, int, int) -> real)
      returns (calls: seq<ShadeCall>)
      requires Scanning(s, tile, memory, i, newDepth)
      requires minX == s.Box.MinX && minY == s.Box.MinY && maxX == s.Box.MaxX && maxY == s.Box.MaxY
      requires IsU32(minX) && IsU32(minY) && maxX + 4 < TwoTo32 && maxY + 4 < TwoTo32
      requires s.EdgesAt(rowW0, rowW1, rowW2, minX, minY)
      requires TileStepsX(s, stepX0, stepX1, stepX2) && TileStepsY(s, stepY0, stepY1, stepY2)
      ensures calls == RowsOf(tile, minX, NumTiles(minX, maxX), minY, NumTiles(minY, maxY))
    {
      var rowW0, rowW1, rowW2 := rowW0, rowW1, rowW2;
      calls := [];
      var y := minY;
      ghost var n: nat := 0;
      while y <= maxY
        invariant n <= NumTiles(minY, maxY) && y == minY + 4 * n
        invariant s.EdgesAt(rowW0, rowW1, rowW2, minX, y)
        invariant calls == RowsOf(tile, minX, NumTiles(minX, maxX), minY, n)
        decreases NumTiles(minY, maxY) - n
      {
        TileRow(s, n);
        var row;
        row := ScanRow(s, tile, y, minX, maxX, rowW0, rowW1, rowW2, stepX0, stepX1, stepX2, memory, i, newDepth);
        calls := calls + row;
        RowsOfStep(tile, minX, NumTiles(minX, maxX), minY, n, y, calls);
        ghost var w0', w1', w2', y' := rowW0, rowW1, rowW2, y;
        rowW0, rowW1, rowW2 := AddV(rowW0, stepY0), AddV(rowW1, stepY1), AddV(rowW2, stepY2);
        NextTile(minY, maxY, n, y);
        y := WrapU32(y + 4);
        EdgesStepY(s, w0', w1', w2', stepY0, stepY1, stepY2, minX, y', rowW0, rowW1, rowW2, y);
        n := n + 1;
      }
    }

    /** The inner loop of `DrawBinnedTriangle`, at row `y`: the tiles of the
        row, left to right, stepping the edge values right a tile per tile. */
    method ScanRow(ghost s: Scan, ghost tile: (int, int) -> seq<ShadeCall>, y: int, minX: int, maxX: int,
                   rowW0: seq<int>, rowW1: seq<int>, rowW2: seq<int>,
                   stepX0: seq<int>, stepX1: seq<int>, stepX2: seq<int>,
                   memory: seq<real>, i: int, newDepth: (int, int, int) -> real)
      returns (row: seq<ShadeCall>)
      requires Scanning(s, tile, memory, i, newDepth) && s.InRows(y) && IsU32(y)
      requires minX == s.Box.MinX && maxX == s.Box.MaxX && IsU32(minX) && maxX + 4 < TwoTo32
      requires s.EdgesAt(rowW0, rowW1, rowW2, minX, y)
      requires TileStepsX(s, stepX0, stepX1, stepX2)
      ensures row == RowOf(tile, minX, y, NumTiles(minX, maxX))
    {
      var w0, w1, w2 := rowW0, rowW1, rowW2;
      row := [];
      var x := minX;
      ghost var m: nat := 0;
      while x <= maxX
        invariant m <= NumTiles(minX, maxX) && x == minX + 4 * m
        invariant s.EdgesAt(w0, w1, w2, x, y)
        invariant row == RowOf(tile, minX, y, m)
        decreases NumTiles(minX, maxX) - m
      {
        assert m < NumTiles(minX, maxX);
        Column(s, m);
        var calls := ShadeTile(s, tile, x, y, w0, w1, w2, memory, i, newDepth);
        row := row + calls;
        RowOfStep(tile, minX, y, m, x, row);
        var n0, n1, n2 := AddV(w0, stepX0), AddV(w1, stepX1), AddV(w2, stepX2);
        var nx := WrapU32(x + 4);
        StepRight(s, minX, maxX, m, x, y, w0, w1, w2, stepX0, stepX1, stepX2, n0, n1, n2, nx);
        w0, w1, w2, x := n0, n1, n2, nx;
        m := m + 1;
      }
    }

    /** The body of the inner loop of `DrawBinnedTriangle` at tile (x, y) of
        the box, given the edge values of its lanes: the tile's coverage mask;
        for a covered tile the depth test against the sixteen stored depths of
        its pixels, and a shader call when a covered lane also passes it, with
        the mask of those lanes. */
    method ShadeTile(ghost s: Scan, ghost tile: (int, int) -> seq<ShadeCall>, x: int, y: int,
                     w0: seq<int>, w1: seq<int>, w2: seq<int>,
                     memory: seq<real>, i: int, newDepth: (int, int, int) -> real)
      returns (calls: seq<ShadeCall>)
      requires Scanning(s, tile, memory, i, newDepth) && s.InCols(x) && s.InRows(y) && IsU32(x) && IsU32(y)
      requires s.EdgesAt(w0, w1, w2, x, y)
      ensures calls == tile(x, y)
    {
      CoverageOfEdges(s, w0, w1, w2, x, y);
      var tileMask := NonNegative(OrV(OrV(w0, w1), w2));
      calls := [];
      if Any(tileMask) {
        calls := DepthTest(s, tile, x, y, tileMask, memory, i, newDepth);
      } else {
        TileUncovered(s, tile, x, y);
      }
    }

    /** The covered branch of the inner loop of `DrawBinnedTriangle`: the
        depth test of the tile's fragments against the sixteen stored depths
        of its pixels, and a shader call when a covered lane passes it, with
        the mask of those lanes. */
    method DepthTest(ghost s: Scan, ghost tile: (int, int) -> seq<ShadeCall>, x: int, y: int, tileMask: seq<bool>,
                     memory: seq<real>, i: int, newDepth: (int, int, int) -> real)
      returns (calls: seq<ShadeCall>)
      requires Scanning(s, tile, memory, i, newDepth) && s.InCols(x) && s.InRows(y) && IsU32(x) && IsU32(y)
      requires tileMask == s.Coverage(x, y) && Any(tileMask)
      ensures calls == tile(x, y)
    {
      var fb := Fb;
      TileFits(x, fb.Width);
      TileFits(y, fb.Height);
      var tileOffset := fb.GetPixelOffset(x, y);
      TileInFrame(fb.Width, fb.Height, x, y);
      var oldDepth := fb.DepthBuffer[tileOffset..tileOffset + W];
      var depth := FragmentDepths(newDepth, x, y, W);
      TileCovered(s, tile, x, y, tileOffset, oldDepth, depth);
      var mask := AndM(tileMask, LessF(depth, oldDepth));
      calls := [];
      if Any(mask) {
        calls := [ShadeCall(x, y, VaryingBuffer(memory, 4 * W + i, tileOffset, mask, depth))];
      }
    }
  }

  // ---------------------------------------------------------------------------
  // Properties of the scan of a bin
  // ---------------------------------------------------------------------------

  /** Every tile the scan of a bin shades lies inside the bin and inside the
      triangle's bounding box: binning a triangle to several bins shades each
      of its tiles from one bin only. */
  lemma ScanStaysInBin(bin: BinnedTriangle, width: int, height: int, depth: seq<real>,
                       newDepth: (int, int, int) -> real, c: ShadeCall)
    requires bin.Valid() && bin.X + BinSize < TwoTo32 && bin.Y + BinSize < TwoTo32
    requires c in SetupScan(bin, width, height, depth, newDepth).Calls()
    ensures bin.X <= c.X && c.X + TileSize <= bin.X + BinSize
    ensures bin.Y <= c.Y && c.Y + TileSize <= bin.Y + BinSize
    ensures AsU32(bin.Triangle.MinX[bin.TriangleIndex]) <= c.X <= AsU32(bin.Triangle.MaxX[bin.TriangleIndex])
    ensures AsU32(bin.Triangle.MinY[bin.TriangleIndex]) <= c.Y <= AsU32(bin.Triangle.MaxY[bin.TriangleIndex])
  {
    CallOfScan(SetupScan(bin, width, height, depth, newDepth), c);
  }

  /** The order the rasterizer's compiler is told to take for granted about
      the clipped box: its left edge at or right of its right edge, and its
      top edge at or below its bottom edge. */
  predicate AssumedBoxOrder(bin: BinnedTriangle)
    requires bin.Valid()
  {
    BinBox(bin).MinX >= BinBox(bin).MaxX && BinBox(bin).MinY >= BinBox(bin).MaxY
  }

  /** A packet whose lanes all hold the triangle with bounding box
      (0, 0) .. (8, 4) and unit edge steps. */
  function WideTriangle(): (t: TrianglePacket)
    ensures t.Valid()
  {
    var z := Broadcast(0);
    var one := Broadcast(1);
    TrianglePacket(z, z, Broadcast(8), Broadcast(4), z, z, z, one, one, one, one, one, one,
                   seq(TriangleVertices, _ => seq(PacketSlots, _ => seq(W, _ => 0.0))))
  }

  /** The assumed order fails for an ordinary triangle two tiles wide inside
      one bin, whose scan covers more than one tile column and row; the
      rasterizer's loops, modelled without the assumption, scan every tile. */
  lemma AssumedBoxOrderFails()
    ensures var bin := BinnedTriangle(0, 0, 0, WideTriangle());
            bin.Valid() && !AssumedBoxOrder(bin)
            && NumTiles(BinBox(bin).MinX, BinBox(bin).MaxX) == 3
            && NumTiles(BinBox(bin).MinY, BinBox(bin).MaxY) == 2
  {
    var bin := BinnedTriangle(0, 0, 0, WideTriangle());
    assert BinBox(bin).MaxX == 8 && BinBox(bin).MaxY == 4;
  }
}
