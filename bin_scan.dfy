/** What the scan of one triangle over one bin computes, stated directly: for
    every 4x4 tile of the clamped bounding box, from the edge functions at
    each pixel and the depth buffer, without the incremental updates of the
    rasterizer's loops. */
module BinScan {
  import opened MachineInt
  import opened Simd
  import opened Framebuffers
  import opened Varyings

  /** One edge function of a triangle: its value at the bounding box origin
      and its increments per pixel step in x and in y. */
  datatype Edge = Edge(Weight: int, StepX: int, StepY: int)
  {
    /** The `int32_t` edge value `dx` pixels right of and `dy` pixels below
        the origin. */
    function At(dx: int, dy: int): (v: int)
      ensures IsI32(v)
    {
      WrapI32(Weight + StepX * dx + StepY * dy)
    }
  }

  /** Moving four pixels right adds the wrapped step `4 * StepX`: the
      rasterizer's incremental update agrees with the direct formula. */
  lemma EdgeStepX(e: Edge, dx: int, dy: int)
    ensures e.At(dx + 4, dy) == WrapI32(e.At(dx, dy) + WrapI32(e.StepX * 4))
  {
    assert e.StepX * (dx + 4) == e.StepX * dx + e.StepX * 4;
    WrapI32AddBoth(e.Weight + e.StepX * dx + e.StepY * dy, e.StepX * 4);
  }

  /** Moving four pixels down adds the wrapped step `4 * StepY`. */
  lemma EdgeStepY(e: Edge, dx: int, dy: int)
    ensures e.At(dx, dy + 4) == WrapI32(e.At(dx, dy) + WrapI32(e.StepY * 4))
  {
    assert e.StepY * (dy + 4) == e.StepY * dy + e.StepY * 4;
    WrapI32AddBoth(e.Weight + e.StepX * dx + e.StepY * dy, e.StepY * 4);
  }

  /** The start value `Weight + StepX * tx + StepY * ty` of a lane, computed with
      wrapping lane operations from offsets congruent to the exact ones, is the
      edge value at the exact offsets. */
  lemma EdgeStart(e: Edge, tx: int, ty: int, dx: int, dy: int)
    requires Congruent(tx, dx) && Congruent(ty, dy)
    ensures WrapI32(WrapI32(e.Weight + WrapI32(e.StepX * tx)) + WrapI32(e.StepY * ty)) == e.At(dx, dy)
  {
    WrapI32MulCongruent(e.StepX, tx, dx);
    WrapI32MulCongruent(e.StepY, ty, dy);
    WrapI32AddLeft(e.StepX * dx, e.Weight);
    WrapI32AddBoth(e.Weight + e.StepX * dx, e.StepY * dy);
  }

  /** The scan rectangle: the triangle's bounding box origin, against which
      edge values are measured, and the box clamped to the bin. */
  datatype Box = Box(OrigX: int, OrigY: int, MinX: int, MinY: int, MaxX: int, MaxY: int)

  /** One call of the pixel shader: the tile's top-left pixel and the varying
      buffer handed to the shader. */
  datatype ShadeCall = ShadeCall(X: int, Y: int, Vars: VaryingBuffer)

  /** Tiles with top-left coordinate `lo, lo + 4, ...` up to `hi`. */
  function NumTiles(lo: int, hi: int): (n: nat)
    ensures lo <= hi ==> lo + 4 * (n - 1) <= hi < lo + 4 * n
    ensures lo > hi ==> n == 0
  {
    if lo <= hi then (hi - lo) / 4 + 1 else 0
  }

  /** The next tile column or row after tile `m` of `lo .. hi`: when the
      `uint32_t` coordinate does not wrap, it is tile `m + 1`. */
  lemma NextTile(lo: int, hi: int, m: nat, v: int)
    requires 0 <= lo && m < NumTiles(lo, hi) && hi + 4 < TwoTo32 && v == lo + 4 * m
    ensures WrapU32(v + 4) == v + 4 == lo + 4 * (m + 1) && m + 1 <= NumTiles(lo, hi)
  {
  }

  /** The depths of the first `n` fragments of the tile at (x, y), lane `k`
      holding `newDepth(x, y, k)`. */
  function FragmentDepths(newDepth: (int, int, int) -> real, x: int, y: int, n: nat): (d: seq<real>)
    ensures |d| == n && forall k :: 0 <= k < n ==> d[k] == newDepth(x, y, k)
  {
    if n == 0 then [] else FragmentDepths(newDepth, x, y, n - 1) + [newDepth(x, y, n - 1)]
  }

  /** Every input of the scan: the three edge functions, the box, the
      framebuffer's size and depth plane, the depth of each fragment, and the
      vertex memory and lane the shader reads attributes from. */
  datatype Scan = Scan(E0: Edge, E1: Edge, E2: Edge, Box: Box,
                       Width: int, Height: int, Depth: seq<real>,
                       NewDepth: (int, int, int) -> real,
                       Memory: seq<real>, Lane: int)
  {
    predicate Valid() {
      Width >= 0 && Height >= 0 && Width % TileSize == 0 && Height % TileSize == 0
      && |Depth| == Width * Height
      && 0 <= Box.MinX && 0 <= Box.MinY && Box.MinX % TileSize == 0 && Box.MinY % TileSize == 0
      && (Box.MinX <= Box.MaxX && Box.MinY <= Box.MaxY ==> Box.MaxX < Width && Box.MaxY < Height)
      && |Memory| == 3 * 256 && 0 <= Lane < W
    }

    /** All three edge functions are non-negative at pixel (px, py). */
    predicate Covered(px: int, py: int) {
      E0.At(px - Box.OrigX, py - Box.OrigY) >= 0
      && E1.At(px - Box.OrigX, py - Box.OrigY) >= 0
      && E2.At(px - Box.OrigX, py - Box.OrigY) >= 0
    }

    predicate InCols(x: int) { Box.MinX <= x <= Box.MaxX && x % TileSize == 0 }
    predicate InRows(y: int) { Box.MinY <= y <= Box.MaxY && y % TileSize == 0 }

    /** Lane `k` of a tile is pixel `(x + k % 4, y + k / 4)`. */
    function Coverage(x: int, y: int): (m: seq<bool>)
      ensures IsVMask(m) && forall k :: 0 <= k < W ==> (m[k] <==> Covered(x + k % 4, y + k / 4))
    {
      CoverageTo(x, y, W)
    }

    /** The first `n` lanes of `Coverage(x, y)`. */
    function CoverageTo(x: int, y: int, n: nat): (m: seq<bool>)
      ensures |m| == n && forall k :: 0 <= k < n ==> (m[k] <==> Covered(x + k % 4, y + k / 4))
    {
      if n == 0 then [] else CoverageTo(x, y, n - 1) + [Covered(x + (n - 1) % 4, y + (n - 1) / 4)]
    }

    function FragmentDepth(x: int, y: int): (d: seq<real>)
      ensures IsVFloat(d) && forall k :: 0 <= k < W ==> d[k] == NewDepth(x, y, k)
    {
      FragmentDepths(NewDepth, x, y, W)
    }

    /** The values of edge `e` at the sixteen pixels of the tile whose
        top-left pixel is (x, y), lane `k` at pixel `(x + k % 4, y + k / 4)`. */
    function EdgeLanes(e: Edge, x: int, y: int): (v: seq<int>)
      ensures |v| == W
    {
      EdgeLanesTo(e, x, y, W)
    }

    /** The first `n` lanes of `EdgeLanes(e, x, y)`. */
    function EdgeLanesTo(e: Edge, x: int, y: int, n: nat): (v: seq<int>)
      ensures |v| == n && forall k :: 0 <= k < n ==> v[k] == e.At(x + k % 4 - Box.OrigX, y + k / 4 - Box.OrigY)
    {
      if n == 0 then [] else EdgeLanesTo(e, x, y, n - 1) + [e.At(x + (n - 1) % 4 - Box.OrigX, y + (n - 1) / 4 - Box.OrigY)]
    }

    /** `w0, w1, w2` hold the three edge values at the tile at (x, y). */
    predicate EdgesAt(w0: seq<int>, w1: seq<int>, w2: seq<int>, x: int, y: int) {
      w0 == EdgeLanes(E0, x, y) && w1 == EdgeLanes(E1, x, y) && w2 == EdgeLanes(E2, x, y)
    }

    /** What the scan does at tile (x, y): nothing outside the box, and nothing
        unless some lane is inside the triangle and some such lane also passes
        the depth test; then one shader call whose mask holds exactly those
        lanes. */
    function TileCall(x: int, y: int): (r: seq<ShadeCall>)
      ensures |r| <= 1
      ensures |r| == 1 ==> r[0].X == x && r[0].Y == y && Valid() && InCols(x) && InRows(y)
    {
      if !(Valid() && InCols(x) && InRows(y)) then []
      else
        var cov := Coverage(x, y);
        if !Any(cov) then []
        else
          var offset := PixelOffset(x, y, Width / TileSize);
          TileInFrame(Width, Height, x, y);
          var depth := FragmentDepth(x, y);
          var mask := AndM(cov, LessF(depth, Depth[offset..offset + W]));
          if Any(mask) then [ShadeCall(x, y, VaryingBuffer(Memory, 4 * W + Lane, offset, mask, depth))]
          else []
    }

    function Tiles(): (int, int) -> seq<ShadeCall> {
      (x, y) => TileCall(x, y)
    }

    /** The calls of the first `m` tiles of row `y`, left to right. */
    function Row(y: int, m: nat): seq<ShadeCall> {
      RowOf(Tiles(), Box.MinX, y, m)
    }

    /** The calls of the first `n` rows of tiles, top to bottom. */
    function Rows(n: nat): seq<ShadeCall> {
      RowsOf(Tiles(), Box.MinX, NumTiles(Box.MinX, Box.MaxX), Box.MinY, n)
    }

    /** Every shader call of the scan, in order. */
    function Calls(): seq<ShadeCall> {
      Rows(NumTiles(Box.MinY, Box.MaxY))
    }
  }

  /** The calls of tiles `x0, x0 + 4, ...` of row `y`, `m` of them. */
  function RowOf(tile: (int, int) -> seq<ShadeCall>, x0: int, y: int, m: nat): seq<ShadeCall> {
    if m == 0 then [] else RowOf(tile, x0, y, m - 1) + tile(x0 + 4 * (m - 1), y)
  }

  /** The calls of rows `y0, y0 + 4, ...`, `n` of them, each `nx` tiles long. */
  function RowsOf(tile: (int, int) -> seq<ShadeCall>, x0: int, nx: nat, y0: int, n: nat): seq<ShadeCall> {
    if n == 0 then [] else RowsOf(tile, x0, nx, y0, n - 1) + RowOf(tile, x0, y0 + 4 * (n - 1), nx)
  }

  /** One more tile of a row appends that tile's calls. */
  lemma RowOfStep(tile: (int, int) -> seq<ShadeCall>, x0: int, y: int, m: nat, x: int, row: seq<ShadeCall>)
    requires x == x0 + 4 * m && row == RowOf(tile, x0, y, m) + tile(x, y)
    ensures row == RowOf(tile, x0, y, m + 1)
  {
  }

  /** One more row appends that row's calls. */
  lemma RowsOfStep(tile: (int, int) -> seq<ShadeCall>, x0: int, nx: nat, y0: int, n: nat, y: int, rows: seq<ShadeCall>)
    requires y == y0 + 4 * n && rows == RowsOf(tile, x0, nx, y0, n) + RowOf(tile, x0, y, nx)
    ensures rows == RowsOf(tile, x0, nx, y0, n + 1)
  {
  }

  /** A tile function makes at most one call, and that call names its tile. */
  ghost predicate TileShaped(tile: (int, int) -> seq<ShadeCall>) {
    forall x, y :: |tile(x, y)| <= 1 && (|tile(x, y)| == 1 ==> tile(x, y)[0].X == x && tile(x, y)[0].Y == y)
  }

  /** Every call of a row is its tile's call, the row's tiles are visited left
      to right, each once. */
  lemma {:induction false} RowOfSound(tile: (int, int) -> seq<ShadeCall>, x0: int, y: int, m: nat)
    requires TileShaped(tile)
    ensures forall j :: 0 <= j < |RowOf(tile, x0, y, m)| ==>
              tile(RowOf(tile, x0, y, m)[j].X, y) == [RowOf(tile, x0, y, m)[j]]
              && RowOf(tile, x0, y, m)[j].Y == y && RowOf(tile, x0, y, m)[j].X < x0 + 4 * m
    ensures forall a, b :: 0 <= a < b < |RowOf(tile, x0, y, m)| ==>
              RowOf(tile, x0, y, m)[a].X < RowOf(tile, x0, y, m)[b].X
  {
    if m > 0 {
      RowOfSound(tile, x0, y, m - 1);
      var t := tile(x0 + 4 * (m - 1), y);
      if |t| == 1 {
        assert t == [t[0]];
      }
    }
  }

  /** A row holds the call of each of its tiles that makes one. */
  lemma {:induction false} RowOfComplete(tile: (int, int) -> seq<ShadeCall>, x0: int, y: int, m: nat, j: nat)
    requires j < m && |tile(x0 + 4 * j, y)| == 1
    ensures tile(x0 + 4 * j, y)[0] in RowOf(tile, x0, y, m)
  {
    if j < m - 1 {
      RowOfComplete(tile, x0, y, m - 1, j);
    }
  }

  /** Every call of the rows is its tile's call, visited in row order and, within
      a row, left to right, each tile once. */
  lemma {:induction false} RowsOfSound(tile: (int, int) -> seq<ShadeCall>, x0: int, nx: nat, y0: int, n: nat)
    requires TileShaped(tile)
    ensures forall j :: 0 <= j < |RowsOf(tile, x0, nx, y0, n)| ==>
              tile(RowsOf(tile, x0, nx, y0, n)[j].X, RowsOf(tile, x0, nx, y0, n)[j].Y) == [RowsOf(tile, x0, nx, y0, n)[j]]
              && RowsOf(tile, x0, nx, y0, n)[j].Y < y0 + 4 * n
    ensures forall a, b :: 0 <= a < b < |RowsOf(tile, x0, nx, y0, n)| ==>
              RowsOf(tile, x0, nx, y0, n)[a].Y < RowsOf(tile, x0, nx, y0, n)[b].Y
              || (RowsOf(tile, x0, nx, y0, n)[a].Y == RowsOf(tile, x0, nx, y0, n)[b].Y
                  && RowsOf(tile, x0, nx, y0, n)[a].X < RowsOf(tile, x0, nx, y0, n)[b].X)
  {
    if n > 0 {
      RowsOfSound(tile, x0, nx, y0, n - 1);
      RowOfSound(tile, x0, y0 + 4 * (n - 1), nx);
    }
  }

  /** The rows hold the call of each of their tiles that makes one. */
  lemma {:induction false} RowsOfComplete(tile: (int, int) -> seq<ShadeCall>, x0: int, nx: nat, y0: int, n: nat,
                                          i: nat, j: nat)
    requires i < nx && j < n && |tile(x0 + 4 * i, y0 + 4 * j)| == 1
    ensures tile(x0 + 4 * i, y0 + 4 * j)[0] in RowsOf(tile, x0, nx, y0, n)
  {
    if j < n - 1 {
      RowsOfComplete(tile, x0, nx, y0, n - 1, i, j);
    } else {
      RowOfComplete(tile, x0, y0 + 4 * j, nx, i);
    }
  }

  /** Tile `j` of a row starts at a tile-aligned column inside the box. */
  lemma Column(s: Scan, j: int)
    requires s.Box.MinX % TileSize == 0 && 0 <= j < NumTiles(s.Box.MinX, s.Box.MaxX)
    ensures s.InCols(s.Box.MinX + 4 * j)
  {
    DivModUnique(s.Box.MinX + 4 * j, TileSize, s.Box.MinX / TileSize + j, 0);
  }

  /** Row `j` of tiles starts at a tile-aligned row inside the box. */
  lemma TileRow(s: Scan, j: int)
    requires s.Box.MinY % TileSize == 0 && 0 <= j < NumTiles(s.Box.MinY, s.Box.MaxY)
    ensures s.InRows(s.Box.MinY + 4 * j)
  {
    DivModUnique(s.Box.MinY + 4 * j, TileSize, s.Box.MinY / TileSize + j, 0);
  }

  /** The 4x4 tile at a tile-aligned (x, y) inside the framebuffer occupies
      sixteen consecutive depth cells. */
  lemma TileInFrame(width: int, height: int, x: int, y: int)
    requires width % TileSize == 0 && height % TileSize == 0
    requires x % TileSize == 0 && y % TileSize == 0 && 0 <= x < width && 0 <= y < height
    ensures 0 <= PixelOffset(x, y, width / TileSize)
    ensures PixelOffset(x, y, width / TileSize) + TileNumPixels <= width * height
  {
    TileLane(x, y, width / TileSize, TileNumPixels - 1);
    PixelOffsetInRange(x + 3, y + 3, width, height);
  }

  lemma TilesShaped(s: Scan)
    ensures TileShaped(s.Tiles())
  {
  }

  /** Each call of the scan is the call of its own tile, inside the clamped box,
      and no tile is visited twice: the calls are strictly ordered by row, then
      by column. */
  lemma CallsSound(s: Scan)
    ensures forall c :: c in s.Calls() ==> s.TileCall(c.X, c.Y) == [c]
    ensures forall a, b :: 0 <= a < b < |s.Calls()| ==>
              (s.Calls()[a].X, s.Calls()[a].Y) != (s.Calls()[b].X, s.Calls()[b].Y)
  {
    TilesShaped(s);
    RowsOfSound(s.Tiles(), s.Box.MinX, NumTiles(s.Box.MinX, s.Box.MaxX), s.Box.MinY, NumTiles(s.Box.MinY, s.Box.MaxY));
  }

  /** A tile-aligned coordinate in `lo .. hi` is tile number `(v - lo) / 4`
      counted from a tile-aligned `lo`. */
  lemma TileNumber(lo: int, hi: int, v: int)
    requires 0 <= lo <= v <= hi && lo % TileSize == 0 && v % TileSize == 0
    ensures 0 <= v / 4 - lo / 4 < NumTiles(lo, hi)
    ensures v == lo + 4 * (v / 4 - lo / 4)
  {
  }

  /** A tile-aligned tile of the box that makes a call has it among the calls
      of the whole box. */
  lemma RowsOfCompleteAt(tile: (int, int) -> seq<ShadeCall>, x0: int, hx: int, y0: int, hy: int, x: int, y: int)
    requires 0 <= x0 <= x <= hx && x0 % TileSize == 0 && x % TileSize == 0
    requires 0 <= y0 <= y <= hy && y0 % TileSize == 0 && y % TileSize == 0
    requires |tile(x, y)| == 1
    ensures tile(x, y)[0] in RowsOf(tile, x0, NumTiles(x0, hx), y0, NumTiles(y0, hy))
  {
    TileNumber(x0, hx, x);
    TileNumber(y0, hy, y);
    var i, j := x / 4 - x0 / 4, y / 4 - y0 / 4;
    assert x0 + 4 * i == x && y0 + 4 * j == y;
    RowsOfComplete(tile, x0, NumTiles(x0, hx), y0, NumTiles(y0, hy), i, j);
  }

  /** Every tile of the box that makes a call has it among the scan's calls. */
  lemma CallsComplete(s: Scan, x: int, y: int)
    requires s.Valid() && s.InCols(x) && s.InRows(y) && |s.TileCall(x, y)| == 1
    ensures s.TileCall(x, y)[0] in s.Calls()
  {
    assert s.Tiles()(x, y) == s.TileCall(x, y);
    RowsOfCompleteAt(s.Tiles(), s.Box.MinX, s.Box.MaxX, s.Box.MinY, s.Box.MaxY, x, y);
  }

  /** Lane `k` of a call's mask is set exactly when its pixel is inside all three
      edges and its fragment is nearer than the stored depth of that pixel; the
      call's tile offset is the tile's place in the framebuffer, and at least
      one lane is set. */
  lemma CallLanes(s: Scan, c: ShadeCall, k: int)
    requires s.TileCall(c.X, c.Y) == [c] && 0 <= k < W
    ensures s.Valid() && s.InCols(c.X) && s.InRows(c.Y)
    ensures c.Vars.TileOffset == PixelOffset(c.X, c.Y, s.Width / TileSize)
    ensures |c.Vars.TileMask| == W && Any(c.Vars.TileMask)
    ensures 0 <= PixelOffset(c.X + k % 4, c.Y + k / 4, s.Width / TileSize) < |s.Depth|
    ensures c.Vars.TileMask[k] <==>
              s.Covered(c.X + k % 4, c.Y + k / 4)
              && s.NewDepth(c.X, c.Y, k) < s.Depth[PixelOffset(c.X + k % 4, c.Y + k / 4, s.Width / TileSize)]
    ensures c.Vars.Depth == s.FragmentDepth(c.X, c.Y)
    ensures c.Vars.Base == 4 * W + s.Lane && c.Vars.Memory == s.Memory
  {
    TileInFrame(s.Width, s.Height, c.X, c.Y);
    TileLane(c.X, c.Y, s.Width / TileSize, k);
  }

  /** A call of the scan is the call of its tile. */
  lemma CallOfScan(s: Scan, c: ShadeCall)
    requires c in s.Calls()
    ensures s.TileCall(c.X, c.Y) == [c]
  {
    CallsSound(s);
  }

  /** A lane inside the triangle whose fragment passes the depth test makes its
      tile call the shader with that lane set. */
  lemma TileHasLane(s: Scan, x: int, y: int, k: int)
    requires s.Valid() && s.InCols(x) && s.InRows(y) && 0 <= k < W
    requires 0 <= PixelOffset(x, y, s.Width / TileSize) && PixelOffset(x, y, s.Width / TileSize) + W <= |s.Depth|
    requires s.Covered(x + k % 4, y + k / 4)
    requires s.NewDepth(x, y, k) < s.Depth[PixelOffset(x, y, s.Width / TileSize) + k]
    ensures |s.TileCall(x, y)| == 1 && |s.TileCall(x, y)[0].Vars.TileMask| == W
    ensures s.TileCall(x, y)[0].Vars.TileMask[k]
  {
    var cov := s.Coverage(x, y);
    assert cov[k];
    assert Any(cov);
    var offset := PixelOffset(x, y, s.Width / TileSize);
    var depth := s.FragmentDepth(x, y);
    var mask := AndM(cov, LessF(depth, s.Depth[offset..offset + W]));
    assert mask[k];
    assert Any(mask);
  }

  /** Lane `k` of tile (x, y) is shaded by some call. */
  predicate LaneShaded(calls: seq<ShadeCall>, x: int, y: int, k: int) {
    exists c :: c in calls && c.X == x && c.Y == y && |c.Vars.TileMask| == W && 0 <= k < W && c.Vars.TileMask[k]
  }

  /** A lane of a tile of the box inside all three edges whose fragment is
      nearer than the stored depth is shaded. */
  lemma LaneShadedComplete(s: Scan, x: int, y: int, k: int)
    requires s.Valid() && s.InCols(x) && s.InRows(y) && 0 <= k < W
    requires 0 <= PixelOffset(x, y, s.Width / TileSize) && PixelOffset(x, y, s.Width / TileSize) + W <= |s.Depth|
    requires s.Covered(x + k % 4, y + k / 4)
    requires s.NewDepth(x, y, k) < s.Depth[PixelOffset(x, y, s.Width / TileSize) + k]
    ensures LaneShaded(s.Calls(), x, y, k)
  {
    TileHasLane(s, x, y, k);
    CallsComplete(s, x, y);
    var c := s.TileCall(x, y)[0];
    assert c in s.Calls() && c.X == x && c.Y == y;
  }

  /** A shaded lane is inside all three edges and its fragment is nearer than
      the stored depth. */
  lemma LaneShadedSound(s: Scan, x: int, y: int, k: int)
    requires s.Valid() && s.InCols(x) && s.InRows(y) && 0 <= k < W
    requires 0 <= PixelOffset(x, y, s.Width / TileSize) && PixelOffset(x, y, s.Width / TileSize) + W <= |s.Depth|
    requires LaneShaded(s.Calls(), x, y, k)
    ensures s.Covered(x + k % 4, y + k / 4)
    ensures s.NewDepth(x, y, k) < s.Depth[PixelOffset(x, y, s.Width / TileSize) + k]
  {
    var c :| c in s.Calls() && c.X == x && c.Y == y && |c.Vars.TileMask| == W && c.Vars.TileMask[k];
    CallOfScan(s, c);
    CallLanes(s, c, k);
    TileLane(x, y, s.Width / TileSize, k);
  }

  /** Lane `k` of a tile of the box is shaded exactly when its pixel is inside
      all three edges and its fragment is nearer than the stored depth. */
  lemma LaneShadedIff(s: Scan, x: int, y: int, k: int)
    requires s.Valid() && s.InCols(x) && s.InRows(y) && 0 <= k < W
    ensures 0 <= PixelOffset(x, y, s.Width / TileSize) && PixelOffset(x, y, s.Width / TileSize) + W <= |s.Depth|
    ensures LaneShaded(s.Calls(), x, y, k) <==>
              s.Covered(x + k % 4, y + k / 4)
              && s.NewDepth(x, y, k) < s.Depth[PixelOffset(x, y, s.Width / TileSize) + k]
  {
    TileInFrame(s.Width, s.Height, x, y);
    if s.Covered(x + k % 4, y + k / 4) && s.NewDepth(x, y, k) < s.Depth[PixelOffset(x, y, s.Width / TileSize) + k] {
      LaneShadedComplete(s, x, y, k);
    }
    if LaneShaded(s.Calls(), x, y, k) {
      LaneShadedSound(s, x, y, k);
    }
  }

  /** Pixel (px, py) is shaded by some call: its tile's call has its lane set. */
  predicate Shaded(calls: seq<ShadeCall>, px: int, py: int) {
    LaneShaded(calls, px - px % 4, py - py % 4, px % 4 + 4 * (py % 4))
  }

  /** Pixel (px, py) is lane `px % 4 + 4 * (py % 4)` of the tile whose corner
      is (px - px % 4, py - py % 4); that corner is tile-aligned and not left of
      or above a tile-aligned (minX, minY) the pixel is not left of or above. */
  lemma PixelTile(px: int, py: int, minX: int, minY: int)
    requires minX % TileSize == 0 && minY % TileSize == 0 && minX <= px && minY <= py
    ensures 0 <= px % 4 + 4 * (py % 4) < W
    ensures (px - px % 4) + (px % 4 + 4 * (py % 4)) % 4 == px
    ensures (py - py % 4) + (px % 4 + 4 * (py % 4)) / 4 == py
    ensures (px - px % 4) % TileSize == 0 && (py - py % 4) % TileSize == 0
    ensures minX <= px - px % 4 && minY <= py - py % 4
  {
    var k := px % 4 + 4 * (py % 4);
    assert k % 4 == px % 4 && k / 4 == py % 4;
  }

  /** Every pixel of the clamped box that is inside the triangle and passes
      the depth test is shaded by the call of its tile; no other pixel of the
      box is shaded. */
  lemma PixelShadedIff(s: Scan, px: int, py: int)
    requires s.Valid()
    requires s.Box.MinX <= px <= s.Box.MaxX && s.Box.MinY <= py <= s.Box.MaxY
    ensures 0 <= PixelOffset(px, py, s.Width / TileSize) < |s.Depth|
    ensures Shaded(s.Calls(), px, py) <==>
              s.Covered(px, py)
              && s.NewDepth(px - px % 4, py - py % 4, px % 4 + 4 * (py % 4))
                 < s.Depth[PixelOffset(px, py, s.Width / TileSize)]
  {
    var x, y, k := px - px % 4, py - py % 4, px % 4 + 4 * (py % 4);
    PixelTile(px, py, s.Box.MinX, s.Box.MinY);
    var w := s.Width / TileSize;
    TileLane(x, y, w, k);
    assert PixelOffset(px, py, w) == PixelOffset(x, y, w) + k;
    LaneShadedIff(s, x, y, k);
    CoveredSame(s, px, py, x + k % 4, y + k / 4);
  }

  /** `Covered` of equal pixels. */
  lemma CoveredSame(s: Scan, px: int, py: int, qx: int, qy: int)
    requires px == qx && py == qy
    ensures s.Covered(px, py) == s.Covered(qx, qy)
  {
  }

  /** Two calls of the scan are the calls of two different tiles. */
  lemma CallPair(s: Scan, a: int, b: int)
    requires 0 <= a < b < |s.Calls()|
    ensures s.TileCall(s.Calls()[a].X, s.Calls()[a].Y) == [s.Calls()[a]]
    ensures s.TileCall(s.Calls()[b].X, s.Calls()[b].Y) == [s.Calls()[b]]
    ensures (s.Calls()[a].X, s.Calls()[a].Y) != (s.Calls()[b].X, s.Calls()[b].Y)
  {
    CallsSound(s);
    assert s.Calls()[a] in s.Calls() && s.Calls()[b] in s.Calls();
  }

  /** A call's tile lies inside the framebuffer. */
  lemma CallInFrame(s: Scan, c: ShadeCall)
    requires s.TileCall(c.X, c.Y) == [c]
    ensures s.Valid() && 0 <= c.X < s.Width && 0 <= c.Y < s.Height
    ensures c.X % TileSize == 0 && c.Y % TileSize == 0
    ensures c.Vars.TileOffset == PixelOffset(c.X, c.Y, s.Width / TileSize)
  {
  }

  /** Two different tiles of a framebuffer occupy disjoint blocks of sixteen cells. */
  lemma TilesDisjoint(xa: int, ya: int, xb: int, yb: int, width: int, height: int)
    requires width % TileSize == 0 && height % TileSize == 0
    requires 0 <= xa < width && 0 <= ya < height && xa % TileSize == 0 && ya % TileSize == 0
    requires 0 <= xb < width && 0 <= yb < height && xb % TileSize == 0 && yb % TileSize == 0
    requires (xa, ya) != (xb, yb)
    ensures PixelOffset(xa, ya, width / TileSize) + TileNumPixels <= PixelOffset(xb, yb, width / TileSize)
            || PixelOffset(xb, yb, width / TileSize) + TileNumPixels <= PixelOffset(xa, ya, width / TileSize)
  {
    var oa, ob := PixelOffset(xa, ya, width / TileSize), PixelOffset(xb, yb, width / TileSize);
    TileLane(xa, ya, width / TileSize, 0);
    TileLane(xb, yb, width / TileSize, 0);
    if oa == ob {
      PixelOffsetInjective(xa, ya, xb, yb, width, height);
    }
    var qa, qb := oa / TileNumPixels, ob / TileNumPixels;
    assert oa == TileNumPixels * qa && ob == TileNumPixels * qb;
    assert qa != qb;
  }

  /** Distinct calls shade disjoint blocks of sixteen framebuffer cells, so a
      shader writing its own tile never touches the depth another call reads. */
  lemma CallsDisjoint(s: Scan, a: int, b: int)
    requires 0 <= a < b < |s.Calls()|
    ensures s.Calls()[a].Vars.TileOffset + TileNumPixels <= s.Calls()[b].Vars.TileOffset
            || s.Calls()[b].Vars.TileOffset + TileNumPixels <= s.Calls()[a].Vars.TileOffset
  {
    CallPair(s, a, b);
    var ca, cb := s.Calls()[a], s.Calls()[b];
    CallInFrame(s, ca);
    CallInFrame(s, cb);
    TilesDisjoint(ca.X, ca.Y, cb.X, cb.Y, s.Width, s.Height);
  }
}
