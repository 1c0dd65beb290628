/** The tiled framebuffer: colour and depth planes stored in 4x4 pixel tiles,
    tiles in row-major order, so that one 16-lane store covers one tile. */
module Framebuffers {
  import opened MachineInt
  import opened Simd

  const TileSize: nat := 4
  const TileNumPixels: nat := 16

  /** Depth returned for lanes sampled outside the framebuffer. */
  const FarDepth: real := 1.0

  // ---------------------------------------------------------------------------
  // Sizes computed by the constructor, in `uint32_t` arithmetic.
  // ---------------------------------------------------------------------------

  /** `(v + align - 1) & ~(align - 1)` on a `uint32_t`. The sum wraps when `v` is
      within `align` of 2^32; otherwise this is the least multiple of `align`
      that is at least `v`. */
  function AlignUp(v: int, align: int): (r: int)
    requires IsU32(v) && (align == TileSize || align == 64)
    ensures IsU32(r) && r % align == 0
    ensures v <= TwoTo32 - align ==> v <= r < v + align
    ensures v > TwoTo32 - align ==> r == 0
  {
    var s := WrapU32(v + align - 1);
    s - s % align
  }

  /** A tile-aligned framebuffer dimension: `(v + TileMask) & ~TileMask`. */
  function TileAlign(v: int): (r: int)
    requires IsU32(v)
    ensures IsU32(r) && r % TileSize == 0
    ensures v <= TwoTo32 - TileSize ==> v <= r < v + TileSize
  {
    AlignUp(v, TileSize)
  }

  // ---------------------------------------------------------------------------
  // Tiled layout
  // ---------------------------------------------------------------------------

  /** Storage index of pixel (x, y): the tile id times 16 plus the position inside
      the tile. `>> 2` is floor division by 4 and `& 3` the non-negative
      remainder, for negative lanes too, so Dafny's `/` and `%` are exact here. */
  function PixelOffset(x: int, y: int, tileStride: int): int {
    ((x / TileSize) + (y / TileSize) * tileStride) * TileNumPixels
      + (x % TileSize) + (y % TileSize) * TileSize
  }

  /** The inverse of `PixelOffset`: the pixel stored at index `o`. */
  function PixelAt(o: int, tileStride: int): (p: (int, int))
    requires o >= 0 && tileStride > 0
  {
    var tileId, inTile := o / TileNumPixels, o % TileNumPixels;
    ((tileId % tileStride) * TileSize + inTile % TileSize,
     (tileId / tileStride) * TileSize + inTile / TileSize)
  }

  /** The two halves of an offset: `o / 16` is the tile id and `o % 16` the
      position inside the tile. */
  lemma PixelOffsetParts(x: int, y: int, tileStride: int)
    ensures PixelOffset(x, y, tileStride) / TileNumPixels == x / TileSize + (y / TileSize) * tileStride
    ensures PixelOffset(x, y, tileStride) % TileNumPixels == x % TileSize + (y % TileSize) * TileSize
  {
    DivModUnique(PixelOffset(x, y, tileStride), TileNumPixels,
                 x / TileSize + (y / TileSize) * tileStride, x % TileSize + (y % TileSize) * TileSize);
  }

  /** Every pixel of a `width` x `height` framebuffer (both multiples of 4) is
      stored inside the plane of `width * height` cells. */
  lemma PixelOffsetInRange(x: int, y: int, width: int, height: int)
    requires width % TileSize == 0 && height % TileSize == 0
    requires 0 <= x < width && 0 <= y < height
    ensures 0 <= PixelOffset(x, y, width / TileSize) < width * height
  {
    var ts, rows := width / TileSize, height / TileSize;
    var tileId := x / TileSize + (y / TileSize) * ts;
    assert x / TileSize <= ts - 1;
    assert y / TileSize <= rows - 1;
    MulLeMonotone(y / TileSize, rows - 1, ts);
    assert tileId <= rows * ts - 1 by {
      assert (rows - 1) * ts == rows * ts - ts;
    }
    MulLeMonotone(tileId, rows * ts - 1, TileNumPixels);
    assert width * height == (rows * ts) * TileNumPixels;
    assert 0 <= tileId;
  }

  /** `PixelAt` inverts `PixelOffset` on the framebuffer: every pixel is stored
      at exactly one index, so distinct pixels never share a cell. */
  lemma PixelAtPixelOffset(x: int, y: int, width: int, height: int)
    requires width % TileSize == 0 && height % TileSize == 0
    requires 0 <= x < width && 0 <= y < height
    ensures PixelAt(PixelOffset(x, y, width / TileSize), width / TileSize) == (x, y)
  {
    var ts := width / TileSize;
    var o := PixelOffset(x, y, ts);
    PixelOffsetInRange(x, y, width, height);
    PixelOffsetParts(x, y, ts);
    var tileId := x / TileSize + (y / TileSize) * ts;
    DivModUnique(tileId, ts, y / TileSize, x / TileSize);
    var inTile := x % TileSize + (y % TileSize) * TileSize;
    DivModUnique(inTile, TileSize, y % TileSize, x % TileSize);
  }

  /** ... and `PixelOffset` inverts `PixelAt`: every cell of the plane holds a
      pixel of the framebuffer. Together with `PixelAtPixelOffset` the tiled
      layout is a bijection between the pixels and the cells. */
  lemma PixelOffsetPixelAt(o: int, width: int, height: int)
    requires width % TileSize == 0 && height % TileSize == 0 && width > 0
    requires 0 <= o < width * height
    ensures 0 <= PixelAt(o, width / TileSize).0 < width
    ensures 0 <= PixelAt(o, width / TileSize).1 < height
    ensures PixelOffset(PixelAt(o, width / TileSize).0, PixelAt(o, width / TileSize).1, width / TileSize) == o
  {
    var ts, rows := width / TileSize, height / TileSize;
    assert width * height == (rows * ts) * TileNumPixels;
    PixelAtParts(o, ts);
    PixelAtRow(o, ts, rows);
    var (x, y) := PixelAt(o, ts);
    PixelAtBounds(x, ts);
    PixelAtBounds(y, rows);
  }

  /** The tile and in-tile coordinates of `PixelAt(o, ts)`, and its offset. */
  lemma PixelAtParts(o: int, ts: int)
    requires o >= 0 && ts > 0
    ensures var (x, y) := PixelAt(o, ts);
            x >= 0 && y >= 0
            && x / TileSize == (o / TileNumPixels) % ts && y / TileSize == (o / TileNumPixels) / ts
            && PixelOffset(x, y, ts) == o
  {
    var tileId, inTile := o / TileNumPixels, o % TileNumPixels;
    var tx, ty := tileId % ts, tileId / ts;
    DivNonNegative(tileId, ts);
    var x, y := tx * TileSize + inTile % TileSize, ty * TileSize + inTile / TileSize;
    assert PixelAt(o, ts) == (x, y);
    DivModUnique(x, TileSize, tx, inTile % TileSize);
    DivModUnique(y, TileSize, ty, inTile / TileSize);
    assert PixelOffset(x, y, ts) == (tx + ty * ts) * TileNumPixels + inTile % TileSize + (inTile / TileSize) * TileSize;
    Recombine(o, ts);
  }

  /** Tile id and in-tile position put back together give the offset. */
  lemma Recombine(o: int, ts: int)
    requires o >= 0 && ts > 0
    ensures var tileId, inTile := o / TileNumPixels, o % TileNumPixels;
            (tileId % ts + (tileId / ts) * ts) * TileNumPixels + inTile % TileSize + (inTile / TileSize) * TileSize == o
  {
    var tileId, inTile := o / TileNumPixels, o % TileNumPixels;
    assert tileId % ts + (tileId / ts) * ts == tileId;
    assert inTile % TileSize + (inTile / TileSize) * TileSize == inTile;
  }

  /** An offset inside a plane of `rows` tile rows lies in one of them. */
  lemma PixelAtRow(o: int, ts: int, rows: int)
    requires ts > 0 && 0 <= o < (rows * ts) * TileNumPixels
    ensures (o / TileNumPixels) / ts < rows
  {
    var tileId := o / TileNumPixels;
    assert tileId < rows * ts;
    if tileId / ts >= rows {
      MulLeMonotone(rows, tileId / ts, ts);
      assert false;
    }
  }

  /** A coordinate whose tile index is below `n` is below `4 * n`. */
  lemma PixelAtBounds(c: int, n: int)
    requires c >= 0 && c / TileSize < n
    ensures c < n * TileSize
  {
  }

  lemma PixelOffsetInjective(x1: int, y1: int, x2: int, y2: int, width: int, height: int)
    requires width % TileSize == 0 && height % TileSize == 0
    requires 0 <= x1 < width && 0 <= y1 < height && 0 <= x2 < width && 0 <= y2 < height
    requires PixelOffset(x1, y1, width / TileSize) == PixelOffset(x2, y2, width / TileSize)
    ensures x1 == x2 && y1 == y2
  {
    PixelAtPixelOffset(x1, y1, width, height);
    PixelAtPixelOffset(x2, y2, width, height);
  }

  /** The 16 pixels of the tile whose corner is (x, y) occupy the contiguous,
      16-aligned block starting at the corner's offset; lane k of a tile is pixel
      (x + k % 4, y + k / 4). */
  lemma TileLane(x: int, y: int, tileStride: int, k: int)
    requires x % TileSize == 0 && y % TileSize == 0 && 0 <= k < TileNumPixels
    ensures PixelOffset(x, y, tileStride) % TileNumPixels == 0
    ensures PixelOffset(x + k % TileSize, y + k / TileSize, tileStride) == PixelOffset(x, y, tileStride) + k
  {
    DivModUnique(x + k % TileSize, TileSize, x / TileSize, k % TileSize);
    DivModUnique(y + k / TileSize, TileSize, y / TileSize, k / TileSize);
    PixelOffsetParts(x, y, tileStride);
  }

  /** A tile-aligned plane holds a whole number of 16-cell tiles. */
  lemma PlaneIsWholeTiles(width: int, height: int)
    requires width % TileSize == 0 && height % TileSize == 0
    ensures (width * height) % TileNumPixels == 0
  {
    assert width * height == ((width / TileSize) * (height / TileSize)) * TileNumPixels;
  }

  /** The unsigned-compare trick: reading a lane as `uint32_t` and comparing it
      with a bound of at most 2^31 checks `0 <= v` and `v < bound` at once. */
  lemma UnsignedBoundCheck(v: int, bound: int)
    requires IsI32(v) && 0 <= bound <= TwoTo31
    ensures AsU32(v) < bound <==> 0 <= v < bound
  {
  }

  /** An element of `elemSize` bytes at index `offset` of the typed view
      starting at plane `id` starts at or after that plane, and when
      `offset < stride` and `id + elemSize <= planes` it ends inside the
      `planes` planes. */
  lemma AttachmentElementInPlanes(id: int, elemSize: int, offset: int, stride: int, planes: int)
    requires id >= 0 && elemSize >= 1 && offset >= 0 && id + elemSize <= planes
    ensures id * stride + offset * elemSize >= id * stride
    ensures offset < stride ==> id * stride + offset * elemSize + elemSize <= stride * planes
  {
    assert offset * elemSize >= 0;
    if offset < stride {
      MulLeMonotone(offset, stride - 1, elemSize);
      MulLeMonotone(id + elemSize, planes, stride);
      assert (stride - 1) * elemSize + elemSize == stride * elemSize;
      assert id * stride + stride * elemSize == (id + elemSize) * stride;
    }
  }

  // ---------------------------------------------------------------------------
  // The framebuffer object
  // ---------------------------------------------------------------------------

  class Framebuffer {
    const Width: int
    const Height: int
    const TileStride: int
    const AttachmentStride: int
    const NumAttachments: int

    /** Packed 32-bit colour per pixel. */
    const ColorBuffer: array<int>
    /** Depth per pixel. */
    const DepthBuffer: array<real>
    /** `NumAttachments` byte planes of `AttachmentStride` bytes each. */
    const AttachmentBuffer: array<int>

    ghost predicate Valid() {
      Width >= 0 && Height >= 0
      && Width % TileSize == 0 && Height % TileSize == 0 && TileStride == Width / TileSize
      && IsU32(Width * Height + 63)
      && AttachmentStride == AlignUp(Width * Height, 64)
      && NumAttachments >= 0
      && ColorBuffer.Length == Width * Height
      && DepthBuffer.Length == Width * Height
      && AttachmentBuffer.Length == AttachmentStride * NumAttachments
    }

    /** Rounds both dimensions up to whole tiles and allocates the planes; the
        caller's sizes must not make the 32-bit buffer sizes wrap. */
    constructor (width: int, height: int, numAttachments: int)
      requires IsU32(width) && IsU32(height) && IsU32(numAttachments)
      requires IsU32(TileAlign(width) * TileAlign(height) + 63)
      requires IsU32(AlignUp(TileAlign(width) * TileAlign(height), 64) * numAttachments)
      ensures Valid()
      ensures Width == TileAlign(width) && Height == TileAlign(height)
      ensures TileStride == Width / TileSize && NumAttachments == numAttachments
      ensures Width * Height <= AttachmentStride < Width * Height + 64 && AttachmentStride % 64 == 0
      ensures fresh(ColorBuffer) && fresh(DepthBuffer) && fresh(AttachmentBuffer)
    {
      var w := TileAlign(width);
      var h := TileAlign(height);
      PlaneSizes(w, h);
      var stride := AlignUp(w * h, 64);
      Width := w;
      Height := h;
      TileStride := w / TileSize;
      AttachmentStride := stride;
      NumAttachments := numAttachments;
      ColorBuffer := new int[w * h];
      DepthBuffer := new real[w * h];
      AttachmentBuffer := new int[stride * numAttachments];
    }

    /** The colour and depth planes of a `w` by `h` framebuffer have a 32-bit
        size, and the attachment stride rounds it up to 64 bytes. */
    static lemma PlaneSizes(w: int, h: int)
      requires IsU32(w) && IsU32(h) && IsU32(w * h + 63)
      ensures IsU32(w * h) && w * h <= AlignUp(w * h, 64) < w * h + 64
    {
      assert w * h >= 0;
    }

    /** The scalar `GetPixelOffset`, defined where its assertion holds: the whole
        4x4 block starting at (x, y) lies inside the framebuffer. */
    function GetPixelOffset(x: int, y: int): (r: int)
      requires Valid()
      requires IsU32(x) && IsU32(y) && x + 3 < Width && y + 3 < Height
      ensures 0 <= r < Width * Height
      ensures r / TileNumPixels == x / TileSize + (y / TileSize) * TileStride
      ensures r % TileNumPixels == x % TileSize + (y % TileSize) * TileSize
    {
      PixelOffsetInRange(x, y, Width, Height);
      PixelOffsetParts(x, y, TileStride);
      PixelOffset(x, y, TileStride)
    }

    /** The vector `GetPixelOffset`: the same formula on each `int32_t` lane,
        wrapping like the lane arithmetic does. */
    function GetPixelOffsetV(xs: seq<int>, ys: seq<int>): (r: seq<int>)
      requires Valid() && Width * Height <= TwoTo31
      requires IsVInt(xs) && IsVInt(ys)
      ensures IsVInt(r)
      ensures forall k :: 0 <= k < W && 0 <= xs[k] < Width && 0 <= ys[k] < Height ==>
                0 <= r[k] < Width * Height && r[k] == PixelOffset(xs[k], ys[k], TileStride)
    {
      seq(W, k requires 0 <= k < W => PixelOffsetLane(xs[k], ys[k]))
    }

    /** One lane of `GetPixelOffsetV`. */
    function PixelOffsetLane(x: int, y: int): (o: int)
      requires Valid() && Width * Height <= TwoTo31 && IsI32(x) && IsI32(y)
      ensures IsI32(o)
      ensures 0 <= x < Width && 0 <= y < Height ==> 0 <= o < Width * Height && o == PixelOffset(x, y, TileStride)
    {
      InBoundsLane(x, y);
      WrapI32(PixelOffset(x, y, TileStride))
    }

    /** The colour stored for pixel (x, y). */
    function StoredColor(x: int, y: int): int
      reads ColorBuffer
      requires Valid() && 0 <= x < Width && 0 <= y < Height
    {
      PixelOffsetInRange(x, y, Width, Height);
      ColorBuffer[PixelOffset(x, y, TileStride)]
    }

    /** The depth stored for pixel (x, y). */
    function StoredDepth(x: int, y: int): real
      reads DepthBuffer
      requires Valid() && 0 <= x < Width && 0 <= y < Height
    {
      PixelOffsetInRange(x, y, Width, Height);
      DepthBuffer[PixelOffset(x, y, TileStride)]
    }

    /** One lane of `SampleColor`: the stored colour at (x, y) when the pixel is
        inside the framebuffer, `defaultColor` otherwise. */
    function SampleColorLane(x: int, y: int, defaultColor: int): (c: int)
      reads ColorBuffer
      requires Valid() && Width * Height <= TwoTo31 && IsI32(x) && IsI32(y)
      ensures c == if 0 <= x < Width && 0 <= y < Height
                   then StoredColor(x, y) else defaultColor
    {
      InBoundsLane(x, y);
      if AsU32(x) < Width && AsU32(y) < Height
      then ColorBuffer[WrapI32(PixelOffset(x, y, TileStride))]
      else defaultColor
    }

    /** One lane of `SampleDepth(VInt, VInt)`: the stored depth, or 1.0 outside. */
    function SampleDepthLane(x: int, y: int): (d: real)
      reads DepthBuffer
      requires Valid() && Width * Height <= TwoTo31 && IsI32(x) && IsI32(y)
      ensures d == if 0 <= x < Width && 0 <= y < Height
                   then StoredDepth(x, y) else FarDepth
    {
      InBoundsLane(x, y);
      if AsU32(x) < Width && AsU32(y) < Height
      then DepthBuffer[WrapI32(PixelOffset(x, y, TileStride))]
      else FarDepth
    }

    /** The masked gather of `SampleColor`. Lanes are independent: lane k of the
        result depends only on lane k of the three inputs. */
    function SampleColor(ix: seq<int>, iy: seq<int>, defaultColor: seq<int>): (r: seq<int>)
      reads ColorBuffer
      requires Valid() && Width * Height <= TwoTo31
      requires IsVInt(ix) && IsVInt(iy) && |defaultColor| == W
      ensures |r| == W
      ensures forall k :: 0 <= k < W ==>
        r[k] == if 0 <= ix[k] < Width && 0 <= iy[k] < Height
                then StoredColor(ix[k], iy[k]) else defaultColor[k]
    {
      seq(W, k requires 0 <= k < W reads ColorBuffer => SampleColorLane(ix[k], iy[k], defaultColor[k]))
    }

    /** The masked gather of `SampleDepth`, with 1.0 for lanes outside. */
    function SampleDepth(ix: seq<int>, iy: seq<int>): (r: seq<real>)
      reads DepthBuffer
      requires Valid() && Width * Height <= TwoTo31
      requires IsVInt(ix) && IsVInt(iy)
      ensures |r| == W
      ensures forall k :: 0 <= k < W ==>
        r[k] == if 0 <= ix[k] < Width && 0 <= iy[k] < Height
                then StoredDepth(ix[k], iy[k]) else FarDepth
    {
      seq(W, k requires 0 <= k < W reads DepthBuffer => SampleDepthLane(ix[k], iy[k]))
    }

    /** For a lane inside the framebuffer the unsigned compares pass and the
        wrapped 32-bit index is the exact in-range offset; for any other lane at
        least one unsigned compare fails. */
    lemma InBoundsLane(x: int, y: int)
      requires Valid() && Width * Height <= TwoTo31 && IsI32(x) && IsI32(y)
      ensures (AsU32(x) < Width && AsU32(y) < Height) <==> (0 <= x < Width && 0 <= y < Height)
      ensures 0 <= x < Width && 0 <= y < Height ==>
        0 <= PixelOffset(x, y, TileStride) < Width * Height
        && WrapI32(PixelOffset(x, y, TileStride)) == PixelOffset(x, y, TileStride)
    {
      if Width > 0 && Height > 0 {
        assert Width <= TwoTo31 by {
          MulLeMonotone(1, Height, Width);
        }
        assert Height <= TwoTo31 by {
          MulLeMonotone(1, Width, Height);
        }
        UnsignedBoundCheck(x, Width);
        UnsignedBoundCheck(y, Height);
        if 0 <= x < Width && 0 <= y < Height {
          PixelOffsetInRange(x, y, Width, Height);
        }
      }
    }

    /** `GetAttachmentBuffer<T>(attachmentId, offset)` as a byte index into the
        attachment planes, for an element type of `elemSize` bytes. The
        assertion reserves `elemSize` planes, so every element below
        `AttachmentStride` lies inside the buffer. */
    function GetAttachmentOffset(attachmentId: int, elemSize: int, offset: int): (r: int)
      requires Valid() && attachmentId >= 0 && elemSize >= 1 && offset >= 0
      requires attachmentId + elemSize <= NumAttachments
      ensures r >= attachmentId * AttachmentStride
      ensures offset < AttachmentStride ==> r + elemSize <= AttachmentBuffer.Length
    {
      AttachmentElementInPlanes(attachmentId, elemSize, offset, AttachmentStride, NumAttachments);
      attachmentId * AttachmentStride + offset * elemSize
    }

    /** `WriteTile`: the masked aligned 16-lane store into both planes. */
    method WriteTile(offset: int, mask: seq<bool>, color: seq<int>, depth: seq<real>)
      requires Valid()
      requires 0 <= offset && offset % TileNumPixels == 0 && offset + TileNumPixels <= Width * Height
      requires IsVMask(mask) && |color| == W && IsVFloat(depth)
      modifies ColorBuffer, DepthBuffer
      ensures forall i :: 0 <= i < ColorBuffer.Length ==>
        ColorBuffer[i] == if offset <= i < offset + W && mask[i - offset] then color[i - offset] else old(ColorBuffer[i])
      ensures forall i :: 0 <= i < DepthBuffer.Length ==>
        DepthBuffer[i] == if offset <= i < offset + W && mask[i - offset] then depth[i - offset] else old(DepthBuffer[i])
    {
      forall k | 0 <= k < W && mask[k] {
        ColorBuffer[offset + k] := color[k];
      }
      forall k | 0 <= k < W && mask[k] {
        DepthBuffer[offset + k] := depth[k];
      }
    }

    /** Sets every cell of a plane, one 16-cell tile per step. */
    method FillBuffer<T>(plane: array<T>, value: T)
      requires Width % TileSize == 0 && Height % TileSize == 0 && plane.Length == Width * Height
      modifies plane
      ensures forall i :: 0 <= i < plane.Length ==> plane[i] == value
    {
      var count := plane.Length;
      PlaneIsWholeTiles(Width, Height);
      ghost var tiles := count / TileNumPixels;
      assert count == TileNumPixels * tiles;
      var i := 0;
      ghost var t := 0;
      while i < count
        invariant 0 <= t <= tiles && i == TileNumPixels * t
        invariant forall j :: 0 <= j < i ==> plane[j] == value
      {
        forall k | i <= k < i + TileNumPixels {
          plane[k] := value;
        }
        i := i + TileNumPixels;
        t := t + 1;
      }
    }

    method ClearDepth(depth: real)
      requires Valid()
      modifies DepthBuffer
      ensures forall i :: 0 <= i < DepthBuffer.Length ==> DepthBuffer[i] == depth
    {
      FillBuffer(DepthBuffer, depth);
    }

    method Clear(color: int, depth: real)
      requires Valid()
      modifies ColorBuffer, DepthBuffer
      ensures forall i :: 0 <= i < ColorBuffer.Length ==> ColorBuffer[i] == color
      ensures forall i :: 0 <= i < DepthBuffer.Length ==> DepthBuffer[i] == depth
    {
      FillBuffer(ColorBuffer, color);
      ClearDepth(depth);
    }
  }
}
