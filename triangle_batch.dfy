/** The batch of set-up triangles and the screen bins that index them. */
module Batching {
  import opened MachineInt
  import opened Simd

  /** `TriangleBatch::MaxSize`: triangle packets in a batch, `4096 / W`. */
  const MaxSize: nat := 256

  /** Bins are `BinSize` pixels square, `BinSize == 1 << BinSizeLog2`. */
  const BinSizeLog2: nat := 7
  const BinSize: nat := 128

  /** Packets kept free for the triangles that clipping produces. */
  const ClipReserve: nat := 24

  const TwoTo16: int := 0x1_0000

  predicate IsU16(v: int) { 0 <= v < TwoTo16 }

  /** `(v + BinSize - 1) >> BinSizeLog2` on `uint32_t`: the number of bins
      across `v` pixels, which is `ceil(v / BinSize)` unless the sum wraps. */
  function BinCount(v: int): (r: int)
    requires IsU32(v)
    ensures IsU32(r)
    ensures v + BinSize - 1 < TwoTo32 ==> r * BinSize >= v && r * BinSize < v + BinSize
    ensures v + BinSize - 1 >= TwoTo32 ==> r == 0
  {
    var s := WrapU32(v + BinSize - 1);
    assert s / BinSize * BinSize == s - s % BinSize;
    s / BinSize
  }

  /** The `uint16_t` a bin stores for lane `index` of packet `slot`:
      `slot * W + index`, truncated to 16 bits. */
  function BinEntry(slot: int, index: int): (e: int)
    requires 0 <= slot < MaxSize && IsU32(index)
    ensures IsU16(e)
    ensures index < W ==> e / W == slot && e % W == index
  {
    var e := WrapU32(slot * W + index) % TwoTo16;
    if index < W then
      assert slot * W + index < TwoTo16 by {
        MulLeMonotone(slot, MaxSize - 1, W);
      }
      DivModUnique(e, W, slot, index);
      e
    else
      e
  }

  /** A bin entry names one lane of one packet: distinct lanes of the batch
      have distinct entries. */
  lemma BinEntryInjective(slot1: int, index1: int, slot2: int, index2: int)
    requires 0 <= slot1 < MaxSize && 0 <= index1 < W
    requires 0 <= slot2 < MaxSize && 0 <= index2 < W
    ensures BinEntry(slot1, index1) == BinEntry(slot2, index2) <==> slot1 == slot2 && index1 == index2
  {
  }

  /** Every pixel of a `width` by `height` framebuffer falls in a bin whose
      row-major number is below `NumBins`, and the bin's number gives back its
      column and row. */
  lemma BinsCoverFramebuffer(width: int, height: int, px: int, py: int)
    requires IsU32(width) && IsU32(height)
    requires width + BinSize - 1 < TwoTo32 && height + BinSize - 1 < TwoTo32
    requires BinCount(height) * BinCount(width) < TwoTo32
    requires 0 <= px < width && 0 <= py < height
    ensures px / BinSize < BinCount(width) && py / BinSize < BinCount(height)
    ensures 0 <= px / BinSize + py / BinSize * BinCount(width) < WrapU32(BinCount(height) * BinCount(width))
    ensures (px / BinSize + py / BinSize * BinCount(width)) % BinCount(width) == px / BinSize
    ensures (px / BinSize + py / BinSize * BinCount(width)) / BinCount(width) == py / BinSize
  {
    var perRow, rows := BinCount(width), BinCount(height);
    var binX, binY := px / BinSize, py / BinSize;
    assert binX < perRow by {
      if binX >= perRow {
        MulLeMonotone(perRow, binX, BinSize);
      }
    }
    assert binY < rows by {
      if binY >= rows {
        MulLeMonotone(rows, binY, BinSize);
      }
    }
    MulLeMonotone(binY, rows - 1, perRow);
    assert binX + binY * perRow < rows * perRow by {
      assert (rows - 1) * perRow + perRow == rows * perRow;
    }
    DivModUnique(binX + binY * perRow, perRow, binY, binX);
  }

  /** A batch of up to `MaxSize` triangle packets and, per bin of the screen,
      the list of packet lanes whose triangle touches the bin. The packets
      themselves are represented by their slot numbers. */
  class TriangleBatch {
    const BinsPerRow: int
    const NumBins: int
    const Bins: array<seq<int>>
    var Count: int

    ghost predicate Valid()
      reads this, Bins
    {
      IsU32(BinsPerRow) && IsU32(NumBins) && Bins.Length == NumBins
      && 0 <= Count <= MaxSize
      && forall b :: 0 <= b < NumBins ==> AllU16(Bins[b])
    }

    static predicate AllU16(s: seq<int>) {
      forall j :: 0 <= j < |s| ==> IsU16(s[j])
    }

    /** Sizes the bin grid to cover a `fbWidth` by `fbHeight` framebuffer. */
    constructor (fbWidth: int, fbHeight: int)
      requires IsU32(fbWidth) && IsU32(fbHeight)
      ensures Valid() && fresh(Bins)
      ensures BinsPerRow == BinCount(fbWidth)
      ensures NumBins == WrapU32(BinCount(fbHeight) * BinCount(fbWidth))
      ensures Count == 0
      ensures forall b :: 0 <= b < NumBins ==> Bins[b] == []
    {
      BinsPerRow := BinCount(fbWidth);
      NumBins := WrapU32(BinCount(fbHeight) * BinCount(fbWidth));
      Count := 0;
      Bins := new seq<int>[WrapU32(BinCount(fbHeight) * BinCount(fbWidth))](_ => []);
    }

    /** `Alloc`: hands out the next free packet. */
    method Alloc() returns (slot: int)
      requires Valid() && Count < MaxSize
      modifies this
      ensures Valid()
      ensures slot == old(Count) && Count == old(Count) + 1
      ensures 0 <= slot < MaxSize
    {
      slot := Count;
      Count := Count + 1;
    }

    /** `PeekLast`: the packet `offset` past the last one allocated, where the
        `uint32_t` sum `Count - 1 + offset` may wrap (a wrapped offset reaches
        back before the last packet). */
    function PeekLast(offset: int): (slot: int)
      reads this
      requires IsU32(offset) && 0 <= Count <= MaxSize
      requires WrapU32(Count - 1 + offset) < MaxSize
      ensures 0 <= slot < MaxSize
      ensures 1 <= Count + offset <= TwoTo32 ==> slot + 1 == Count + offset
      ensures Count + offset > TwoTo32 ==> slot + 1 + TwoTo32 == Count + offset
    {
      var s := Count - 1 + offset;
      if 0 <= s < TwoTo32 then
        s
      else
        assert s - TwoTo32 < MaxSize by {
          CongruentInWindow(WrapU32(s), s - TwoTo32, 0);
        }
        s - TwoTo32
    }

    /** The row-major bin number `x + y * BinsPerRow` on `uint32_t`. */
    function BinIndex(x: int, y: int): (b: int)
      reads this
      requires IsU32(x) && IsU32(y)
      ensures IsU32(b) && (b - (x + y * BinsPerRow)) % TwoTo32 == 0
    {
      WrapU32(x + y * BinsPerRow)
    }

    /** `AddBin`: appends the entry of lane `index` of packet `slot` to the bin
        in column `x`, row `y`; every other bin and the packets are unchanged. */
    method AddBin(x: int, y: int, slot: int, index: int)
      requires Valid()
      requires IsU32(x) && IsU32(y) && IsU32(index)
      requires 0 <= slot < MaxSize
      requires BinIndex(x, y) < NumBins
      modifies Bins
      ensures Valid()
      ensures Bins[BinIndex(x, y)] == old(Bins[BinIndex(x, y)]) + [BinEntry(slot, index)]
      ensures forall b :: 0 <= b < NumBins && b != BinIndex(x, y) ==> Bins[b] == old(Bins[b])
    {
      var id := WrapU32(slot * W + index) % TwoTo16;
      var b := WrapU32(x + y * BinsPerRow);
      Bins[b] := Bins[b] + [id];
    }

    /** `IsFull`: fewer than `ClipReserve` packets after the current one are
        left, so a new batch is due before the clipper runs out of room. */
    function IsFull(): (full: bool)
      reads this
      ensures !full <==> Count + ClipReserve < MaxSize
    {
      Count >= MaxSize - ClipReserve
    }

    /** A batch that is not full still has room for the current packet and the
        `ClipReserve` packets clipping may add. */
    lemma NotFullLeavesClipRoom(n: nat)
      requires Valid() && !IsFull() && n <= ClipReserve
      ensures Count + n < MaxSize
    {
    }
  }
}
