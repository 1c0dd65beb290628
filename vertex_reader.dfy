/** `VertexReader`: a view over caller-owned vertex and index memory. Indices are
    decoded from 8-, 16- or 32-bit little-endian entries; attributes are gathered
    one 32-bit word per lane and, for packed normalized integers, unpacked from
    bit fields of that word. */
module VertexReading {
  import opened MachineInt
  import opened Simd

  type Byte = b: int | 0 <= b < 256

  // ---------------------------------------------------------------------------
  // Little-endian memory
  // ---------------------------------------------------------------------------

  /** The unsigned value of the `n` bytes at `addr`, least significant first. */
  function LoadLE(mem: seq<Byte>, addr: nat, n: nat): (v: nat)
    requires addr + n <= |mem|
    ensures v < Pow2(8 * n)
    decreases n
  {
    if n == 0 then 0
    else
      var rest := LoadLE(mem, addr + 1, n - 1);
      Pow2ThirtyTwo();
      Pow2Add(8, 8 * (n - 1));
      assert rest <= Pow2(8 * (n - 1)) - 1;
      MulLeMonotone(rest, Pow2(8 * (n - 1)) - 1, 256);
      mem[addr] + 256 * rest
  }

  /** The `n` bytes of `v`, least significant first. */
  function EncodeLE(v: nat, n: nat): (s: seq<Byte>)
    ensures |s| == n
  {
    if n == 0 then [] else [v % 256] + EncodeLE(v / 256, n - 1)
  }

  lemma {:induction false} LoadEncodeLE(v: nat, n: nat)
    requires v < Pow2(8 * n)
    ensures LoadLE(EncodeLE(v, n), 0, n) == v
  {
    if n > 0 {
      Pow2ThirtyTwo();
      Pow2Add(8, 8 * (n - 1));
      var s := EncodeLE(v, n);
      assert v / 256 < Pow2(8 * (n - 1));
      LoadEncodeLE(v / 256, n - 1);
      LoadLEShift([v % 256], EncodeLE(v / 256, n - 1), 0, n - 1);
    }
  }

  /** Bytes before a window do not change what is loaded from it, once the
      address is shifted by their number. */
  lemma {:induction false} LoadLEShift(p: seq<Byte>, mem: seq<Byte>, addr: nat, n: nat)
    requires addr + n <= |mem|
    ensures LoadLE(p + mem, |p| + addr, n) == LoadLE(mem, addr, n)
    decreases n
  {
    if n > 0 {
      LoadLEShift(p, mem, addr + 1, n - 1);
      assert (p + mem)[|p| + addr] == mem[addr];
    }
  }

  /** Bytes after a window do not change what is loaded from it. */
  lemma {:induction false} LoadLEExtend(mem: seq<Byte>, s: seq<Byte>, addr: nat, n: nat)
    requires addr + n <= |mem|
    ensures LoadLE(mem + s, addr, n) == LoadLE(mem, addr, n)
    decreases n
  {
    if n > 0 {
      LoadLEExtend(mem, s, addr + 1, n - 1);
    }
  }

  /** The low `m` bytes of an `n`-byte load are the `m`-byte load. */
  lemma {:induction false} LoadLELow(mem: seq<Byte>, addr: nat, n: nat, m: nat)
    requires m <= n && addr + n <= |mem|
    ensures LoadLE(mem, addr, n) % Pow2(8 * m) == LoadLE(mem, addr, m)
    decreases m
  {
    if m > 0 {
      LoadLELow(mem, addr + 1, n - 1, m - 1);
      Pow2ThirtyTwo();
      Pow2Add(8, 8 * (m - 1));
      ByteStepMod(mem[addr], LoadLE(mem, addr + 1, n - 1), Pow2(8 * (m - 1)));
    }
  }

  /** One byte below a value: the remainder modulo `256 * p` keeps the byte and
      the value's remainder modulo `p`. */
  lemma ByteStepMod(b: int, hi: int, p: int)
    requires 0 <= b < 256 && hi >= 0 && p > 0
    ensures (b + 256 * hi) % (256 * p) == b + 256 * (hi % p)
  {
    var d, e := hi / p, hi % p;
    assert hi == d * p + e;
    assert b + 256 * hi == d * (256 * p) + (b + 256 * e);
    assert b + 256 * e < 256 * p by {
      MulLeMonotone(e, p - 1, 256);
    }
    DivModUnique(b + 256 * hi, 256 * p, d, b + 256 * e);
  }

  /** Shifting an `n`-byte load right by `j` whole bytes loads the bytes from
      `addr + j` on. */
  lemma {:induction false} LoadLEHigh(mem: seq<Byte>, addr: nat, n: nat, j: nat)
    requires j <= n && addr + n <= |mem|
    ensures LoadLE(mem, addr, n) / Pow2(8 * j) == LoadLE(mem, addr + j, n - j)
    decreases j
  {
    if j > 0 {
      Pow2ThirtyTwo();
      Pow2Add(8, 8 * (j - 1));
      var v := LoadLE(mem, addr, n);
      var hi := LoadLE(mem, addr + 1, n - 1);
      DivModUnique(v, 256, hi, mem[addr]);
      DivDiv(v, 256, Pow2(8 * (j - 1)));
      LoadLEHigh(mem, addr + 1, n - 1, j - 1);
    }
  }

  lemma DivDiv(v: nat, a: nat, b: nat)
    requires a > 0 && b > 0
    ensures v / (a * b) == (v / a) / b
  {
    var q, r := (v / a) / b, (v / a) % b;
    assert v / a == q * b + r;
    assert v == (q * b + r) * a + v % a;
    assert v == q * (a * b) + (r * a + v % a);
    assert r * a + v % a < a * b by {
      MulLeMonotone(r, b - 1, a);
    }
    DivModUnique(v, a * b, q, r * a + v % a);
  }

  // ---------------------------------------------------------------------------
  // Index decoding
  // ---------------------------------------------------------------------------

  datatype IndexFormat = U8 | U16 | U32

  function IndexSize(f: IndexFormat): nat {
    match f
    case U8 => 1
    case U16 => 2
    case U32 => 4
  }

  /** The reader's state. `Indices` is the lane vector of vertex indices the
      attribute gathers use (`_Indices`). */
  datatype VertexReader = VertexReader(
    VertexBuffer: seq<Byte>,
    IndexBuffer: seq<Byte>,
    Count: nat,
    IndexFormat: IndexFormat,
    Indices: seq<int>)
  {
    /** The index buffer holds `Count` entries of the configured width. */
    predicate Valid() {
      IsU32(Count) && Count * IndexSize(IndexFormat) <= |IndexBuffer|
    }

    /** `ReadIndex`: the `offset`-th entry of the index buffer, or 0 past `Count`. */
    function ReadIndex(offset: nat): (v: nat)
      requires Valid()
      ensures v < Pow2(8 * IndexSize(IndexFormat)) && IsU32(v)
      ensures offset >= Count ==> v == 0
    {
      if offset >= Count then 0
      else
        var size := IndexSize(IndexFormat);
        MulLeMonotone(offset + 1, Count, size);
        Pow2ThirtyTwo();
        Pow2Monotone(8 * size, 32);
        LoadLE(IndexBuffer, offset * size, size)
    }

    /** Every lane's vertex record, `Indices[k] * stride` bytes into the vertex
        buffer, has at least `end` readable bytes, and the lane's byte offset
        fits the 32-bit lane product. */
    predicate LanesReadable(stride: nat, end: nat) {
      |Indices| == W
      && forall k :: 0 <= k < W ==>
           0 <= Indices[k] && 0 <= Indices[k] * stride < TwoTo31 && Indices[k] * stride + end <= |VertexBuffer|
    }

    /** `ReadAttribS32` (and, as raw bits, `ReadAttribF`): lane k gathers the
        32-bit word at byte `Indices[k] * stride + offset`. */
    function ReadAttribS32(offset: nat, stride: nat): (v: seq<int>)
      requires LanesReadable(stride, offset + 4)
      ensures IsVInt(v)
      ensures forall k :: 0 <= k < W ==> AsU32(v[k]) == LoadLE(VertexBuffer, Indices[k] * stride + offset, 4)
    {
      seq(W, k requires 0 <= k < W => GatherWord(VertexBuffer, Indices[k] * stride + offset))
    }
  }

  /** One lane of a 32-bit gather: the little-endian word at `addr`, held in an
      `int32_t` lane. */
  function GatherWord(mem: seq<Byte>, addr: nat): (d: int)
    requires addr + 4 <= |mem|
    ensures IsI32(d) && AsU32(d) == LoadLE(mem, addr, 4)
  {
    Pow2ThirtyTwo();
    AsU32WrapI32(LoadLE(mem, addr, 4));
    WrapI32(LoadLE(mem, addr, 4))
  }

  /** An index buffer holding `indices` in format `f`. */
  function EncodeIndices(f: IndexFormat, indices: seq<nat>): (s: seq<Byte>)
    ensures |s| == |indices| * IndexSize(f)
  {
    if indices == [] then []
    else EncodeLE(indices[0], IndexSize(f)) + EncodeIndices(f, indices[1..])
  }

  predicate FitsFormat(f: IndexFormat, indices: seq<nat>) {
    forall k :: 0 <= k < |indices| ==> indices[k] < Pow2(8 * IndexSize(f))
  }

  lemma {:induction false} LoadEncodedIndex(f: IndexFormat, indices: seq<nat>, k: nat)
    requires FitsFormat(f, indices) && k < |indices|
    ensures (k + 1) * IndexSize(f) <= |EncodeIndices(f, indices)|
    ensures LoadLE(EncodeIndices(f, indices), k * IndexSize(f), IndexSize(f)) == indices[k]
  {
    var size := IndexSize(f);
    var head, tail := EncodeLE(indices[0], size), EncodeIndices(f, indices[1..]);
    MulLeMonotone(k + 1, |indices|, size);
    if k == 0 {
      LoadLEExtend(head, tail, 0, size);
      LoadEncodeLE(indices[0], size);
    } else {
      assert FitsFormat(f, indices[1..]) by {
        forall j | 0 <= j < |indices| - 1 ensures indices[1..][j] < Pow2(8 * size) {
          assert indices[1..][j] == indices[j + 1];
        }
      }
      LoadEncodedIndex(f, indices[1..], k - 1);
      assert indices[1..][k - 1] == indices[k];
      LoadLEShift(head, tail, (k - 1) * size, size);
    }
  }

  /** Reading back an encoded index buffer gives the logical indices, and 0 past
      their end. */
  lemma ReadIndexEncoded(f: IndexFormat, indices: seq<nat>, vertexBuffer: seq<Byte>, lanes: seq<int>, offset: nat)
    requires FitsFormat(f, indices) && IsU32(|indices|)
    ensures VertexReader(vertexBuffer, EncodeIndices(f, indices), |indices|, f, lanes).Valid()
    ensures VertexReader(vertexBuffer, EncodeIndices(f, indices), |indices|, f, lanes).ReadIndex(offset)
            == if offset < |indices| then indices[offset] else 0
  {
    if offset < |indices| {
      LoadEncodedIndex(f, indices, offset);
    }
  }

  /** Index-format equivalence: the same logical indices read through any two
      formats wide enough to hold them give the same vertex index. */
  lemma IndexFormatsAgree(f1: IndexFormat, f2: IndexFormat, indices: seq<nat>, vertexBuffer: seq<Byte>, lanes: seq<int>, offset: nat)
    requires FitsFormat(f1, indices) && FitsFormat(f2, indices) && IsU32(|indices|)
    ensures VertexReader(vertexBuffer, EncodeIndices(f1, indices), |indices|, f1, lanes).Valid()
    ensures VertexReader(vertexBuffer, EncodeIndices(f2, indices), |indices|, f2, lanes).Valid()
    ensures VertexReader(vertexBuffer, EncodeIndices(f1, indices), |indices|, f1, lanes).ReadIndex(offset)
            == VertexReader(vertexBuffer, EncodeIndices(f2, indices), |indices|, f2, lanes).ReadIndex(offset)
  {
    ReadIndexEncoded(f1, indices, vertexBuffer, lanes, offset);
    ReadIndexEncoded(f2, indices, vertexBuffer, lanes, offset);
  }

  // ---------------------------------------------------------------------------
  // Normalized-integer unpacking (integer part)
  // ---------------------------------------------------------------------------

  /** `(data >> bitPos) & mask` on one `int32_t` lane, with `mask = 2^bitCount - 1`
      and `>>` the arithmetic shift (floor division by a power of two). */
  function UnpackUNormInt(data: int, bitPos: nat, bitCount: nat): (v: int)
    requires IsI32(data) && bitCount < 32
    ensures 0 <= v <= Pow2(bitCount) - 1
  {
    (data / Pow2(bitPos)) % Pow2(bitCount)
  }

  /** `(data << (32 - bitCount - bitPos)) >> (32 - bitCount)` on one `int32_t`
      lane: the left shift wraps, the right shift is arithmetic. */
  function UnpackSNormInt(data: int, bitPos: nat, bitCount: nat): (v: int)
    requires IsI32(data) && 1 <= bitCount < 32 && bitPos + bitCount <= 32
    ensures -Pow2(bitCount - 1) <= v <= Pow2(bitCount - 1) - 1
  {
    UnpackSNormIsSignExtended(data, bitPos, bitCount);
    WrapI32(data * Pow2(32 - bitCount - bitPos)) / Pow2(32 - bitCount)
  }

  /** Two's-complement reading of a `bits`-wide field. */
  function SignExtend(field: int, bits: nat): (v: int)
    requires 1 <= bits && 0 <= field < Pow2(bits)
    ensures -Pow2(bits - 1) <= v <= Pow2(bits - 1) - 1
    ensures v == field || v == field - Pow2(bits)
  {
    assert Pow2(bits) == 2 * Pow2(bits - 1);
    if field >= Pow2(bits - 1) then field - Pow2(bits) else field
  }

  /** The unsigned field read out of the signed lane is the field of the lane's
      32 bits: bits `bitPos .. bitPos + bitCount - 1` of the word. */
  lemma UnpackUNormIsBitField(data: int, bitPos: nat, bitCount: nat)
    requires IsI32(data) && bitCount < 32 && bitPos + bitCount <= 32
    ensures UnpackUNormInt(data, bitPos, bitCount) == (AsU32(data) / Pow2(bitPos)) % Pow2(bitCount)
  {
    if data < 0 {
      Pow2ThirtyTwo();
      FieldIgnoresHighMultiple(data, 1, bitPos, bitCount, 32);
    }
  }

  /** Adding a multiple of `2^total` does not change a bit field that ends at or
      below bit `total`. */
  lemma FieldIgnoresHighMultiple(a: int, c: int, pos: nat, n: nat, total: nat)
    requires pos + n <= total
    ensures ((a + c * Pow2(total)) / Pow2(pos)) % Pow2(n) == (a / Pow2(pos)) % Pow2(n)
  {
    Pow2Split(pos, n, total);
    FieldIgnoresMultiple(a, c, Pow2(pos), Pow2(n), Pow2(total - pos - n), Pow2(total));
  }

  lemma Pow2Split(pos: nat, n: nat, total: nat)
    requires pos + n <= total
    ensures Pow2(total) == Pow2(pos) * (Pow2(n) * Pow2(total - pos - n))
  {
    Pow2Add(n, total - pos - n);
    Pow2Add(pos, total - pos);
  }

  lemma FieldIgnoresMultiple(a: int, c: int, p: int, n: int, r: int, big: int)
    requires p > 0 && n > 0 && r > 0 && big == p * (n * r)
    ensures ((a + c * big) / p) % n == (a / p) % n
  {
    var m := c * r;
    assert c * big == (m * n) * p;
    DivAddMultiple(a, m * n, p);
    ModAddMultiple(a / p, m, n);
  }

  lemma DivAddMultiple(a: int, m: int, b: int)
    requires b > 0
    ensures (a + m * b) / b == a / b + m
  {
    DivModUnique(a + m * b, b, a / b + m, a % b);
  }

  lemma ModAddMultiple(a: int, m: int, b: int)
    requires b > 0
    ensures (a + m * b) % b == a % b
  {
    DivModUnique(a + m * b, b, a / b + m, a % b);
  }

  /** The signed unpacker sign-extends exactly the field the unsigned one
      extracts. */
  lemma UnpackSNormIsSignExtended(data: int, bitPos: nat, bitCount: nat)
    requires IsI32(data) && 1 <= bitCount < 32 && bitPos + bitCount <= 32
    ensures WrapI32(data * Pow2(32 - bitCount - bitPos)) / Pow2(32 - bitCount)
            == SignExtend(UnpackUNormInt(data, bitPos, bitCount), bitCount)
  {
    var s, hiPos := 32 - bitCount - bitPos, 32 - bitCount;
    Pow2Add(bitPos, s);
    Pow2Add(bitCount, hiPos);
    Pow2ThirtyTwo();
    SignExtendArith(data, Pow2(bitPos), Pow2(s), Pow2(bitCount), Pow2(bitCount - 1));
  }

  /** `SignExtend` in terms of plain powers: `p = 2^bitPos`, `s = 2^(32 - n - bitPos)`,
      `n = 2^bitCount = 2 * half`. */
  lemma SignExtendArith(data: int, p: int, s: int, n: int, half: int)
    requires IsI32(data) && p > 0 && s > 0 && half > 0 && n == 2 * half
    requires n * (p * s) == TwoTo32
    ensures var f := (data / p) % n;
      WrapI32(data * s) / (p * s) == if f >= half then f - n else f
  {
    var h := p * s;
    var f, m := (data / p) % n, (data / p) / n;
    var low := (data % p) * s;
    ShiftLeftSplit(data, p, s, n);
    var t := f * h + low;
    assert (data * s - t) % TwoTo32 == 0 by {
      DivModUnique(data * s - t, TwoTo32, m, 0);
    }
    WrapI32Congruent(data * s, t);
    TopFieldShift(f, low, h, n, half);
  }

  /** `data * s` splits into a multiple of 2^32, the field `f` moved to the top
      bits and the bits below the field. */
  lemma ShiftLeftSplit(data: int, p: int, s: int, n: int)
    requires p > 0 && s > 0 && n > 0 && n * (p * s) == TwoTo32
    ensures 0 <= (data % p) * s <= p * s - s
    ensures data * s == ((data / p) / n) * TwoTo32 + ((data / p) % n) * (p * s) + (data % p) * s
  {
    var q, r := data / p, data % p;
    var f, m := q % n, q / n;
    MulLeMonotone(r, p - 1, s);
    assert data * s == q * (p * s) + r * s by {
      assert data == q * p + r;
    }
    assert q * (p * s) == m * TwoTo32 + f * (p * s) by {
      assert q == m * n + f;
    }
  }

  /** Arithmetic shift right of a 32-bit word whose top bits hold `f`. */
  lemma TopFieldShift(f: int, low: int, h: int, n: int, half: int)
    requires 0 <= f < n && 0 <= low < h && n == 2 * half && n * h == TwoTo32
    ensures WrapI32(f * h + low) / h == if f >= half then f - n else f
  {
    var t := f * h + low;
    assert half * h == TwoTo31;
    if f < half {
      MulLeMonotone(f, half - 1, h);
      DivModUnique(t, h, f, low);
    } else {
      MulLeMonotone(half, f, h);
      MulLeMonotone(f, n - 1, h);
      var u := t - TwoTo32;
      WrapI32Congruent(t, u);
      assert u == (f - n) * h + low;
      DivModUnique(u, h, f - n, low);
    }
  }

  /** `UnpackUNorm` on all lanes (integer part; the float scale is not modelled). */
  function UnpackUNorm(data: seq<int>, bitPos: nat, bitCount: nat): (v: seq<int>)
    requires IsVInt(data) && bitCount < 32
    ensures |v| == W && forall k :: 0 <= k < W ==> 0 <= v[k] <= Pow2(bitCount) - 1
    ensures forall k :: 0 <= k < W ==> v[k] == UnpackUNormInt(data[k], bitPos, bitCount)
  {
    seq(W, k requires 0 <= k < W => UnpackUNormInt(data[k], bitPos, bitCount))
  }

  /** `UnpackSNorm` on all lanes (integer part). */
  function UnpackSNorm(data: seq<int>, bitPos: nat, bitCount: nat): (v: seq<int>)
    requires IsVInt(data) && 1 <= bitCount < 32 && bitPos + bitCount <= 32
    ensures |v| == W && forall k :: 0 <= k < W ==> -Pow2(bitCount - 1) <= v[k] <= Pow2(bitCount - 1) - 1
    ensures forall k :: 0 <= k < W ==> v[k] == UnpackSNormInt(data[k], bitPos, bitCount)
  {
    seq(W, k requires 0 <= k < W => UnpackSNormInt(data[k], bitPos, bitCount))
  }

  // ---------------------------------------------------------------------------
  // ReadAttribs: a group of consecutive attributes of one member type
  // ---------------------------------------------------------------------------

  /** The member type `A`: a float, or a normalized integer of 8 or 16 bits
      (32-bit integers are refused by the unpackers' assertion). */
  datatype ElemType = F32 | U8 | I8 | U16 | I16

  function ElemBytes(a: ElemType): nat {
    match a
    case F32 => 4
    case U8 => 1
    case I8 => 1
    case U16 => 2
    case I16 => 2
  }

  function ElemBits(a: ElemType): nat { 8 * ElemBytes(a) }

  /** How many members one gathered 32-bit word holds. */
  function FieldsPerWord(a: ElemType): nat { 4 / ElemBytes(a) }

  /** `sign = elemSize != 32 && std::is_signed<A>()`. */
  predicate IsSignedInt(a: ElemType) { a == I8 || a == I16 }

  /** One lane of an unpacked member: the raw word for a float, otherwise the
      bit field at `pos`, sign-extended for signed types. */
  function FieldLane(d: int, pos: nat, a: ElemType): int
    requires IsI32(d) && pos + ElemBits(a) <= 32
  {
    if a == F32 then d
    else if IsSignedInt(a) then UnpackSNormInt(d, pos, ElemBits(a))
    else UnpackUNormInt(d, pos, ElemBits(a))
  }

  /** The lanes of one unpacked member, lane by lane; `UnpackFieldDispatch`
      shows that this is the dispatch on `sign` in the unpack loop. */
  function UnpackField(data: seq<int>, pos: nat, a: ElemType): (v: seq<int>)
    requires IsVInt(data) && pos + ElemBits(a) <= 32
    ensures |v| == W && forall k :: 0 <= k < W ==> v[k] == FieldLane(data[k], pos, a)
  {
    seq(W, k requires 0 <= k < W => FieldLane(data[k], pos, a))
  }

  /** The unpack loop's `sign ? UnpackSNorm(data, pos, elemSize) : UnpackUNorm(data, pos, elemSize)`,
      with floats taken as the raw word, is `UnpackField`. */
  lemma UnpackFieldDispatch(data: seq<int>, pos: nat, a: ElemType)
    requires IsVInt(data) && pos + ElemBits(a) <= 32
    ensures a == F32 ==> UnpackField(data, pos, a) == data
    ensures IsSignedInt(a) ==> UnpackField(data, pos, a) == UnpackSNorm(data, pos, ElemBits(a))
    ensures a != F32 && !IsSignedInt(a) ==> UnpackField(data, pos, a) == UnpackUNorm(data, pos, ElemBits(a))
  {
    var v := UnpackField(data, pos, a);
    if a == F32 {
      assert v == data;
    } else if IsSignedInt(a) {
      assert v == UnpackSNorm(data, pos, ElemBits(a));
    } else {
      assert v == UnpackUNorm(data, pos, ElemBits(a));
    }
  }

  /** The value of one member of type `a` stored at byte `addr`, read directly. */
  function ElementValue(mem: seq<Byte>, addr: nat, a: ElemType): int
    requires addr + ElemBytes(a) <= |mem|
  {
    var raw := LoadLE(mem, addr, ElemBytes(a));
    if a == F32 then WrapI32(raw)
    else if IsSignedInt(a) then SignExtend(raw, ElemBits(a))
    else raw
  }

  /** Every lane's record holds the `count` members from `offset` on, and the
      word gathered at the last member's address. */
  predicate MembersReadable(vr: VertexReader, offset: nat, stride: nat, count: nat, a: ElemType) {
    count == 0 || vr.LanesReadable(stride, offset + (count - 1) * ElemBytes(a) + 4)
  }

  /** What member `i` of a group of `count` is: for every lane, the member
      stored at `offset + i * sizeof(A)` in that lane's vertex record. */
  function IntendedElement(vr: VertexReader, offset: nat, stride: nat, a: ElemType, count: nat, i: nat): (v: seq<int>)
    requires i < count && MembersReadable(vr, offset, stride, count, a)
    ensures |v| == W
  {
    MulLeMonotone(i, count - 1, ElemBytes(a));
    LanesReadableMonotone(vr, stride, offset + i * ElemBytes(a) + ElemBytes(a), offset + (count - 1) * ElemBytes(a) + 4);
    MembersAt(vr, stride, offset + i * ElemBytes(a), a)
  }

  /** For every lane, the member of type `a` stored at byte `at` of that lane's
      vertex record. */
  function MembersAt(vr: VertexReader, stride: nat, at: nat, a: ElemType): (v: seq<int>)
    requires vr.LanesReadable(stride, at + ElemBytes(a))
    ensures |v| == W
    ensures forall k :: 0 <= k < W ==> v[k] == ElementValue(vr.VertexBuffer, vr.Indices[k] * stride + at, a)
  {
    seq(W, k requires 0 <= k < W => ElementValue(vr.VertexBuffer, vr.Indices[k] * stride + at, a))
  }

  /** Slot arithmetic of one gathered word: slot `s` starts at bit `s * elemSize`,
      which is byte `s * sizeof(A)`; the unpack loop's `pos < 32` holds exactly
      for the `32 / elemSize` slots of the word. */
  lemma SlotArith(a: ElemType, s: nat)
    ensures FieldsPerWord(a) > 0 && FieldsPerWord(a) * ElemBits(a) == 32
    ensures s * ElemBits(a) < 32 <==> s < FieldsPerWord(a)
    ensures s * ElemBits(a) == 32 <==> s == FieldsPerWord(a)
    ensures s < FieldsPerWord(a) ==>
              s * ElemBits(a) == 8 * (s * ElemBytes(a)) && s * ElemBytes(a) + ElemBytes(a) <= 4
  {
    if ElemBytes(a) == 1 {
      assert s * ElemBits(a) == 8 * s;
    } else if ElemBytes(a) == 2 {
      assert s * ElemBits(a) == 16 * s;
    } else {
      assert s * ElemBits(a) == 32 * s;
    }
  }

  /** The members `g .. g + per - 1` of one word group: member `j` sits at
      position `j - g` of the group. */
  lemma GroupSlot(g: nat, j: nat, per: nat)
    requires per > 0 && g % per == 0 && g <= j < g + per
    ensures j % per == j - g && j - j % per == g
  {
    DivModUnique(j, per, g / per, j - g);
  }

  /** The next group starts one word after the current one. */
  lemma NextGroup(g: nat, per: nat)
    requires per > 0 && g % per == 0
    ensures (g + per) % per == 0
  {
    DivModUnique(g + per, per, g / per + 1, 0);
  }

  lemma LanesReadableMonotone(vr: VertexReader, stride: nat, lo: nat, hi: nat)
    requires lo <= hi && vr.LanesReadable(stride, hi)
    ensures vr.LanesReadable(stride, lo)
  {
  }

  /** What the loop as written stores in `dest[i]`: the word is gathered at
      `offset + g * 4`, where `g` is the first member of `i`'s word group, and
      member `i` is unpacked from bit `(i - g) * elemSize` of it. */
  function AsWrittenElement(vr: VertexReader, offset: nat, stride: nat, a: ElemType, count: nat, i: nat): (v: seq<int>)
    requires i < count && vr.LanesReadable(stride, offset + 4 * count)
    ensures |v| == W
  {
    var per := FieldsPerWord(a);
    SlotArith(a, i % per);
    LanesReadableMonotone(vr, stride, offset + (i - i % per) * 4 + 4, offset + 4 * count);
    WordMember(vr, offset, stride, a, i - i % per, i % per)
  }

  /** Slot `s` of the word gathered at `offset + g * 4`. */
  function WordMember(vr: VertexReader, offset: nat, stride: nat, a: ElemType, g: nat, s: nat): (v: seq<int>)
    requires s < FieldsPerWord(a) && vr.LanesReadable(stride, offset + g * 4 + 4)
    ensures |v| == W
  {
    SlotArith(a, s);
    UnpackField(vr.ReadAttribS32(offset + g * 4, stride), s * ElemBits(a), a)
  }

  /** Member `i` of the word group starting at member `g`, as the loop as
      written produces it. */
  lemma AsWrittenGroupElement(vr: VertexReader, offset: nat, stride: nat, a: ElemType, count: nat, g: nat, i: nat, pos: nat)
    requires g % FieldsPerWord(a) == 0 && g <= i < count && pos == (i - g) * ElemBits(a) < 32
    requires vr.LanesReadable(stride, offset + 4 * count)
    ensures vr.LanesReadable(stride, offset + g * 4 + 4)
    ensures pos + ElemBits(a) <= 32
    ensures AsWrittenElement(vr, offset, stride, a, count, i)
            == UnpackField(vr.ReadAttribS32(offset + g * 4, stride), pos, a)
  {
    GroupArith(a, g, i, pos);
    LanesReadableMonotone(vr, stride, offset + g * 4 + 4, offset + 4 * count);
    LanesReadableMonotone(vr, stride, offset + (i - i % FieldsPerWord(a)) * 4 + 4, offset + 4 * count);
    AsWrittenIsWordMember(vr, offset, stride, a, count, i, g, i - g);
    WordMemberAt(vr, offset, stride, a, g, i - g, pos);
  }

  /** Member `i` as written is slot `s = i % per` of the word of the group
      that starts at member `g = i - s`. */
  lemma AsWrittenIsWordMember(vr: VertexReader, offset: nat, stride: nat, a: ElemType, count: nat, i: nat, g: nat, s: nat)
    requires i < count && vr.LanesReadable(stride, offset + 4 * count)
    requires i % FieldsPerWord(a) < FieldsPerWord(a)
    requires vr.LanesReadable(stride, offset + (i - i % FieldsPerWord(a)) * 4 + 4)
    requires g == i - i % FieldsPerWord(a) && s == i % FieldsPerWord(a)
    ensures AsWrittenElement(vr, offset, stride, a, count, i) == WordMember(vr, offset, stride, a, g, s)
  {
  }

  /** Slot `s` of a word is the member unpacked from bit `s * elemSize`. */
  lemma WordMemberAt(vr: VertexReader, offset: nat, stride: nat, a: ElemType, g: nat, s: nat, pos: nat)
    requires s < FieldsPerWord(a) && vr.LanesReadable(stride, offset + g * 4 + 4)
    requires pos == s * ElemBits(a)
    ensures pos + ElemBits(a) <= 32
    ensures WordMember(vr, offset, stride, a, g, s) == UnpackField(vr.ReadAttribS32(offset + g * 4, stride), pos, a)
  {
    SlotArith(a, s);
  }

  /** The slot arithmetic of `AsWrittenGroupElement`: member `i` of the group
      starting at `g` is slot `i - g` of the group's word. */
  lemma GroupArith(a: ElemType, g: nat, i: nat, pos: nat)
    requires g % FieldsPerWord(a) == 0 && g <= i && pos == (i - g) * ElemBits(a) < 32
    ensures i % FieldsPerWord(a) == i - g && i - i % FieldsPerWord(a) == g
    ensures i % FieldsPerWord(a) < FieldsPerWord(a)
    ensures (i % FieldsPerWord(a)) * ElemBits(a) == pos && pos + ElemBits(a) <= 32
  {
    SlotArith(a, i - g);
    GroupSlot(g, i, FieldsPerWord(a));
  }

  /** Member `i` of the word group starting at member `g`, unpacked from the word
      at the group's first member, is the member stored at its own address. */
  lemma IntendedGroupElement(vr: VertexReader, offset: nat, stride: nat, a: ElemType, count: nat, g: nat, i: nat, pos: nat)
    requires g <= i < count && pos == (i - g) * ElemBits(a) < 32
    requires MembersReadable(vr, offset, stride, count, a)
    ensures vr.LanesReadable(stride, offset + g * ElemBytes(a) + 4)
    ensures pos + ElemBits(a) <= 32
    ensures IntendedElement(vr, offset, stride, a, count, i)
            == UnpackField(vr.ReadAttribS32(offset + g * ElemBytes(a), stride), pos, a)
  {
    var j := IntendedArith(a, count, g, i, pos);
    var base := offset + g * ElemBytes(a);
    LanesReadableMonotone(vr, stride, base + 4, offset + (count - 1) * ElemBytes(a) + 4);
    IntendedChain(vr, offset, stride, a, count, i, base, j, pos);
  }

  /** Member `i`, stored `j` bytes into the word at byte `base`, is the member
      unpacked from bit `pos = 8 * j` of that word. */
  lemma IntendedChain(vr: VertexReader, offset: nat, stride: nat, a: ElemType, count: nat, i: nat,
                      base: nat, j: nat, pos: nat)
    requires i < count && MembersReadable(vr, offset, stride, count, a)
    requires offset + i * ElemBytes(a) == base + j && j + ElemBytes(a) <= 4 && pos == 8 * j
    requires vr.LanesReadable(stride, base + 4)
    ensures pos + ElemBits(a) <= 32
    ensures IntendedElement(vr, offset, stride, a, count, i) == UnpackField(vr.ReadAttribS32(base, stride), pos, a)
  {
    IntendedAt(vr, offset, stride, a, count, i, base + j);
    IntendedWord(vr, stride, a, base, j, pos);
  }

  /** Member `i` is read at byte `at = offset + i * sizeof(A)`. */
  lemma IntendedAt(vr: VertexReader, offset: nat, stride: nat, a: ElemType, count: nat, i: nat, at: nat)
    requires i < count && MembersReadable(vr, offset, stride, count, a)
    requires at == offset + i * ElemBytes(a)
    ensures vr.LanesReadable(stride, at + ElemBytes(a))
    ensures IntendedElement(vr, offset, stride, a, count, i) == MembersAt(vr, stride, at, a)
  {
    MulLeMonotone(i, count - 1, ElemBytes(a));
    LanesReadableMonotone(vr, stride, at + ElemBytes(a), offset + (count - 1) * ElemBytes(a) + 4);
  }

  /** The byte arithmetic of `IntendedGroupElement`: member `i` sits `j` bytes
      into the word at member `g`, and the field at bit `pos` is that byte. */
  lemma IntendedArith(a: ElemType, count: nat, g: nat, i: nat, pos: nat) returns (j: nat)
    requires g <= i < count && pos == (i - g) * ElemBits(a) < 32
    ensures pos == 8 * j && j + ElemBytes(a) <= 4
    ensures i * ElemBytes(a) == g * ElemBytes(a) + j
    ensures g * ElemBytes(a) + 4 <= (count - 1) * ElemBytes(a) + 4
  {
    var bytes := ElemBytes(a);
    j := (i - g) * bytes;
    SlotArith(a, i - g);
    MulLeMonotone(g, count - 1, bytes);
    assert i == g + (i - g);
  }

  /** The member `j` bytes into a gathered word is the member stored at its own
      address. */
  lemma IntendedWord(vr: VertexReader, stride: nat, a: ElemType, base: nat, j: nat, pos: nat)
    requires j + ElemBytes(a) <= 4 && vr.LanesReadable(stride, base + 4) && pos == 8 * j
    ensures vr.LanesReadable(stride, base + j + ElemBytes(a))
    ensures pos + ElemBits(a) <= 32
    ensures MembersAt(vr, stride, base + j, a) == UnpackField(vr.ReadAttribS32(base, stride), pos, a)
  {
    LanesReadableMonotone(vr, stride, base + j + ElemBytes(a), base + 4);
    var lhs := MembersAt(vr, stride, base + j, a);
    var rhs := UnpackField(vr.ReadAttribS32(base, stride), pos, a);
    forall k | 0 <= k < W
      ensures lhs[k] == rhs[k]
    {
      IntendedLane(vr, stride, a, base, j, k);
    }
  }

  /** Lane `k` of `IntendedWord`. */
  lemma IntendedLane(vr: VertexReader, stride: nat, a: ElemType, base: nat, j: nat, k: nat)
    requires j + ElemBytes(a) <= 4 && vr.LanesReadable(stride, base + 4) && k < W
    requires vr.LanesReadable(stride, base + j + ElemBytes(a))
    ensures 8 * j + ElemBits(a) <= 32
    ensures MembersAt(vr, stride, base + j, a)[k] == UnpackField(vr.ReadAttribS32(base, stride), 8 * j, a)[k]
  {
    var data := vr.ReadAttribS32(base, stride);
    var addr := vr.Indices[k] * stride + base;
    assert vr.Indices[k] * stride + (base + j) == addr + j;
    WordFieldIsElement(vr.VertexBuffer, addr, data[k], a, j);
  }

  /** The unsigned field at bit `8 * j`, `8 * n` bits wide, of a lane holding the
      word at `addr` is the `n`-byte load `j` bytes after `addr`. */
  lemma WordBytes(mem: seq<Byte>, addr: nat, d: int, j: nat, n: nat)
    requires 1 <= n < 4 && j + n <= 4 && addr + 4 <= |mem|
    requires IsI32(d) && AsU32(d) == LoadLE(mem, addr, 4)
    ensures UnpackUNormInt(d, 8 * j, 8 * n) == LoadLE(mem, addr + j, n)
  {
    UnpackUNormIsBitField(d, 8 * j, 8 * n);
    LoadLEHigh(mem, addr, 4, j);
    LoadLELow(mem, addr + j, 4 - j, n);
  }

  /** The signed field at bit `8 * j`, `8 * n` bits wide, of a lane holding the
      word at `addr` is the sign-extended `n`-byte load `j` bytes after `addr`. */
  lemma WordBytesSigned(mem: seq<Byte>, addr: nat, d: int, j: nat, n: nat)
    requires 1 <= n < 4 && j + n <= 4 && addr + 4 <= |mem|
    requires IsI32(d) && AsU32(d) == LoadLE(mem, addr, 4)
    ensures LoadLE(mem, addr + j, n) < Pow2(8 * n)
    ensures UnpackSNormInt(d, 8 * j, 8 * n) == SignExtend(LoadLE(mem, addr + j, n), 8 * n)
  {
    WordBytes(mem, addr, d, j, n);
    UnpackSNormIsSignExtended(d, 8 * j, 8 * n);
  }

  /** The member unpacked from bit `8 * j` of a lane holding the word at `addr`
      is the member stored `j` bytes after `addr`. */
  lemma WordFieldIsElement(mem: seq<Byte>, addr: nat, d: int, a: ElemType, j: nat)
    requires j + ElemBytes(a) <= 4 && addr + 4 <= |mem|
    requires IsI32(d) && AsU32(d) == LoadLE(mem, addr, 4)
    ensures 8 * j + ElemBits(a) <= 32
    ensures FieldLane(d, 8 * j, a) == ElementValue(mem, addr + j, a)
  {
    if a == F32 {
      assert j == 0;
      WrapI32AsU32(d);
    } else if !IsSignedInt(a) {
      WordBytes(mem, addr, d, j, ElemBytes(a));
    } else {
      WordBytesSigned(mem, addr, d, j, ElemBytes(a));
    }
  }

  /** `dest` holds the first `|dest|` members as the loop as written produces them. */
  predicate AsWrittenPrefix(vr: VertexReader, offset: nat, stride: nat, a: ElemType, count: nat, dest: seq<seq<int>>)
    requires vr.LanesReadable(stride, offset + 4 * count)
  {
    |dest| <= count && forall j :: 0 <= j < |dest| ==> dest[j] == AsWrittenElement(vr, offset, stride, a, count, j)
  }

  lemma AsWrittenPrefixExtend(vr: VertexReader, offset: nat, stride: nat, a: ElemType, count: nat,
                              dest: seq<seq<int>>, x: seq<int>)
    requires vr.LanesReadable(stride, offset + 4 * count)
    requires AsWrittenPrefix(vr, offset, stride, a, count, dest) && |dest| < count
    requires x == AsWrittenElement(vr, offset, stride, a, count, |dest|)
    ensures AsWrittenPrefix(vr, offset, stride, a, count, dest + [x])
  {
  }

  /** `dest` holds the first `|dest|` members, each read at its own address. */
  predicate IntendedPrefix(vr: VertexReader, offset: nat, stride: nat, a: ElemType, count: nat, dest: seq<seq<int>>)
    requires MembersReadable(vr, offset, stride, count, a)
  {
    |dest| <= count && forall j :: 0 <= j < |dest| ==> dest[j] == IntendedElement(vr, offset, stride, a, count, j)
  }

  lemma IntendedPrefixExtend(vr: VertexReader, offset: nat, stride: nat, a: ElemType, count: nat,
                             dest: seq<seq<int>>, x: seq<int>)
    requires MembersReadable(vr, offset, stride, count, a)
    requires IntendedPrefix(vr, offset, stride, a, count, dest) && |dest| < count
    requires x == IntendedElement(vr, offset, stride, a, count, |dest|)
    ensures IntendedPrefix(vr, offset, stride, a, count, dest + [x])
  {
  }

  /** `ReadAttribs` as written. The float path gathers one word per member at
      `offset + i * 4`; the integer path gathers a word at `offset + i * 4` and
      unpacks `32 / elemSize` members from it at `pos = 0, elemSize, ...`. */
  method ReadAttribsAsWritten(vr: VertexReader, offset: nat, stride: nat, count: nat, a: ElemType)
    returns (dest: seq<seq<int>>)
    requires vr.LanesReadable(stride, offset + 4 * count)
    ensures |dest| == count
    ensures forall i :: 0 <= i < count ==> dest[i] == AsWrittenElement(vr, offset, stride, a, count, i)
  {
    var per := FieldsPerWord(a);
    SlotArith(a, 0);
    dest := [];
    var i := 0;
    while i < count
      invariant 0 <= i <= count && |dest| == i && (i % per == 0 || i == count)
      invariant AsWrittenPrefix(vr, offset, stride, a, count, dest)
    {
      AsWrittenGroupElement(vr, offset, stride, a, count, i, i, 0);
      if a == F32 {
        AsWrittenPrefixExtend(vr, offset, stride, a, count, dest, vr.ReadAttribS32(offset + i * 4, stride));
        dest := dest + [vr.ReadAttribS32(offset + i * 4, stride)];
        i := i + 1;
      } else {
        var data := vr.ReadAttribS32(offset + i * 4, stride);
        var elemSize := ElemBits(a);
        ghost var g := i;
        var pos := 0;
        while pos < 32 && i < count
          invariant g <= i <= count && |dest| == i && pos <= 32
          invariant pos == (i - g) * elemSize
          invariant AsWrittenPrefix(vr, offset, stride, a, count, dest)
        {
          AsWrittenGroupElement(vr, offset, stride, a, count, g, i, pos);
          AsWrittenPrefixExtend(vr, offset, stride, a, count, dest, UnpackField(data, pos, a));
          dest := dest + [UnpackField(data, pos, a)];
          SlotArith(a, i - g);
          SlotArith(a, i - g + 1);
          pos := pos + elemSize;
          i := i + 1;
        }
        if i < count {
          SlotArith(a, i - g);
          NextGroup(g, per);
        }
      }
    }
  }

  /** `ReadAttribs` with the word gathered at the address of the group's first
      member, `offset + i * sizeof(A)`. */
  method ReadAttribs(vr: VertexReader, offset: nat, stride: nat, count: nat, a: ElemType)
    returns (dest: seq<seq<int>>)
    requires MembersReadable(vr, offset, stride, count, a)
    ensures |dest| == count
    ensures forall i :: 0 <= i < count ==> dest[i] == IntendedElement(vr, offset, stride, a, count, i)
  {
    dest := [];
    var i := 0;
    while i < count
      invariant 0 <= i <= count && |dest| == i
      invariant IntendedPrefix(vr, offset, stride, a, count, dest)
    {
      SlotArith(a, 0);
      IntendedGroupElement(vr, offset, stride, a, count, i, i, 0);
      if a == F32 {
        IntendedPrefixExtend(vr, offset, stride, a, count, dest, vr.ReadAttribS32(offset + i * 4, stride));
        dest := dest + [vr.ReadAttribS32(offset + i * 4, stride)];
        i := i + 1;
      } else {
        var data := vr.ReadAttribS32(offset + i * ElemBytes(a), stride);
        var elemSize := ElemBits(a);
        ghost var g := i;
        var pos := 0;
        while pos < 32 && i < count
          invariant g <= i <= count && |dest| == i
          invariant pos == (i - g) * elemSize
          invariant IntendedPrefix(vr, offset, stride, a, count, dest)
        {
          IntendedGroupElement(vr, offset, stride, a, count, g, i, pos);
          IntendedPrefixExtend(vr, offset, stride, a, count, dest, UnpackField(data, pos, a));
          dest := dest + [UnpackField(data, pos, a)];
          assert pos + elemSize == (i + 1 - g) * elemSize;
          pos := pos + elemSize;
          i := i + 1;
        }
      }
    }
  }

  /** The loop as written reads every member correctly while the members fit in
      the first gathered word, and always for floats. */
  lemma AsWrittenAgreesWithinOneWord(vr: VertexReader, offset: nat, stride: nat, count: nat, a: ElemType)
    requires a == F32 || count <= FieldsPerWord(a)
    requires vr.LanesReadable(stride, offset + 4 * count) && MembersReadable(vr, offset, stride, count, a)
    ensures forall i :: 0 <= i < count ==>
              AsWrittenElement(vr, offset, stride, a, count, i) == IntendedElement(vr, offset, stride, a, count, i)
  {
    SlotArith(a, 0);
    forall i | 0 <= i < count
      ensures AsWrittenElement(vr, offset, stride, a, count, i) == IntendedElement(vr, offset, stride, a, count, i)
    {
      var g := if a == F32 then i else 0;
      SlotArith(a, i - g);
      if g == 0 {
        assert 0 % FieldsPerWord(a) == 0;
      }
      AsWrittenGroupElement(vr, offset, stride, a, count, g, i, (i - g) * ElemBits(a));
      IntendedGroupElement(vr, offset, stride, a, count, g, i, (i - g) * ElemBits(a));
    }
  }

  /** A vertex whose three 16-bit members are 0, 0, 7 (bytes 0..5), followed by
      six zero bytes: the loop as written takes the third member from the word
      at byte 8 instead of the member at byte 4. */
  function MisreadExample(): VertexReader {
    VertexReader([0, 0, 0, 0, 7, 0, 0, 0, 0, 0, 0, 0], [], 0, IndexFormat.U8, Broadcast(0))
  }

  /** The example's third member, read at its own address, is 7. */
  lemma MisreadIntended()
    ensures MembersReadable(MisreadExample(), 0, 12, 3, ElemType.U16)
    ensures IntendedElement(MisreadExample(), 0, 12, ElemType.U16, 3, 2)[0] == 7
  {
    var vr := MisreadExample();
    assert vr.LanesReadable(12, 6);
    assert LoadLE(vr.VertexBuffer, 4, 2) == 7;
  }

  /** The loop as written takes the example's third member from the zero word
      at byte 8. */
  lemma MisreadAsWritten()
    ensures MisreadExample().LanesReadable(12, 4 * 3)
    ensures AsWrittenElement(MisreadExample(), 0, 12, ElemType.U16, 3, 2)[0] == 0
  {
    var vr := MisreadExample();
    assert vr.LanesReadable(12, 12);
    assert 2 % FieldsPerWord(ElemType.U16) == 0;
    AsWrittenGroupElement(vr, 0, 12, ElemType.U16, 3, 2, 2, 0);
    MisreadWord();
    ZeroWordField(vr.ReadAttribS32(8, 12), ElemType.U16);
  }

  /** The member at bit 0 of a lane holding zero is zero. */
  lemma ZeroWordField(data: seq<int>, a: ElemType)
    requires IsVInt(data) && data[0] == 0
    ensures UnpackField(data, 0, a)[0] == 0
  {
    FieldLaneZero(0, a);
  }

  /** Every member of a zero word is zero. */
  lemma FieldLaneZero(pos: nat, a: ElemType)
    requires pos + ElemBits(a) <= 32
    ensures FieldLane(0, pos, a) == 0
  {
    if a != F32 {
      var p := Pow2(32 - ElemBits(a) - pos);
      var q := Pow2(32 - ElemBits(a));
      assert WrapI32(0 * p) == 0;
      assert 0 / q == 0;
      assert 0 / Pow2(pos) == 0;
    }
  }

  /** The word the loop as written gathers for the example's third member is zero. */
  lemma MisreadWord()
    ensures MisreadExample().LanesReadable(12, 12)
    ensures MisreadExample().ReadAttribS32(8, 12)[0] == 0
  {
    var vr := MisreadExample();
    assert vr.LanesReadable(12, 12);
    var d := vr.ReadAttribS32(8, 12)[0];
    assert LoadLE(vr.VertexBuffer, 8, 4) == 0;
    WrapI32AsU32(d);
  }

  lemma ReadAttribsAsWrittenMisreads()
    ensures MisreadExample().LanesReadable(12, 4 * 3)
    ensures MembersReadable(MisreadExample(), 0, 12, 3, ElemType.U16)
    ensures IntendedElement(MisreadExample(), 0, 12, ElemType.U16, 3, 2)[0] == 7
    ensures AsWrittenElement(MisreadExample(), 0, 12, ElemType.U16, 3, 2)[0] == 0
  {
    MisreadIntended();
    MisreadAsWritten();
  }
}
