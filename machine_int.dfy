/** Fixed-width machine integers on top of Dafny's unbounded `int`.
    The rasterizer works on `uint32_t` scalars and on 32-bit SIMD lanes whose
    arithmetic wraps; these functions make the wrap-around explicit. */
module MachineInt {

  const TwoTo31: int := 0x8000_0000
  const TwoTo32: int := 0x1_0000_0000

  predicate IsU32(v: int) { 0 <= v < TwoTo32 }
  predicate IsI32(v: int) { -TwoTo31 <= v < TwoTo31 }

  /** The value a `uint32_t` holds after an assignment of the mathematical value `v`. */
  function WrapU32(v: int): (r: int)
    ensures IsU32(r)
    ensures (v - r) % TwoTo32 == 0
    ensures IsU32(v) ==> r == v
  {
    v % TwoTo32
  }

  /** The value an `int32_t` lane holds after an operation whose exact result is `v`. */
  function WrapI32(v: int): (r: int)
    ensures IsI32(r)
    ensures (v - r) % TwoTo32 == 0
    ensures IsI32(v) ==> r == v
  {
    (v + TwoTo31) % TwoTo32 - TwoTo31
  }

  /** Reading the bits of an `int32_t` lane as `uint32_t` (two's complement). */
  function AsU32(v: int): (r: int)
    requires IsI32(v)
    ensures IsU32(r)
    ensures r == if v < 0 then v + TwoTo32 else v
  {
    WrapU32(v)
  }

  /** Reading a `uint32_t` into an `int32_t` lane and back as unsigned is the
      identity. */
  lemma AsU32WrapI32(w: int)
    requires IsU32(w)
    ensures AsU32(WrapI32(w)) == w
  {
    if w < TwoTo31 {
      assert WrapI32(w) == w;
    } else {
      CongruentInWindow(WrapI32(w), w - TwoTo32, -TwoTo31);
    }
  }

  /** Reading an `int32_t` lane as `uint32_t` and back is the identity. */
  lemma WrapI32AsU32(d: int)
    requires IsI32(d)
    ensures WrapI32(AsU32(d)) == d
  {
    if d < 0 {
      assert AsU32(d) - d == 1 * TwoTo32;
      WrapI32Congruent(AsU32(d), d);
    }
  }

  function Pow2(n: nat): (r: int)
    ensures r >= 1
  {
    if n == 0 then 1 else 2 * Pow2(n - 1)
  }

  lemma {:induction false} Pow2Add(a: nat, b: nat)
    ensures Pow2(a + b) == Pow2(a) * Pow2(b)
  {
    if a > 0 {
      Pow2Add(a - 1, b);
      assert Pow2(a + b) == 2 * Pow2(a - 1 + b);
    }
  }

  lemma {:induction false} Pow2Monotone(a: nat, b: nat)
    requires a <= b
    ensures Pow2(a) <= Pow2(b)
  {
    if a < b {
      Pow2Monotone(a, b - 1);
    }
  }

  lemma Pow2ThirtyTwo()
    ensures Pow2(8) == 256 && Pow2(16) == 0x1_0000
    ensures Pow2(31) == TwoTo31 && Pow2(32) == TwoTo32
  {
    Pow2Add(8, 8);
    Pow2Add(16, 15);
    Pow2Add(16, 16);
  }

  /** Two values in the same 2^32-wide window that agree modulo 2^32 are equal. */
  lemma CongruentInWindow(a: int, b: int, lo: int)
    requires lo <= a < lo + TwoTo32 && lo <= b < lo + TwoTo32
    requires (a - b) % TwoTo32 == 0
    ensures a == b
  {
    var q := (a - b) / TwoTo32;
    assert a - b == q * TwoTo32;
    if q != 0 {
      assert false;
    }
  }

  /** Adding a multiple of 2^32 does not change the wrapped value. */
  lemma WrapI32Congruent(a: int, b: int)
    requires (a - b) % TwoTo32 == 0
    ensures WrapI32(a) == WrapI32(b)
  {
    var ra, rb := WrapI32(a), WrapI32(b);
    var p, q, r := (a - ra) / TwoTo32, (b - rb) / TwoTo32, (a - b) / TwoTo32;
    assert a - ra == p * TwoTo32 && b - rb == q * TwoTo32 && a - b == r * TwoTo32;
    var k := r - p + q;
    assert ra - rb == k * TwoTo32;
    if k != 0 {
      assert false;
    }
  }

  /** Wrapping an intermediate result of a sum does not change the wrapped sum:
      a chain of lane additions equals one wrap of the exact sum. */
  lemma WrapI32AddLeft(a: int, b: int)
    ensures WrapI32(WrapI32(a) + b) == WrapI32(a + b)
  {
    var q := (a - WrapI32(a)) / TwoTo32;
    assert (WrapI32(a) + b) - (a + b) == (-q) * TwoTo32;
    WrapI32Congruent(WrapI32(a) + b, a + b);
  }

  /** A wrapped factor of a product can be replaced by its exact value. */
  lemma WrapI32MulRight(a: int, b: int)
    ensures WrapI32(a * WrapI32(b)) == WrapI32(a * b)
  {
    var q := (b - WrapI32(b)) / TwoTo32;
    assert b == WrapI32(b) + q * TwoTo32;
    assert a * b == a * WrapI32(b) + (a * q) * TwoTo32;
    assert a * WrapI32(b) - a * b == (-(a * q)) * TwoTo32;
    WrapI32Congruent(a * WrapI32(b), a * b);
  }

  /** `a` and `b` agree in their low 32 bits. */
  predicate Congruent(a: int, b: int) {
    (a - b) % TwoTo32 == 0
  }

  lemma CongruentAdd(a: int, b: int, c: int, d: int)
    requires Congruent(a, b) && Congruent(c, d)
    ensures Congruent(a + c, b + d)
  {
    var p, q := (a - b) / TwoTo32, (c - d) / TwoTo32;
    assert (a + c) - (b + d) == (p + q) * TwoTo32;
  }

  lemma CongruentSym(a: int, b: int)
    requires Congruent(a, b)
    ensures Congruent(b, a)
  {
    var q := (a - b) / TwoTo32;
    assert b - a == (-q) * TwoTo32;
  }

  /** A lane addition of two wrapped values wraps the exact sum. */
  lemma WrapI32AddBoth(a: int, b: int)
    ensures WrapI32(WrapI32(a) + WrapI32(b)) == WrapI32(a + b)
  {
    WrapI32AddLeft(a, WrapI32(b));
    WrapI32AddLeft(b, a);
  }

  /** Congruent factors give the same wrapped product. */
  lemma WrapI32MulCongruent(a: int, t: int, u: int)
    requires Congruent(t, u)
    ensures WrapI32(a * t) == WrapI32(a * u)
  {
    var q := (t - u) / TwoTo32;
    assert t == u + q * TwoTo32;
    assert a * t - a * u == (a * q) * TwoTo32;
    WrapI32Congruent(a * t, a * u);
  }

  /** The bitwise or of the low `n` bits of `a` and `b`. */
  function OrBits(a: nat, b: nat, n: nat): (r: nat)
    ensures r < Pow2(n)
  {
    if n == 0 then 0
    else 2 * OrBits(a / 2, b / 2, n - 1) + (if a % 2 == 1 || b % 2 == 1 then 1 else 0)
  }

  /** The top bit of an or is set exactly when it is set in either operand. */
  lemma {:induction false} OrBitsTop(a: nat, b: nat, n: nat)
    requires n >= 1 && a < Pow2(n) && b < Pow2(n)
    ensures OrBits(a, b, n) < Pow2(n - 1) <==> a < Pow2(n - 1) && b < Pow2(n - 1)
  {
    if n > 1 {
      OrBitsTop(a / 2, b / 2, n - 1);
      assert Pow2(n - 1) == 2 * Pow2(n - 2);
    }
  }

  /** `a | b` on two `int32_t` values: the bitwise or of their two's
      complement bits. The result is negative exactly when one operand is,
      since the sign bit of an or is the or of the sign bits. */
  function OrI32(a: int, b: int): (r: int)
    requires IsI32(a) && IsI32(b)
    ensures IsI32(r)
    ensures r >= 0 <==> a >= 0 && b >= 0
  {
    Pow2ThirtyTwo();
    OrBitsTop(AsU32(a), AsU32(b), 32);
    var u := OrBits(AsU32(a), AsU32(b), 32);
    if u < TwoTo31 then u else u - TwoTo32
  }

  /** Division with remainder determines quotient and remainder. */
  lemma DivModUnique(n: int, d: int, q: int, r: int)
    requires d > 0 && 0 <= r < d && n == q * d + r
    ensures n / d == q && n % d == r
  {
    var q', r' := n / d, n % d;
    assert n == q' * d + r' && 0 <= r' < d;
    var k := q' - q;
    assert k * d == r - r' by {
      assert q' * d - q * d == (q' - q) * d;
    }
    if k > 0 {
      MulLeMonotone(1, k, d);
      assert false;
    } else if k < 0 {
      MulLeMonotone(k, -1, d);
      assert false;
    }
  }

  /** Dividing a natural number by a positive divisor gives a natural number. */
  lemma DivNonNegative(n: int, d: int)
    requires n >= 0 && d > 0
    ensures n / d >= 0
  {
  }

  lemma MulLeMonotone(a: int, b: int, c: nat)
    requires a <= b
    ensures a * c <= b * c
  {
    assert b * c - a * c == (b - a) * c;
  }
}
