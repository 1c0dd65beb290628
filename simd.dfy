/** Wide-lane values: the AVX-512 vectors `VInt`, `VFloat` and the 16-bit lane
    mask `VMask`, modelled as sequences of exactly `W` lanes. */
module Simd {
  import opened MachineInt

  /** Lanes per vector: 512 bits of 32-bit lanes. */
  const W: nat := 16

  /** A `VInt`: sixteen `int32_t` lanes. */
  predicate IsVInt(v: seq<int>) {
    |v| == W && forall k :: 0 <= k < W ==> IsI32(v[k])
  }

  /** A `VFloat`: sixteen lanes of an abstract ordered value. */
  predicate IsVFloat(v: seq<real>) { |v| == W }

  /** A `VMask`: one bit per lane. */
  predicate IsVMask(m: seq<bool>) { |m| == W }

  function Broadcast(x: int): (v: seq<int>)
    ensures |v| == W && forall k :: 0 <= k < W ==> v[k] == x
  {
    BroadcastTo(x, W)
  }

  function BroadcastTo(x: int, n: nat): (v: seq<int>)
    ensures |v| == n && forall k :: 0 <= k < n ==> v[k] == x
  {
    if n == 0 then [] else BroadcastTo(x, n - 1) + [x]
  }

  /** `simd::any`: at least one lane is set. */
  predicate Any(m: seq<bool>) {
    exists k :: 0 <= k < |m| && m[k]
  }

  /** Lane-wise wrapping addition of two `VInt`s. */
  function AddV(a: seq<int>, b: seq<int>): (r: seq<int>)
    requires |a| == W && |b| == W
    ensures IsVInt(r)
    ensures forall k :: 0 <= k < W ==> r[k] == WrapI32(a[k] + b[k])
  {
    AddTo(a, b, W)
  }

  function AddTo(a: seq<int>, b: seq<int>, n: nat): (r: seq<int>)
    requires n <= |a| && n <= |b|
    ensures |r| == n && forall k :: 0 <= k < n ==> r[k] == WrapI32(a[k] + b[k])
  {
    if n == 0 then [] else AddTo(a, b, n - 1) + [WrapI32(a[n - 1] + b[n - 1])]
  }

  /** Lane-wise wrapping multiplication of two `VInt`s (the low 32 bits of
      each product). */
  function MulV(a: seq<int>, b: seq<int>): (r: seq<int>)
    requires |a| == W && |b| == W
    ensures IsVInt(r)
    ensures forall k :: 0 <= k < W ==> r[k] == WrapI32(a[k] * b[k])
  {
    MulTo(a, b, W)
  }

  function MulTo(a: seq<int>, b: seq<int>, n: nat): (r: seq<int>)
    requires n <= |a| && n <= |b|
    ensures |r| == n && forall k :: 0 <= k < n ==> r[k] == WrapI32(a[k] * b[k])
  {
    if n == 0 then [] else MulTo(a, b, n - 1) + [WrapI32(a[n - 1] * b[n - 1])]
  }

  /** Lane-wise bitwise or of two `VInt`s. */
  function OrV(a: seq<int>, b: seq<int>): (r: seq<int>)
    requires IsVInt(a) && IsVInt(b)
    ensures IsVInt(r)
    ensures forall k :: 0 <= k < W ==> (r[k] >= 0 <==> a[k] >= 0 && b[k] >= 0)
  {
    OrTo(a, b, W)
  }

  function OrTo(a: seq<int>, b: seq<int>, n: nat): (r: seq<int>)
    requires n <= W && IsVInt(a) && IsVInt(b)
    ensures |r| == n && forall k :: 0 <= k < n ==> r[k] == OrI32(a[k], b[k])
  {
    if n == 0 then [] else OrTo(a, b, n - 1) + [OrI32(a[n - 1], b[n - 1])]
  }

  /** `v >= 0`: the lanes holding a non-negative value. */
  function NonNegative(v: seq<int>): (m: seq<bool>)
    requires |v| == W
    ensures IsVMask(m) && forall k :: 0 <= k < W ==> (m[k] <==> v[k] >= 0)
  {
    NonNegativeTo(v, W)
  }

  function NonNegativeTo(v: seq<int>, n: nat): (m: seq<bool>)
    requires n <= |v|
    ensures |m| == n && forall k :: 0 <= k < n ==> (m[k] <==> v[k] >= 0)
  {
    if n == 0 then [] else NonNegativeTo(v, n - 1) + [v[n - 1] >= 0]
  }

  /** `a < b` on two `VFloat`s. */
  function LessF(a: seq<real>, b: seq<real>): (m: seq<bool>)
    requires IsVFloat(a) && IsVFloat(b)
    ensures IsVMask(m) && forall k :: 0 <= k < W ==> (m[k] <==> a[k] < b[k])
  {
    LessTo(a, b, W)
  }

  function LessTo(a: seq<real>, b: seq<real>, n: nat): (m: seq<bool>)
    requires n <= |a| && n <= |b|
    ensures |m| == n && forall k :: 0 <= k < n ==> (m[k] <==> a[k] < b[k])
  {
    if n == 0 then [] else LessTo(a, b, n - 1) + [a[n - 1] < b[n - 1]]
  }

  /** `a & b` on two masks. */
  function AndM(a: seq<bool>, b: seq<bool>): (m: seq<bool>)
    requires IsVMask(a) && IsVMask(b)
    ensures IsVMask(m) && forall k :: 0 <= k < W ==> (m[k] <==> a[k] && b[k])
  {
    AndTo(a, b, W)
  }

  function AndTo(a: seq<bool>, b: seq<bool>, n: nat): (m: seq<bool>)
    requires n <= |a| && n <= |b|
    ensures |m| == n && forall k :: 0 <= k < n ==> (m[k] <==> a[k] && b[k])
  {
    if n == 0 then [] else AndTo(a, b, n - 1) + [a[n - 1] && b[n - 1]]
  }
}
