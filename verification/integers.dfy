/**
  Integer constants. An LLVM `APInt` is reduced to its bit width and its bit
  pattern read as an unsigned number; arithmetic on it is not modelled. The
  int64 factory stores its argument's 64-bit two's-complement pattern and reads
  it back at the recorded width: truncated for widths up to 64, zero-filled
  above.
 */
module Integers {

  function Pow2(n: nat): (r: int)
    ensures r > 0
  {
    if n == 0 then 1 else 2 * Pow2(n - 1)
  }

  const Int64Min: int := -0x8000_0000_0000_0000
  const Int64Max: int := 0x7FFF_FFFF_FFFF_FFFF

  datatype APInt = APInt(bitWidth: nat, bits: nat)

  /** The bit pattern fits in the width. */
  predicate ValidAPInt(a: APInt) {
    a.bits < Pow2(a.bitWidth)
  }

  /** An APInt whose pattern fits its width, as every integer value holds. */
  type BitPattern = a: APInt | ValidAPInt(a) witness APInt(0, 0)

  /** `APInt(bitWidth, (uint64_t)value)`: the int64's pattern, cut or zero-filled to the width. */
  function FromInt64(value: int, bitWidth: nat): (r: APInt)
    requires Int64Min <= value <= Int64Max
    ensures ValidAPInt(r) && r.bitWidth == bitWidth
  {
    APInt(bitWidth, (value % Pow2(64)) % Pow2(bitWidth))
  }

  /** The two's-complement reading of a non-empty bit pattern. */
  function SignedValue(a: APInt): (v: int)
    requires ValidAPInt(a) && a.bitWidth > 0
    ensures -Pow2(a.bitWidth - 1) <= v < Pow2(a.bitWidth - 1)
    ensures v >= 0 ==> v == a.bits
    ensures v < 0 ==> v + Pow2(a.bitWidth) == a.bits
  {
    if a.bits < Pow2(a.bitWidth - 1) then a.bits else a.bits - Pow2(a.bitWidth)
  }

  lemma {:induction false} Pow2Add(a: nat, b: nat)
    ensures Pow2(a + b) == Pow2(a) * Pow2(b)
    decreases a
  {
    if a > 0 {
      Pow2Add(a - 1, b);
      assert Pow2(a + b) == 2 * Pow2(a - 1 + b);
    }
  }

  lemma Pow2Of64()
    ensures Pow2(64) == 0x1_0000_0000_0000_0000
  {
    assert Pow2(8) == 0x100;
    Pow2Add(8, 8);
    Pow2Add(16, 16);
    Pow2Add(32, 32);
  }

  /** A non-zero multiple of `m` is at least `m` in magnitude. */
  lemma {:induction false} MulMagnitude(m: int, d: int)
    requires m > 0
    ensures d >= 1 ==> m * d >= m
    ensures d <= -1 ==> m * d <= -m
    decreases if d < 0 then -d else d
  {
    if d > 1 {
      MulMagnitude(m, d - 1);
    } else if d < -1 {
      MulMagnitude(m, d + 1);
    }
  }

  /** Euclidean division is determined by quotient and remainder. */
  lemma ModUnique(x: int, m: int, q: int, r: int)
    requires m > 0 && 0 <= r < m && x == q * m + r
    ensures x % m == r
  {
    var q0, r0 := x / m, x % m;
    assert m * (q - q0) == r0 - r;
    MulMagnitude(m, q - q0);
  }

  /** For widths up to 64 the stored pattern is the value reduced modulo 2^width. */
  lemma FromInt64Truncates(value: int, bitWidth: nat)
    requires Int64Min <= value <= Int64Max
    requires bitWidth <= 64
    ensures FromInt64(value, bitWidth).bits == value % Pow2(bitWidth)
  {
    var p, k := Pow2(bitWidth), Pow2(64 - bitWidth);
    Pow2Add(bitWidth, 64 - bitWidth);
    ModOfMultipleMod(value, p, k);
  }

  /**
    For widths of 64 and more the stored pattern is the int64's own 64-bit
    pattern, zero-filled: a negative value is stored as `value + 2^64`.
   */
  lemma FromInt64ZeroFills(value: int, bitWidth: nat)
    requires Int64Min <= value <= Int64Max
    requires bitWidth >= 64
    ensures FromInt64(value, bitWidth).bits == value % Pow2(64)
    ensures value < 0 ==> FromInt64(value, bitWidth).bits == value + Pow2(64)
  {
    var p64 := Pow2(64);
    Pow2Of64();
    Pow2Add(64, bitWidth - 64);
    MulMagnitude(p64, Pow2(bitWidth - 64));
    ModUnique(value % p64, Pow2(bitWidth), 0, value % p64);
    if value < 0 {
      ModUnique(value, p64, -1, value + p64);
    }
  }

  /** Reducing modulo `p * k` and then modulo `p` is reducing modulo `p`. */
  lemma ModOfMultipleMod(x: int, p: int, k: int)
    requires p > 0 && k > 0
    ensures (x % (p * k)) % p == x % p
  {
    var pk := p * k;
    assert pk > 0 by { MulMagnitude(p, k); }
    var q1, r1 := x / pk, x % pk;
    assert x == q1 * pk + r1;
    var q2, r2 := r1 / p, r1 % p;
    assert r1 == q2 * p + r2;
    Distribute(q1, k, q2, p);
    ModUnique(x, p, q1 * k + q2, r2);
  }

  lemma Distribute(q1: int, k: int, q2: int, p: int)
    ensures (q1 * k + q2) * p == q1 * (p * k) + q2 * p
  {
  }

  /** A value representable in `bitWidth` signed bits is read back unchanged. */
  lemma SignedRoundTrip(value: int, bitWidth: nat)
    requires Int64Min <= value <= Int64Max
    requires 0 < bitWidth <= 64
    requires -Pow2(bitWidth - 1) <= value < Pow2(bitWidth - 1)
    ensures SignedValue(FromInt64(value, bitWidth)) == value
  {
    FromInt64Truncates(value, bitWidth);
    var w := Pow2(bitWidth);
    assert w == 2 * Pow2(bitWidth - 1);
    if value < 0 {
      ModUnique(value, w, -1, value + w);
    } else {
      ModUnique(value, w, 0, value);
    }
  }

  /** A non-negative value that fits in `bitWidth` bits is stored as itself, at any width. */
  lemma UnsignedRoundTrip(value: int, bitWidth: nat)
    requires 0 <= value <= Int64Max
    requires value < Pow2(bitWidth)
    ensures FromInt64(value, bitWidth).bits == value
  {
    Pow2Of64();
    ModUnique(value, Pow2(64), 0, value);
    ModUnique(value, Pow2(bitWidth), 0, value);
  }
}
