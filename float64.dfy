/** IEEE-754 binary64 values carried as their 64-bit patterns, with the
    comparison `<=` that Rust's `f64` operators perform, decided on the
    bits alone. The exact value of a finite double, scaled by 2^1074 so
    that it is an integer, serves as the reference the comparison is
    proved against. */
module Float64 {
  import opened Bytes

  const SIGN_BIT: nat := 0x8000_0000_0000_0000
  const FRACTION_LIMIT: nat := 0x10_0000_0000_0000  // 2^52
  const MAX_EXPONENT: nat := 0x7FF

  /** The sign bit cleared: biased exponent and fraction, as one number. */
  function Magnitude(bits: u64): (m: nat)
    ensures m < SIGN_BIT
  {
    bits % SIGN_BIT
  }

  predicate IsNegative(bits: u64)
  {
    bits >= SIGN_BIT
  }

  function Exponent(bits: u64): (e: nat)
    ensures e <= MAX_EXPONENT
  {
    Magnitude(bits) / FRACTION_LIMIT
  }

  function Fraction(bits: u64): (f: nat)
    ensures f < FRACTION_LIMIT
  {
    Magnitude(bits) % FRACTION_LIMIT
  }

  predicate IsNaN(bits: u64)
  {
    Exponent(bits) == MAX_EXPONENT && Fraction(bits) != 0
  }

  predicate IsFinite(bits: u64)
  {
    Exponent(bits) < MAX_EXPONENT
  }

  /** Where a non-NaN value sits on the number line: the magnitude, negated
      when the sign bit is set (so -0.0 and +0.0 share the key 0). */
  function OrderKey(bits: u64): int
  {
    if IsNegative(bits) then -(Magnitude(bits) as int) else Magnitude(bits)
  }

  /** IEEE-754 `x <= y`: false when either side is NaN. */
  predicate Le(x: u64, y: u64)
  {
    !IsNaN(x) && !IsNaN(y) && OrderKey(x) <= OrderKey(y)
  }

  /** `f64::from_ne_bytes` on a little-endian target. */
  function FromBytes(b: seq<u8>): (bits: u64)
    requires |b| == 8
  {
    Pow256Widths();
    FromLittleEndian(b)
  }

  // ---------------------------------------------------------------------
  // Reference semantics: the exact value of a finite double times 2^1074
  // ---------------------------------------------------------------------

  function Pow2(e: nat): (p: nat)
    ensures p > 0
  {
    if e == 0 then 1 else 2 * Pow2(e - 1)
  }

  /** |value| * 2^1074 for the magnitude bits `m` of a finite double:
      subnormals are fraction * 2^-1074, normals (2^52 + fraction) * 2^(e-1075). */
  function ScaledOfMagnitude(m: nat): nat
    requires m < MAX_EXPONENT * FRACTION_LIMIT
  {
    var e, f := m / FRACTION_LIMIT, m % FRACTION_LIMIT;
    if e == 0 then f else (FRACTION_LIMIT + f) * Pow2(e - 1)
  }

  /** The exact value of a finite double, times 2^1074. */
  function ScaledValue(bits: u64): int
    requires IsFinite(bits)
  {
    var s := ScaledOfMagnitude(Magnitude(bits));
    if IsNegative(bits) then -(s as int) else s
  }

  lemma ScaledOfMagnitudeStep(m: nat)
    requires m + 1 < MAX_EXPONENT * FRACTION_LIMIT
    ensures ScaledOfMagnitude(m) < ScaledOfMagnitude(m + 1)
  {
    var e, f := m / FRACTION_LIMIT, m % FRACTION_LIMIT;
    if f + 1 < FRACTION_LIMIT {
      DivModUnique(m + 1, FRACTION_LIMIT, e, f + 1);
      if e > 0 {
        var p := Pow2(e - 1);
        assert (FRACTION_LIMIT + f + 1) * p == (FRACTION_LIMIT + f) * p + p;
      }
    } else {
      DivModUnique(m + 1, FRACTION_LIMIT, e + 1, 0);
      if e > 0 {
        var p := Pow2(e - 1);
        assert (FRACTION_LIMIT + f) * p + p == (2 * FRACTION_LIMIT) * p;
        assert FRACTION_LIMIT * Pow2(e) == (2 * FRACTION_LIMIT) * p;
      }
    }
  }

  /** Larger magnitude bits mean a strictly larger value. */
  lemma {:induction false} ScaledOfMagnitudeMonotone(m1: nat, m2: nat)
    requires m1 < m2 < MAX_EXPONENT * FRACTION_LIMIT
    ensures ScaledOfMagnitude(m1) < ScaledOfMagnitude(m2)
    decreases m2 - m1
  {
    ScaledOfMagnitudeStep(m1);
    if m1 + 1 < m2 {
      ScaledOfMagnitudeMonotone(m1 + 1, m2);
    }
  }

  lemma ScaledOfMagnitudeZero(m: nat)
    requires m < MAX_EXPONENT * FRACTION_LIMIT
    ensures ScaledOfMagnitude(m) == 0 <==> m == 0
  {
    if m > 0 {
      ScaledOfMagnitudeMonotone(0, m);
    }
  }

  /** Between finite doubles, the bit-level `Le` is the order of their exact
      values: it treats -0.0 and +0.0 as equal and orders negatives by
      decreasing magnitude. */
  lemma LeIsValueOrder(x: u64, y: u64)
    requires IsFinite(x) && IsFinite(y)
    ensures Le(x, y) <==> ScaledValue(x) <= ScaledValue(y)
  {
    var mx, my := Magnitude(x), Magnitude(y);
    assert mx < MAX_EXPONENT * FRACTION_LIMIT && my < MAX_EXPONENT * FRACTION_LIMIT;
    ScaledOfMagnitudeZero(mx);
    ScaledOfMagnitudeZero(my);
    if mx < my {
      ScaledOfMagnitudeMonotone(mx, my);
    } else if my < mx {
      ScaledOfMagnitudeMonotone(my, mx);
    }
  }

  /** NaN compares false with everything, itself included. */
  lemma NaNIsUnordered(x: u64, y: u64)
    requires IsNaN(x) || IsNaN(y)
    ensures !Le(x, y) && !Le(y, x)
  {
  }

  /** +infinity is at least every non-NaN value. */
  lemma InfinityIsGreatest(x: u64)
    requires !IsNaN(x)
    ensures Le(x, 0x7FF0_0000_0000_0000)
  {
    assert Magnitude(x) <= 0x7FF0_0000_0000_0000 by {
      assert Exponent(x) < MAX_EXPONENT || Fraction(x) == 0;
    }
  }

  /** -infinity is at most every non-NaN value. */
  lemma NegativeInfinityIsLeast(x: u64)
    requires !IsNaN(x)
    ensures Le(0xFFF0_0000_0000_0000, x)
  {
    assert Magnitude(x) <= 0x7FF0_0000_0000_0000 by {
      assert Exponent(x) < MAX_EXPONENT || Fraction(x) == 0;
    }
  }
}
