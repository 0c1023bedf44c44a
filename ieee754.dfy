/**
 * The IEEE 754 binary interchange formats, as far as the key serializers
 * need them: classification of a bit pattern, the exact value of a finite
 * one, Kotlin's `compareTo` on non-NaN values and the `totalOrder` predicate
 * of section 5.10 of IEEE 754-2008.
 *
 * A bit pattern is split into its sign and its magnitude (every bit below
 * the sign). The exact value of a finite pattern is given as a whole number
 * of units of the smallest positive subnormal, 2^(2 - 2^(e-1) - p) for e
 * exponent bits and p fraction bits, so no real arithmetic is needed.
 */
module Ieee754 {

  /** A binary format: `Float` is binary32, `Double` is binary64. */
  datatype Format = Format(expBits: nat, fracBits: nat)

  const Binary32: Format := Format(8, 23)
  const Binary64: Format := Format(11, 52)

  /** A bit pattern: the sign bit and the bits below it. */
  datatype Bits = Bits(negative: bool, magnitude: nat)

  function Pow2(n: nat): (r: nat)
    ensures r >= 1
  {
    if n == 0 then 1 else 2 * Pow2(n - 1)
  }

  lemma {:induction false} Pow2Add(a: nat, b: nat)
    ensures Pow2(a + b) == Pow2(a) * Pow2(b)
  {
    if a > 0 {
      Pow2Add(a - 1, b);
      assert Pow2(a + b) == 2 * Pow2(a - 1 + b);
    }
  }

  lemma Pow2Values()
    ensures Pow2(31) == 0x8000_0000
    ensures Pow2(63) == 0x8000_0000_0000_0000
  {
    assert Pow2(8) == 0x100;
    Pow2Add(8, 8);
    Pow2Add(16, 8);
    Pow2Add(24, 7);
    Pow2Add(31, 1);
    Pow2Add(32, 31);
  }

  lemma {:induction false} Pow2Monotone(a: nat, b: nat)
    requires a <= b
    ensures Pow2(a) <= Pow2(b)
  {
    if a < b {
      Pow2Monotone(a, b - 1);
    }
  }

  predicate WellFormed(f: Format, x: Bits)
  {
    x.magnitude < Pow2(f.expBits + f.fracBits)
  }

  /** The all-ones biased exponent of infinities and NaNs. */
  function MaxExponent(f: Format): nat
  {
    Pow2(f.expBits) - 1
  }

  function Exponent(f: Format, x: Bits): nat
  {
    var p := Pow2(f.fracBits);
    DivModSplit(x.magnitude, p);
    x.magnitude / p
  }

  function Fraction(f: Format, x: Bits): nat
  {
    x.magnitude % Pow2(f.fracBits)
  }

  predicate IsNaN(f: Format, x: Bits)
  {
    Exponent(f, x) == MaxExponent(f) && Fraction(f, x) != 0
  }

  predicate IsInfinite(f: Format, x: Bits)
  {
    Exponent(f, x) == MaxExponent(f) && Fraction(f, x) == 0
  }

  predicate IsFinite(f: Format, x: Bits)
  {
    Exponent(f, x) != MaxExponent(f)
  }

  predicate IsZero(f: Format, x: Bits)
  {
    x.magnitude == 0
  }

  /**
   * |x| in units of the smallest positive subnormal: the fraction itself for
   * a subnormal, the fraction with its hidden bit scaled by the exponent
   * otherwise.
   */
  function Units(f: Format, x: Bits): nat
    requires IsFinite(f, x)
  {
    var e := Exponent(f, x);
    var m := Fraction(f, x);
    if e == 0 then m else (Pow2(f.fracBits) + m) * Pow2(e - 1)
  }

  /** Values on the extended real line. */
  datatype Extended = NegInfinity | Finite(units: int) | PosInfinity

  function ExtendedValue(f: Format, x: Bits): Extended
    requires !IsNaN(f, x)
  {
    if IsInfinite(f, x) then (if x.negative then NegInfinity else PosInfinity)
    else
      var u: int := Units(f, x);
      Finite(if x.negative then -u else u)
  }

  predicate ExtendedLess(a: Extended, b: Extended)
  {
    match (a, b)
    case (NegInfinity, NegInfinity) => false
    case (NegInfinity, _) => true
    case (Finite(u), Finite(v)) => u < v
    case (Finite(_), PosInfinity) => true
    case _ => false
  }

  /**
   * Kotlin's `compareTo(a, b) < 0` on two non-NaN values: numeric order,
   * except that -0.0 sorts below 0.0.
   */
  predicate CompareLess(f: Format, a: Bits, b: Bits)
    requires !IsNaN(f, a) && !IsNaN(f, b)
  {
    ExtendedLess(ExtendedValue(f, a), ExtendedValue(f, b))
    || (IsZero(f, a) && IsZero(f, b) && a.negative && !b.negative)
  }

  /**
   * `totalOrder(a, b) && a != b` (section 5.10 of IEEE 754-2008): non-NaN
   * values by `compareTo`, negative NaNs below everything and positive NaNs
   * above everything; among NaNs of one sign the fraction (quiet bit first,
   * then payload) decides, in reverse for negative NaNs.
   */
  predicate TotalOrderLess(f: Format, a: Bits, b: Bits)
  {
    if IsNaN(f, a) && IsNaN(f, b) then
      if a.negative != b.negative then a.negative
      else if a.negative then Fraction(f, a) > Fraction(f, b)
      else Fraction(f, a) < Fraction(f, b)
    else if IsNaN(f, a) then a.negative
    else if IsNaN(f, b) then !b.negative
    else CompareLess(f, a, b)
  }

  /** Sign-magnitude rank of a bit pattern: what an order-preserving key sorts by. */
  function SignMagnitudeRank(x: Bits): int
  {
    if x.negative then -1 - x.magnitude else x.magnitude
  }

  // ------------------------------------------------------------- arithmetic

  lemma DivModSplit(m: nat, p: nat)
    requires p >= 1
    ensures m / p >= 0 && m == (m / p) * p + m % p && 0 <= m % p < p
  {
  }

  lemma MulStrict(a: int, b: int, p: int)
    requires a < b && p >= 1
    ensures a * p < b * p
  {
  }

  lemma MulLe(a: int, b: int, p: int)
    requires a <= b && p >= 0
    ensures a * p <= b * p
  {
  }

  lemma FieldBoundaries(m: int, e: int, fr: int, p: int, mx: int)
    requires p >= 1 && 0 <= e && 0 <= fr < p && m == e * p + fr
    requires m < (mx + 1) * p
    ensures e <= mx
    ensures e < mx <==> m < mx * p
    ensures e == mx && fr == 0 <==> m == mx * p
    ensures e == mx && fr != 0 <==> m > mx * p
  {
    if e > mx {
      MulLe(mx + 1, e, p);
      assert false;
    }
    if e < mx {
      MulLe(e + 1, mx, p);
    }
  }

  lemma SubnormalBelow(fa: int, fb: int, p: int, qb: int)
    requires 0 <= fa < p && 0 <= fb && qb >= 1
    ensures fa < (p + fb) * qb
  {
    MulLe(1, qb, p + fb);
  }

  lemma NormalBelow(fa: int, fb: int, p: int, qa: int, qb: int)
    requires 0 <= fa < p && 0 <= fb && qa >= 1 && 2 * qa <= qb
    ensures (p + fa) * qa < (p + fb) * qb
  {
    MulStrict(p + fa, 2 * p, qa);
    MulLe(2 * qa, qb, p);
    MulLe(p, p + fb, qb);
  }

  /** The exponent field is monotone in the magnitude. */
  lemma ExponentMonotone(f: Format, a: Bits, b: Bits)
    requires a.magnitude <= b.magnitude
    ensures Exponent(f, a) <= Exponent(f, b)
    ensures Exponent(f, a) == Exponent(f, b) ==> Fraction(f, a) <= Fraction(f, b)
  {
    var p := Pow2(f.fracBits);
    DivModSplit(a.magnitude, p);
    DivModSplit(b.magnitude, p);
    if Exponent(f, a) > Exponent(f, b) {
      MulLe(Exponent(f, b) + 1, Exponent(f, a), p);
      assert false;
    }
  }

  /**
   * Where the three classes lie among the magnitudes: finite values below
   * M * 2^p, the infinity at it, NaNs above it (M the maximal exponent).
   */
  lemma ClassBoundaries(f: Format, x: Bits)
    requires WellFormed(f, x)
    ensures Exponent(f, x) <= MaxExponent(f)
    ensures IsFinite(f, x) <==> x.magnitude < MaxExponent(f) * Pow2(f.fracBits)
    ensures IsInfinite(f, x) <==> x.magnitude == MaxExponent(f) * Pow2(f.fracBits)
    ensures IsNaN(f, x) <==> x.magnitude > MaxExponent(f) * Pow2(f.fracBits)
  {
    var p := Pow2(f.fracBits);
    DivModSplit(x.magnitude, p);
    Pow2Add(f.expBits, f.fracBits);
    FieldBoundaries(x.magnitude, Exponent(f, x), Fraction(f, x), p, MaxExponent(f));
  }

  /** A larger finite magnitude has a strictly larger value. */
  lemma UnitsMonotone(f: Format, a: Bits, b: Bits)
    requires IsFinite(f, a) && IsFinite(f, b)
    requires a.magnitude < b.magnitude
    ensures Units(f, a) < Units(f, b)
  {
    var p := Pow2(f.fracBits);
    var ea, eb := Exponent(f, a), Exponent(f, b);
    var fa, fb := Fraction(f, a), Fraction(f, b);
    ExponentMonotone(f, a, b);
    DivModSplit(a.magnitude, p);
    DivModSplit(b.magnitude, p);
    assert a.magnitude == ea * p + fa;
    assert b.magnitude == eb * p + fb;
    if ea == eb {
      assert fa < fb;
      if ea > 0 {
        MulStrict(p + fa, p + fb, Pow2(ea - 1));
        assert Units(f, a) == (p + fa) * Pow2(ea - 1);
        assert Units(f, b) == (p + fb) * Pow2(ea - 1);
      }
    } else if ea == 0 {
      SubnormalBelow(fa, fb, p, Pow2(eb - 1));
      assert Units(f, a) == fa;
      assert Units(f, b) == (p + fb) * Pow2(eb - 1);
    } else {
      Pow2Monotone(ea, eb - 1);
      NormalBelow(fa, fb, p, Pow2(ea - 1), Pow2(eb - 1));
      assert Units(f, a) == (p + fa) * Pow2(ea - 1);
      assert Units(f, b) == (p + fb) * Pow2(eb - 1);
    }
  }

  /** Only the zero magnitude has value zero. */
  lemma UnitsZero(f: Format, x: Bits)
    requires IsFinite(f, x)
    ensures Units(f, x) == 0 <==> IsZero(f, x)
  {
    var p := Pow2(f.fracBits);
    var e, m := Exponent(f, x), Fraction(f, x);
    DivModSplit(x.magnitude, p);
    assert x.magnitude == e * p + m;
    assert IsZero(f, x) <==> x.magnitude == 0;
    if e == 0 {
      assert Units(f, x) == m;
      SplitZero(x.magnitude, e, m, p, 1);
    } else {
      SplitZero(x.magnitude, e, m, p, Pow2(e - 1));
    }
  }

  lemma SplitZero(mag: int, e: int, m: int, p: int, q: int)
    requires p >= 1 && q >= 1 && e >= 0 && 0 <= m < p && mag == e * p + m
    ensures (if e == 0 then m else (p + m) * q) == 0 <==> mag == 0
  {
    if e > 0 {
      MulLe(1, e, p);
      MulLe(1, p + m, q);
    }
  }

  /** `compareTo` on non-NaN values is the sign-magnitude order of the bits. */
  lemma CompareLessIsRankLess(f: Format, a: Bits, b: Bits)
    requires WellFormed(f, a) && WellFormed(f, b)
    requires !IsNaN(f, a) && !IsNaN(f, b)
    ensures CompareLess(f, a, b) <==> SignMagnitudeRank(a) < SignMagnitudeRank(b)
  {
    ClassBoundaries(f, a);
    ClassBoundaries(f, b);
    if IsFinite(f, a) && IsFinite(f, b) {
      UnitsZero(f, a);
      UnitsZero(f, b);
      if a.magnitude < b.magnitude {
        UnitsMonotone(f, a, b);
      } else if b.magnitude < a.magnitude {
        UnitsMonotone(f, b, a);
      }
    }
  }

  /** totalOrder is the sign-magnitude order of the bits. */
  lemma TotalOrderIsRankLess(f: Format, a: Bits, b: Bits)
    requires WellFormed(f, a) && WellFormed(f, b)
    ensures TotalOrderLess(f, a, b) <==> SignMagnitudeRank(a) < SignMagnitudeRank(b)
  {
    ClassBoundaries(f, a);
    ClassBoundaries(f, b);
    if IsNaN(f, a) && IsNaN(f, b) {
      var p := Pow2(f.fracBits);
      DivModSplit(a.magnitude, p);
      DivModSplit(b.magnitude, p);
    } else if !IsNaN(f, a) && !IsNaN(f, b) {
      CompareLessIsRankLess(f, a, b);
    }
  }
}
