/** Exact decimal numbers, which stand in for the `float64` rates of
    currency.go. A decimal is `mantissa * 10^exponent`; the normalised form
    has no trailing zero in its mantissa, so two normalised decimals are
    equal exactly when their values are. */
module Decimals {

  datatype Decimal = Decimal(mantissa: int, exponent: int)

  /** The decimal zero, in normalised form. */
  const Zero := Decimal(0, 0)

  function Pow10(n: nat): (r: nat)
    ensures r >= 1
  {
    if n == 0 then 1 else 10 * Pow10(n - 1)
  }

  /** `10^e` as a real number, for any integer `e`. */
  ghost function Scale(e: int): real
    decreases if e < 0 then -e else e
  {
    if e == 0 then 1.0
    else if e > 0 then 10.0 * Scale(e - 1)
    else Scale(e + 1) / 10.0
  }

  /** The exact value a decimal stands for. */
  ghost function Value(d: Decimal): real {
    d.mantissa as real * Scale(d.exponent)
  }

  lemma {:induction false} ScalePositive(e: int)
    ensures Scale(e) > 0.0
    decreases if e < 0 then -e else e
  {
    if e > 0 {
      ScalePositive(e - 1);
    } else if e < 0 {
      ScalePositive(e + 1);
    }
  }

  lemma ScaleStep(e: int)
    ensures Scale(e + 1) == 10.0 * Scale(e)
  {
  }

  /** Shifting the exponent by `k` scales by `10^k`. */
  lemma {:induction false} ScaleShift(e: int, k: nat)
    ensures Scale(e + k) == Scale(e) * Pow10(k) as real
  {
    if k > 0 {
      var j: int := e + k - 1;
      ScaleShift(e, k - 1);
      ScaleStep(j);
      assert j + 1 == e + k;
      var s, p := Scale(e), Pow10(k - 1) as real;
      assert Pow10(k) as real == 10.0 * p;
      MulTenRight(s, p);
    }
  }

  lemma MulTenRight(s: real, p: real)
    ensures 10.0 * (s * p) == s * (10.0 * p)
  {
  }

  /** No trailing zero in the mantissa, and zero is `Zero`. */
  predicate Normalized(d: Decimal) {
    if d.mantissa == 0 then d.exponent == 0 else d.mantissa % 10 != 0
  }

  /** The normalised decimal for `m * 10^e`: it keeps the value and the sign. */
  function Normalize(m: int, e: int): (d: Decimal)
    ensures Normalized(d)
    ensures (d.mantissa > 0 <==> m > 0) && (d.mantissa == 0 <==> m == 0)
    decreases if m < 0 then -m else m
  {
    if m == 0 then Zero
    else if m % 10 == 0 then Normalize(m / 10, e + 1)
    else Decimal(m, e)
  }

  /** A normalised decimal is its own normal form. */
  lemma NormalizeNormalized(d: Decimal)
    requires Normalized(d)
    ensures Normalize(d.mantissa, d.exponent) == d
  {
  }

  /** Normalising keeps the value. */
  lemma {:induction false} NormalizeKeepsValue(m: int, e: int)
    ensures Value(Normalize(m, e)) == Value(Decimal(m, e))
    decreases if m < 0 then -m else m
  {
    if m != 0 && m % 10 == 0 {
      NormalizeKeepsValue(m / 10, e + 1);
      DropTrailingZero(m, e);
    }
  }

  /** Moving a trailing zero of the mantissa into the exponent keeps the
      value. */
  lemma DropTrailingZero(m: int, e: int)
    requires m % 10 == 0
    ensures Value(Decimal(m / 10, e + 1)) == Value(Decimal(m, e))
  {
    ScaleStep(e);
    var q := (m / 10) as real;
    var s := Scale(e);
    assert m as real == q * 10.0;
    MulTen(q, s);
  }

  lemma MulTen(q: real, s: real)
    ensures q * (10.0 * s) == (q * 10.0) * s
  {
  }

  /** A decimal has a zero mantissa exactly when its value is zero. */
  lemma MantissaZeroIffValueZero(d: Decimal)
    ensures d.mantissa == 0 <==> Value(d) == 0.0
  {
    ScalePositive(d.exponent);
  }

  /** A normalised decimal is `Zero` exactly when its value is zero, so
      comparing with `Zero` is comparing the value with 0. */
  lemma ZeroIffValueZero(d: Decimal)
    requires Normalized(d)
    ensures d == Zero <==> Value(d) == 0.0
  {
    MantissaZeroIffValueZero(d);
  }

  /** A decimal with a positive mantissa has a positive value. */
  lemma PositiveValue(d: Decimal)
    requires d.mantissa > 0
    ensures Value(d) > 0.0
  {
    ScalePositive(d.exponent);
  }

  /** Normalised decimals are equal exactly when their values are. */
  lemma NormalizedIsCanonical(a: Decimal, b: Decimal)
    requires Normalized(a) && Normalized(b) && Value(a) == Value(b)
    ensures a == b
  {
    MantissaZeroIffValueZero(a);
    MantissaZeroIffValueZero(b);
    if a.mantissa != 0 {
      if a.exponent < b.exponent {
        SameValueShift(a, b);
      } else if b.exponent < a.exponent {
        SameValueShift(b, a);
      } else {
        ScalePositive(a.exponent);
      }
    }
  }

  lemma MulCancel(x: real, y: real, s: real)
    requires s > 0.0 && x * s == y * s
    ensures x == y
  {
  }

  /** Equal values with different exponents force a trailing zero on the
      mantissa of the smaller exponent. */
  lemma SameValueShift(a: Decimal, b: Decimal)
    requires a.exponent < b.exponent && Value(a) == Value(b)
    ensures a.mantissa % 10 == 0
  {
    var k: nat := b.exponent - a.exponent;
    ScaleShift(a.exponent, k);
    ScalePositive(a.exponent);
    var s := Scale(a.exponent);
    var p := Pow10(k);
    assert b.exponent == a.exponent + k;
    calc {
      a.mantissa as real * s;
      Value(a);
      Value(b);
      b.mantissa as real * (s * p as real);
      (b.mantissa as real * p as real) * s;
    }
    MulCancel(a.mantissa as real, b.mantissa as real * p as real, s);
    assert a.mantissa == b.mantissa * p;
    assert p == 10 * Pow10(k - 1);
    assert a.mantissa == (b.mantissa * Pow10(k - 1)) * 10;
  }
}
