/** Decimal numbers m * 10^e (RpcDecimal in libshvchainpack/src/rpcvalue.cpp). */
module Decimals {
  import opened ByteStrings

  datatype Dec = Dec(m: int, e: int)

  function Pow10(k: nat): (p: nat)
    ensures p >= 1
  {
    if k == 0 then 1 else 10 * Pow10(k - 1)
  }

  lemma {:induction false} Pow10Adds(a: nat, b: nat)
    ensures Pow10(a + b) == Pow10(a) * Pow10(b)
  {
    if a > 0 {
      Pow10Adds(a - 1, b);
      MulAssociates(10, Pow10(a - 1), Pow10(b));
    }
  }

  // ---------------------------------------------------------------- value

  function Min(a: int, b: int): int { if a < b then a else b }

  /** The number counted in units of 10^unit. */
  function Units(d: Dec, unit: int): int
    requires unit <= d.e
  {
    d.m * Pow10(d.e - unit)
  }

  /** Negative, zero or positive as `a` is below, equal to or above `b` as a number. */
  function Difference(a: Dec, b: Dec): int
  {
    var unit := Min(a.e, b.e);
    Units(a, unit) - Units(b, unit)
  }

  predicate SameNumber(a: Dec, b: Dec) { Difference(a, b) == 0 }

  lemma UnitsScale(d: Dec, unit: int, k: nat)
    requires unit <= d.e
    ensures Units(d, unit - k) == Units(d, unit) * Pow10(k)
  {
  }

  /** The unit of comparison does not matter. */
  lemma DifferenceInAnyUnit(a: Dec, b: Dec, unit: int)
    requires unit <= a.e && unit <= b.e
    ensures var k := Min(a.e, b.e) - unit;
      Units(a, unit) - Units(b, unit) == Difference(a, b) * Pow10(k)
    ensures Units(a, unit) == Units(b, unit) <==> SameNumber(a, b)
    ensures Units(a, unit) < Units(b, unit) <==> Difference(a, b) < 0
  {
    var lo := Min(a.e, b.e);
    var k := lo - unit;
    UnitsScale(a, lo, k);
    UnitsScale(b, lo, k);
    var x, p := Difference(a, b), Pow10(k);
    MulDistributes(Units(a, lo), Units(b, lo), p);
    if x >= 1 {
      MulMonotone(1, x, p);
    } else if x <= -1 {
      MulMonotone(x, -1, p);
    }
  }

  lemma SameNumberIsTransitive(a: Dec, b: Dec, c: Dec)
    requires SameNumber(a, b) && SameNumber(b, c)
    ensures SameNumber(a, c) && SameNumber(c, a)
  {
    var unit := Min(a.e, Min(b.e, c.e));
    DifferenceInAnyUnit(a, b, unit);
    DifferenceInAnyUnit(b, c, unit);
    DifferenceInAnyUnit(a, c, unit);
  }

  // ---------------------------------------------------------------- normalize

  function Normalize(d: Dec): (r: Dec)
    decreases Abs(d.m)
  {
    if d.m == 0 then Dec(0, 0)
    else if d.m % 10 == 0 then Normalize(Dec(d.m / 10, d.e + 1))
    else d
  }

  /** The loop over local variables. */
  method NormalizeLoop(d: Dec) returns (r: Dec)
    ensures r == Normalize(d)
  {
    if d.m == 0 {
      return Dec(0, 0);
    }
    var m, e := d.m, d.e;
    while m != 0 && m % 10 == 0
      invariant m != 0 && Normalize(Dec(m, e)) == Normalize(d)
      decreases Abs(m)
    {
      m := TruncDiv(m, 10);
      e := e + 1;
    }
    r := Dec(m, e);
  }

  lemma TenthOfMultiple(d: Dec)
    requires d.m % 10 == 0
    ensures SameNumber(d, Dec(d.m / 10, d.e + 1))
  {
  }

  lemma {:induction false} NormalizeKeepsNumber(d: Dec)
    ensures SameNumber(d, Normalize(d)) && SameNumber(Normalize(d), d)
    ensures Normalize(d).m % 10 == 0 ==> Normalize(d) == Dec(0, 0)
    decreases Abs(d.m)
  {
    if d.m != 0 && d.m % 10 == 0 {
      var next := Dec(d.m / 10, d.e + 1);
      TenthOfMultiple(d);
      NormalizeKeepsNumber(next);
      SameNumberIsTransitive(d, next, Normalize(d));
    }
  }

  lemma ReducedIsUnique(a: Dec, b: Dec)
    requires a.m % 10 != 0 && b.m % 10 != 0 && SameNumber(a, b) && a.e >= b.e
    ensures a == b
  {
    if a.e > b.e {
      var p := Pow10(a.e - b.e - 1);
      assert b.m == Units(a, b.e) == a.m * (10 * p);
      MulAssociates(a.m, p, 10);
      MultipleMod(a.m * p, 10);
    }
  }

  lemma ZeroNumber(a: Dec, b: Dec)
    requires SameNumber(a, b)
    ensures a.m == 0 <==> b.m == 0
  {
  }

  /** Normalisation is canonical: two decimals denote the same number iff they normalise to the same pair. */
  lemma NormalizeIsCanonical(a: Dec, b: Dec)
    ensures SameNumber(a, b) <==> Normalize(a) == Normalize(b)
  {
    var x, y := Normalize(a), Normalize(b);
    NormalizeKeepsNumber(a);
    NormalizeKeepsNumber(b);
    if SameNumber(a, b) {
      SameNumberIsTransitive(x, a, b);
      SameNumberIsTransitive(x, b, y);
      ZeroNumber(x, y);
      if x.m != 0 {
        if x.e >= y.e {
          ReducedIsUnique(x, y);
        } else {
          ReducedIsUnique(y, x);
        }
      }
    } else if x == y {
      SameNumberIsTransitive(a, x, b);
    }
  }

  // ---------------------------------------------------------------- comparison

  predicate FitsInt64(n: int) { -TWO_63 <= n < TWO_63 }

  /** The powers of ten that the code tabulates. */
  function TabulatedPow10(n: nat): (r: Option<int>)
    ensures r == if n <= 8 then Some(Pow10(n)) else None
  {
    if n <= 8 then
      assert Pow10(1) == 10 && Pow10(3) == 1000;
      assert Pow10(5) == 100000 && Pow10(7) == 10000000;
      Some([1, 10, 100, 1000, 10000, 100000, 1000000, 10000000, 100000000][n])
    else None
  }

  /** Multiplication with overflow detection. */
  function SafeMul(a: int, b: int): Option<int> { if FitsInt64(a * b) then Some(a * b) else None }

  function Sign(n: int): int { if n < 0 then -1 else if n > 0 then 1 else 0 }

  /** `operator<=>`; None stands for the fall-back to floating point. */
  function Compare(x: Dec, y: Dec): Option<int>
  {
    var a, b := Normalize(x), Normalize(y);
    if a.e == b.e then Some(Sign(a.m - b.m))
    else
      var p := TabulatedPow10(Abs(a.e - b.e));
      if p.None? then None
      else if a.e > b.e then
        var scaled := SafeMul(a.m, p.value);
        if scaled.None? then None else Some(Sign(scaled.value - b.m))
      else
        var scaled := SafeMul(b.m, p.value);
        if scaled.None? then None else Some(Sign(a.m - scaled.value))
  }

  lemma SignOfDifference(a: Dec, b: Dec, x: Dec, y: Dec)
    requires SameNumber(a, x) && SameNumber(b, y)
    ensures Sign(Difference(a, b)) == Sign(Difference(x, y))
  {
    var unit := Min(Min(a.e, b.e), Min(x.e, y.e));
    DifferenceInAnyUnit(a, x, unit);
    DifferenceInAnyUnit(b, y, unit);
    DifferenceInAnyUnit(a, b, unit);
    DifferenceInAnyUnit(x, y, unit);
    DifferenceInAnyUnit(b, a, unit);
    DifferenceInAnyUnit(y, x, unit);
  }

  /** Whenever the scaling path is taken, the answer is the exact order of the numbers. */
  lemma CompareIsExact(x: Dec, y: Dec)
    requires Compare(x, y).Some?
    ensures Compare(x, y).value == Sign(Difference(x, y))
  {
    var a, b := Normalize(x), Normalize(y);
    NormalizeKeepsNumber(x);
    NormalizeKeepsNumber(y);
    SignOfDifference(a, b, x, y);
    assert Pow10(0) == 1;
  }

  /**
   Equal numbers never reach the floating-point path, and on the exact path only they compare as equal.
   Where the code falls back to floating point, unequal numbers may do so too.
   */
  lemma EqualNumbersCompareEqual(x: Dec, y: Dec)
    ensures SameNumber(x, y) <==> Compare(x, y) == Some(0)
  {
    NormalizeIsCanonical(x, y);
    if Compare(x, y) == Some(0) {
      CompareIsExact(x, y);
    }
  }

  /** A pair without trailing zeros. */
  predicate Reduced(d: Dec) { if d.m == 0 then d.e == 0 else d.m % 10 != 0 }

  /** The mantissa of the larger exponent, in units of the smaller one. */
  function ScaledMantissa(a: Dec, b: Dec): int
  {
    if a.e >= b.e then Units(a, b.e) else Units(b, a.e)
  }

  /**
   The code falls back to floating point exactly if the exponents of the reduced pairs are more than eight apart, or
   the mantissa that is scaled does not fit 64 bits.
   */
  lemma FallsBackIff(x: Dec, y: Dec, a: Dec, b: Dec)
    requires Reduced(a) && SameNumber(x, a) && Reduced(b) && SameNumber(y, b)
    ensures Compare(x, y).None? <==> a.e != b.e && (Abs(a.e - b.e) > 8 || !FitsInt64(ScaledMantissa(a, b)))
  {
    NormalizeIsCanonical(x, a);
    NormalizeIsCanonical(y, b);
    assert Normalize(a) == a && Normalize(b) == b;
  }

  // ---------------------------------------------------------------- number of decimal places

  /** Repeated division by ten, as the loop does it. */
  function DivideTimes(m: int, k: nat): int
  {
    if k == 0 then m else TruncDiv(DivideTimes(m, k - 1), 10)
  }

  lemma TruncTwice(m: int, p: nat)
    requires p >= 1
    ensures TruncDiv(TruncDiv(m, p), 10) == TruncDiv(m, 10 * p)
  {
    DivDiv(Abs(m), p, 10);
    DivModIdentity(Abs(m), p);
    var q := Abs(m) / p;
    assert TruncDiv(m, p) == if m >= 0 then q else -q;
    assert Abs(m) / (10 * p) == q / 10;
  }

  lemma {:induction false} DivideTimesIsTruncation(m: int, k: nat)
    ensures DivideTimes(m, k) == TruncDiv(m, Pow10(k))
  {
    if k > 0 {
      DivideTimesIsTruncation(m, k - 1);
      TruncTwice(m, Pow10(k - 1));
    }
  }

  class RpcDecimal {
    var num: Dec

    constructor (d: Dec)
      ensures num == d
    {
      num := d;
    }

    /** Scales when the factor is tabulated and fits, truncates toward zero when digits go, else leaves it. */
    method SetDecPlaces(decPlaces: int)
      modifies this
      ensures num == WithDecPlaces(old(num), decPlaces)
    {
      var target := -decPlaces;
      if num.e > target {
        var mul := TabulatedPow10(num.e - target);
        if mul.Some? {
          var scaled := SafeMul(num.m, mul.value);
          if scaled.Some? {
            num := Dec(scaled.value, target);
          }
        }
      } else if num.e < target {
        var diff := target - num.e;
        var m := num.m;
        for i := 0 to diff
          invariant m == DivideTimes(num.m, i)
        {
          m := TruncDiv(m, 10);
        }
        DivideTimesIsTruncation(num.m, diff);
        num := Dec(m, target);
      }
    }
  }

  function WithDecPlaces(d: Dec, decPlaces: int): Dec
  {
    var target := -decPlaces;
    if d.e > target && d.e - target <= 8 && FitsInt64(d.m * Pow10(d.e - target)) then
      Dec(d.m * Pow10(d.e - target), target)
    else if d.e < target then Dec(TruncDiv(d.m, Pow10(target - d.e)), target)
    else d
  }

  /**
   More places never change the number and take effect exactly when the scaled mantissa can be computed;
   fewer places truncate toward zero by less than one unit of the last place.
   */
  lemma WithDecPlacesMeaning(d: Dec, decPlaces: int)
    ensures var r := WithDecPlaces(d, decPlaces);
      d.e >= -decPlaces ==>
        && SameNumber(r, d)
        && (r.e == -decPlaces <==>
              d.e + decPlaces == 0 || (d.e + decPlaces <= 8 && FitsInt64(d.m * Pow10(d.e + decPlaces))))
        && (r.e != -decPlaces ==> r == d)
    ensures var r := WithDecPlaces(d, decPlaces);
      d.e < -decPlaces ==>
        && r.e == -decPlaces
        && Abs(Difference(d, r)) < Pow10(r.e - d.e)
        && (d.m >= 0 ==> 0 <= Difference(d, r)) && (d.m <= 0 ==> 0 >= Difference(d, r))
  {
  }
}
