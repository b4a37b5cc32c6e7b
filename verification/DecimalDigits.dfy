/** Decimal digits of integers as ASCII bytes. */
module DecimalDigits {
  import opened ByteStrings

  const MINUS: byte := 45
  const ZERO: byte := 48

  predicate IsDigit(b: byte) { 48 <= b <= 57 }

  /** Digits of `n`, most significant first, without leading zeros. */
  function Digits(n: nat): (s: Bytes)
    ensures |s| >= 1 && forall i | 0 <= i < |s| :: IsDigit(s[i])
  {
    if n < 10 then [ZERO + n] else Digits(n / 10) + [ZERO + n % 10]
  }

  /** The number obtained by appending the digits of `s` to `acc`. */
  function Numeral(acc: nat, s: Bytes): nat
    requires forall i | 0 <= i < |s| :: IsDigit(s[i])
    decreases |s|
  {
    if s == [] then acc
    else
      assert IsDigit(s[0]);
      Numeral(10 * acc + (s[0] - ZERO), s[1..])
  }

  lemma {:induction false} NumeralConcat(acc: nat, s: Bytes, t: Bytes)
    requires forall i | 0 <= i < |s| :: IsDigit(s[i])
    requires forall i | 0 <= i < |t| :: IsDigit(t[i])
    ensures Numeral(acc, s + t) == Numeral(Numeral(acc, s), t)
    decreases |s|
  {
    if s == [] {
      assert s + t == t;
    } else {
      assert (s + t)[1..] == s[1..] + t;
      NumeralConcat(10 * acc + (s[0] - ZERO), s[1..], t);
    }
  }

  lemma {:induction false} DigitsValue(n: nat)
    ensures Numeral(0, Digits(n)) == n
  {
    if n >= 10 {
      DigitsValue(n / 10);
      NumeralConcat(0, Digits(n / 10), [ZERO + n % 10]);
      assert [ZERO + n % 10][1..] == [];
    } else {
      assert [ZERO + n][1..] == [];
    }
  }

  /** std::to_string */
  function ToString(i: int): Bytes
  {
    if i < 0 then [MINUS] + Digits(-i) else Digits(i)
  }

  lemma ToStringIsInjective(i: int, j: int)
    requires ToString(i) == ToString(j)
    ensures i == j
  {
    DigitsValue(if i < 0 then -i else i);
    DigitsValue(if j < 0 then -j else j);
    if i < 0 && j < 0 {
      assert Digits(-i) == ToString(i)[1..] && Digits(-j) == ToString(j)[1..];
    }
  }
}
