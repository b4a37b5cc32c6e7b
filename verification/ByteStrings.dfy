/** Bytes, byte strings and the little integer arithmetic that the codecs share. */
module ByteStrings {

  type byte = x: int | 0 <= x < 0x100

  type Bytes = seq<byte>

  datatype Option<+T> = None | Some(value: T)

  /** A buffer seen as a C string. */
  function UpToNul(s: Bytes): (r: Bytes)
    ensures r <= s && 0 !in r && (r == s || s[|r|] == 0)
  {
    if s == [] || s[0] == 0 then [] else [s[0]] + UpToNul(s[1..])
  }

  const INT64_MAX := 0x7fff_ffff_ffff_ffff
  const UINT64_MAX := 0xffff_ffff_ffff_ffff
  const TWO_63 := 0x8000_0000_0000_0000
  const TWO_64 := 0x1_0000_0000_0000_0000
  const TWO_32 := 0x1_0000_0000
  const TWO_31 := 0x8000_0000

  function Pow2(k: nat): (p: nat)
    ensures p >= 1
  {
    if k == 0 then 1 else 2 * Pow2(k - 1)
  }

  /** C's narrowing to a signed field of `2^width = span` values. */
  function Wrap(n: int, span: nat): (r: int)
    requires span > 0 && span % 2 == 0
    ensures -(span / 2) <= r < span / 2
    ensures (r - n) % span == 0
    ensures -(span / 2) <= n < span / 2 ==> r == n
  {
    var m := n % span;
    var r := if m < span / 2 then m else m - span;
    assert (r - n) % span == 0 by {
      var q := n / span;
      assert n == q * span + m;
      var k := if m < span / 2 then -q else -q - 1;
      assert r - n == k * span;
      MultipleMod(k, span);
    }
    assert -(span / 2) <= n < span / 2 ==> r == n by {
      if 0 <= n < span / 2 {
        SmallMod(n, span);
      } else if -(span / 2) <= n < 0 {
        assert n == (-1) * span + (n + span);
        DivModUnique(n, span, -1, n + span);
      }
    }
    r
  }

  lemma OnlyZeroMultiple(k: int, d: int)
    requires d > 0 && -d < k * d < d
    ensures k == 0
  {
  }

  lemma MulMonotone(a: int, b: int, d: int)
    requires a <= b && d >= 0
    ensures a * d <= b * d
  {
  }

  lemma MulDistributes(a: int, b: int, d: int)
    ensures (a + b) * d == a * d + b * d
    ensures (a - b) * d == a * d - b * d
  {
  }

  lemma DivModUnique(n: int, d: int, q: int, r: int)
    requires d > 0 && 0 <= r < d && n == q * d + r
    ensures n / d == q && n % d == r
  {
    var q', r' := n / d, n % d;
    assert n == q' * d + r' && 0 <= r' < d;
    MulDistributes(q, q', d);
    OnlyZeroMultiple(q - q', d);
  }

  lemma DivModIdentity(n: nat, d: nat)
    requires d > 0
    ensures n / d >= 0 && n == n / d * d + n % d
  {
  }

  lemma QuotientBound(n: nat, d: nat, b: int)
    requires d > 0 && n < b * d
    ensures n / d < b
  {
  }

  function Abs(n: int): nat { if n < 0 then -n else n }

  /** C division by a positive number. */
  function TruncDiv(a: int, b: int): (q: int)
    requires b > 0
    ensures Abs(a - q * b) < b && (a >= 0 ==> q * b <= a) && (a <= 0 ==> q * b >= a)
  {
    DivModIdentity(Abs(a), b);
    if a >= 0 then a / b else -(-a / b)
  }

  lemma SmallMod(n: int, d: int)
    requires 0 <= n < d
    ensures n % d == n && n / d == 0
  {
  }

  lemma MultipleMod(k: int, d: int)
    requires d > 0
    ensures (k * d) % d == 0
  {
    DivModUnique(k * d, d, k, 0);
  }

  lemma Append3(s: Bytes, a: Bytes, b: Bytes, c: Bytes)
    ensures s + a + b == s + (a + b)
    ensures s + a + b + c == s + (a + b + c)
  {
  }

  lemma Regroup(a: Bytes, b: Bytes, c: Bytes, d: Bytes)
    ensures a + b + c + d == a + (b + (c + d))
  {
  }

  lemma MulAssociates(a: int, b: int, c: int)
    ensures a * (b * c) == (a * b) * c
  {
  }

  /** Two-digit number `q * d + r` with leading digit below `b` and `r` below `d`. */
  lemma TwoDigitBound(q: int, r: int, b: int, d: int)
    requires 0 <= q < b && 0 <= r < d
    ensures 0 <= q * d + r < b * d
  {
    MulMonotone(q, b - 1, d);
    MulDistributes(b, 1, d);
  }

  lemma DivDiv(n: nat, a: nat, b: nat)
    requires a > 0 && b > 0
    ensures a * b > 0 && (n / a) / b == n / (a * b)
  {
    var q1, r1 := n / a, n % a;
    var q2, r2 := q1 / b, q1 % b;
    assert n == q1 * a + r1 && q1 == q2 * b + r2;
    MulDistributes(q2 * b, r2, a);
    MulAssociates(q2, b, a);
    TwoDigitBound(r2, r1, b, a);
    DivModUnique(n, b * a, q2, r2 * a + r1);
    assert a * b == b * a;
  }

  /** Lexicographic order of unsigned bytes, the order of std::string keys in a std::map. */
  predicate Less(a: Bytes, b: Bytes)
  {
    if b == [] then false
    else if a == [] then true
    else a[0] < b[0] || (a[0] == b[0] && Less(a[1..], b[1..]))
  }

  lemma {:induction false} LessIsAsymmetric(a: Bytes, b: Bytes)
    requires Less(a, b)
    ensures !Less(b, a) && a != b
  {
    if a != [] && a[0] == b[0] {
      LessIsAsymmetric(a[1..], b[1..]);
    }
  }

  lemma {:induction false} LessIsTotal(a: Bytes, b: Bytes)
    ensures a == b || Less(a, b) || Less(b, a)
  {
    if a != [] && b != [] && a[0] == b[0] {
      LessIsTotal(a[1..], b[1..]);
      assert a == [a[0]] + a[1..] && b == [b[0]] + b[1..];
    }
  }

  lemma {:induction false} LessIsTransitive(a: Bytes, b: Bytes, c: Bytes)
    requires Less(a, b) && Less(b, c)
    ensures Less(a, c)
  {
    if a != [] && a[0] == b[0] == c[0] {
      LessIsTransitive(a[1..], b[1..], c[1..]);
    }
  }
}
