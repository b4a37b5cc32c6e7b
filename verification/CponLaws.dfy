/** CPON satisfies the codec laws for every indent made of insignificant bytes. */
module CponLaws {
  import opened ByteStrings
  import opened RpcValues
  import opened Codecs
  import opened DecimalDigits
  import opened Decimals
  import opened CponNumbers
  import opened DecimalTexts
  import opened Chunks
  import opened Cpon

  predicate AllBlank(s: Bytes) { forall i | 0 <= i < |s| :: Blank(s[i]) }

  // ---------------------------------------------------------------- blanks

  lemma {:induction false} SkipBlanks(w: Bytes, s: Bytes)
    requires AllBlank(w)
    ensures Skip(w + s) == Skip(s)
    decreases |w|
  {
    if w == [] {
      assert w + s == s;
    } else {
      assert (w + s)[1..] == w[1..] + s;
      SkipBlanks(w[1..], s);
    }
  }

  predicate TokenByte(b: byte) { !Blank(b) && b != SLASH }

  lemma SkipNothing(t: Bytes, s: Bytes)
    requires t != [] && TokenByte(t[0])
    ensures Skip(t + s) == Significant(t + s)
    ensures t[0] != META_BEGIN ==> PeekCpon(t + s) == AtValue(t + s)
    ensures forall dateText: Lexer :: LexCpon(dateText, t + s) == LexToken(dateText, t + s)
  {
  }

  lemma {:induction false} RepeatIsBlank(s: Bytes, n: nat)
    requires AllBlank(s)
    ensures AllBlank(Repeat(s, n))
  {
    if n > 0 {
      RepeatIsBlank(s, n - 1);
    }
  }

  lemma IndentIsBlank(indent: Bytes, first: bool, lay: Layout)
    requires AllBlank(indent)
    ensures AllBlank(Indent(indent, first, lay))
  {
    RepeatIsBlank(UpToNul(indent), lay.nest);
  }

  // ---------------------------------------------------------------- numbers

  /** Digits that overflow are all consumed and leave the flag set. */
  lemma {:induction false} ScanOverflowing(st: IntScan, s: Bytes, rest: Bytes)
    requires st.base == 10 && 0 <= st.value <= INT64_MAX && st.n >= 1 && st.digits >= 1 && AllDigits(s)
    requires st.overflow || Numeral(st.value, s) > INT64_MAX
    requires rest != [] && rest[0] == CHAR_U
    ensures var r := ScanInt(st, s + rest); r.rest == rest && r.st.overflow && r.st.digits >= 1
    decreases |s|
  {
    if s == [] {
      assert s + rest == rest;
    } else {
      assert IsDigit(s[0]);
      assert (s + rest)[1..] == s[1..] + rest;
      ScanOverflowing(AddDigit(st, s[0] - ZERO), s[1..], rest);
    }
  }

  lemma ScanTooLarge(u: nat, tail: Bytes)
    requires u > INT64_MAX && tail != [] && tail[0] == CHAR_U
    ensures var r := ScanInt(StartScan(0), Digits(u) + tail); r.rest == tail && r.st.overflow && r.st.digits >= 1
  {
    var d := Digits(u);
    DigitsValue(u);
    assert IsDigit(d[0]) && (d + tail)[1..] == d[1..] + tail;
    ScanOverflowing(AddDigit(StartScan(0), d[0] - ZERO), d[1..], tail);
  }

  lemma UIntLexes(u: nat, s: Bytes)
    ensures LexNumber(Digits(u) + ([CHAR_U] + s)) == Lexed(Scalar(Kept(UInt(u))), s)
  {
    var tail := [CHAR_U] + s;
    assert tail[1..] == s;
    if u <= INT64_MAX {
      ScanDecimal(u, tail);
    } else {
      ScanTooLarge(u, tail);
    }
  }

  lemma IntLexes(i: int, s: Bytes)
    requires -TWO_63 < i < TWO_63 && EndsNumber(s)
    ensures LexNumber(ToString(i) + s) == Lexed(Scalar(Int(i)), s)
  {
    ScanSigned(i, s);
  }

  lemma NumberToken(dateText: Lexer, t: Bytes, s: Bytes)
    requires t != [] && StartsNumber(t[0])
    ensures PeekCpon(t + s) == AtValue(t + s)
    ensures LexCpon(dateText, t + s) == LexNumber(t + s)
  {
  }

  lemma DecimalTextStarts(m: int, e: int)
    ensures DecimalText(m, e) != [] && StartsNumber(DecimalText(m, e)[0])
  {
  }

  lemma NumberLaw(dateText: Lexer, b: Body, s: Bytes)
    requires (b.Int? || b.UInt? || b.Decimal?) && Accepts(b) && EndsNumber(s)
    ensures PeekCpon(LeafText(b) + s) == AtValue(LeafText(b) + s)
    ensures LexCpon(dateText, LeafText(b) + s) == Lexed(Scalar(Kept(b)), s)
  {
    var t := LeafText(b);
    match b {
      case Int(i) => IntLexes(i, s);
      case UInt(u) =>
        assert Digits(u) + [CHAR_U] + s == Digits(u) + ([CHAR_U] + s);
        UIntLexes(u, s);
      case Decimal(m, e) =>
        DecimalTextStarts(m, e);
        DecimalRoundTrip(m, e, s);
    }
    NumberToken(dateText, t, s);
  }

  // ---------------------------------------------------------------- literals and byte strings

  lemma LiteralLaw(dateText: Lexer, b: Body, s: Bytes)
    requires b.Null? || b.Bool?
    ensures PeekCpon(LeafText(b) + s) == AtValue(LeafText(b) + s)
    ensures LexCpon(dateText, LeafText(b) + s) == Lexed(Scalar(b), s)
  {
  }

  lemma QuotedToken(dateText: Lexer, a: Alphabet, data: Bytes, s: Bytes)
    requires a != CString
    ensures var r := Escape(a, data) + ([QUOTE] + s);
      && (a == CponString ==> LexToken(dateText, [QUOTE] + r) == Lexed(Scalar(String(data)), s))
      && (a == CponBlob ==> LexToken(dateText, [CHAR_B] + ([QUOTE] + r)) == Lexed(Scalar(Blob(data)), s))
  {
    var r := Escape(a, data) + ([QUOTE] + s);
    EscapeRoundTrip(a, data, s);
    assert ([QUOTE] + r)[1..] == r;
    assert ([CHAR_B] + ([QUOTE] + r))[1..] == [QUOTE] + r;
  }

  lemma QuotedLaw(dateText: Lexer, b: Body, s: Bytes)
    requires b.String? || b.Blob?
    ensures PeekCpon(LeafText(b) + s) == AtValue(LeafText(b) + s)
    ensures LexCpon(dateText, LeafText(b) + s) == Lexed(Scalar(Kept(b)), s)
  {
    var t := LeafText(b);
    SkipNothing(t, s);
    if b.String? {
      QuotedToken(dateText, CponString, b.str, s);
      StringText([QUOTE], Escape(CponString, b.str), s);
    } else {
      QuotedToken(dateText, CponBlob, CastLength(b.blob), s);
      BlobText(Escape(CponBlob, CastLength(b.blob)), s);
    }
  }

  lemma StringText(head: Bytes, x: Bytes, s: Bytes)
    ensures head + x + [QUOTE] + s == head + (x + ([QUOTE] + s))
  {
  }

  lemma BlobText(x: Bytes, s: Bytes)
    ensures [CHAR_B, QUOTE] + x + [QUOTE] + s == [CHAR_B] + ([QUOTE] + (x + ([QUOTE] + s)))
  {
  }

  // ---------------------------------------------------------------- the laws

  lemma LeavesAreLawful(indent: Bytes, dateText: Lexer, floatKey: Body -> Option<int>, b: Body, s: Bytes)
    ensures LeafLaw(CponCodec(indent, dateText, floatKey), b, s)
  {
    if Accepts(b) && EndsNumber(s) {
      if b.Null? || b.Bool? {
        LiteralLaw(dateText, b, s);
      } else if b.String? || b.Blob? {
        QuotedLaw(dateText, b, s);
      } else {
        NumberLaw(dateText, b, s);
      }
    }
  }

  lemma BeginLexes(dateText: Lexer, k: Kind, s: Bytes)
    ensures k == MetaKind ==> PeekCpon(BeginText(k) + s) == AtMeta(s)
    ensures k != MetaKind ==> PeekCpon(BeginText(k) + s) == AtValue(BeginText(k) + s)
    ensures LexCpon(dateText, BeginText(k) + s) == Lexed(Begin(k), s)
  {
  }

  lemma EndLexes(dateText: Lexer, k: Kind, w: Bytes, s: Bytes)
    requires AllBlank(w)
    ensures PeekCpon(w + [EndByte(k)] + s) == AtValue([EndByte(k)] + s)
    ensures LexCpon(dateText, [EndByte(k)] + s) == Lexed(End, s)
    ensures EndsNumber(w + [EndByte(k)] + s)
  {
    var t := [EndByte(k)] + s;
    assert w + [EndByte(k)] + s == w + t && t[1..] == s;
    SkipBlanks(w, t);
    SkipNothing([EndByte(k)], s);
    if w != [] {
      assert Blank(w[0]);
    }
  }

  lemma SeparatorIsBlank(w: Bytes, s: Bytes)
    requires AllBlank(w)
    ensures PeekCpon(w + s) == PeekCpon(s)
    ensures w != [] ==> EndsNumber(w + s)
  {
    SkipBlanks(w, s);
    if w != [] {
      assert Blank(w[0]);
    }
  }

  lemma SeparatorsAreLawful(indent: Bytes, dateText: Lexer, floatKey: Body -> Option<int>, first: bool, lay: Layout,
    s: Bytes)
    requires AllBlank(indent)
    ensures SepLaw(CponCodec(indent, dateText, floatKey), first, lay, s)
  {
    IndentIsBlank(indent, first, lay);
    SeparatorIsBlank((if first then [] else [COMMA]) + Indent(indent, first, lay), s);
    SeparatorIsBlank([COLON], s);
  }

  lemma KeysAreLawful(indent: Bytes, dateText: Lexer, floatKey: Body -> Option<int>)
    ensures KeyLaw(CponCodec(indent, dateText, floatKey))
  {
  }

  /** Every indent of insignificant bytes, every date-time reader, every float conversion. */
  lemma CponIsLawful(indent: Bytes, dateText: Lexer, floatKey: Body -> Option<int>)
    requires AllBlank(indent)
    ensures Lawful(CponCodec(indent, dateText, floatKey))
  {
    var c := CponCodec(indent, dateText, floatKey);
    KeysAreLawful(indent, dateText, floatKey);
    forall b: Body, s: Bytes ensures LeafLaw(c, b, s) {
      LeavesAreLawful(indent, dateText, floatKey, b, s);
    }
    forall k: Kind, s: Bytes ensures BeginLaw(c, k, s) {
      BeginLexes(dateText, k, s);
    }
    forall k: Kind, lay: Layout, s: Bytes ensures EndLaw(c, k, lay, s) {
      IndentIsBlank(indent, true, lay);
      EndLexes(dateText, k, Indent(indent, true, lay), s);
    }
    forall first: bool, lay: Layout, s: Bytes ensures SepLaw(c, first, lay, s) {
      SeparatorsAreLawful(indent, dateText, floatKey, first, lay, s);
    }
  }
}
