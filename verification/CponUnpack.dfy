/** The C functions of CPON: the item reader with its number parser, and the packers. */
module CponUnpackers {
  import opened ByteStrings
  import opened RpcValues
  import opened Codecs
  import opened DecimalDigits
  import opened Decimals
  import opened CponNumbers
  import opened DecimalTexts
  import opened DecimalPrinting
  import opened Chunks
  import opened Cpon
  import opened PackContexts

  // ---------------------------------------------------------------- reading

  /** The number case of `ccpon_unpack_next`: flags and counters set on the way, the item built at the end. */
  method UnpackNumber(s: Bytes) returns (r: Lexed)
    requires s != []
    ensures r == LexNumber(s)
  {
    var isDecimal, isUInt, exponent, places := false, false, 0, 0;
    var result := UnpackIntToResult(0, s);
    if result.st.digits == 0 {
      return LexError;
    }
    var mantissa, isOverflow, isNeg, rest := result.st.value, result.st.overflow, result.st.neg, result.rest;
    if rest != [] && rest[0] == CHAR_U {
      isUInt, rest := true, rest[1..];
    } else {
      var dot := rest != [] && rest[0] == DOT;
      if dot {
        isDecimal := true;
        result := UnpackIntToResult(mantissa, rest[1..]);
        isOverflow := isOverflow || result.st.overflow;
        mantissa, places, rest := result.st.value, result.st.digits, result.rest;
      }
      if rest != [] && (rest[0] == CHAR_E || rest[0] == 69) {
        isDecimal := true;
        result := UnpackIntToResult(0, rest[1..]);
        isOverflow := isOverflow || result.st.overflow;
        exponent, rest := Signed(result.st.neg, result.st.value), result.rest;
        if result.st.digits == 0 {
          return LexError;
        }
      } else if dot && rest != [] && rest[0] == DOT {
        rest := rest[1..];
      }
    }
    if isDecimal {
      r := Lexed(Scalar(FinishDecimal(isNeg, isOverflow, mantissa, places, exponent)), rest);
    } else if isUInt {
      r := Lexed(Scalar(UInt(if isOverflow then INT64_MAX else mantissa)), rest);
    } else {
      var saturated := if isNeg then -TWO_63 else INT64_MAX;
      r := Lexed(Scalar(Int(if isOverflow then saturated else Signed(isNeg, mantissa))), rest);
    }
  }

  /** A quoted string or blob behind its opening quote, read chunk by chunk. */
  method UnpackQuoted(a: Alphabet, s: Bytes, chunkLen: nat) returns (r: Lexed)
    requires a != CString && chunkLen >= 1
    ensures r == BytesItem(a, Unescape(a, s))
  {
    var item := new StringItem(chunkLen, s, 0);
    var data := item.ReadEscaped(a);
    r := if data.None? then LexError else BytesItem(a, Text(data.value, item.rest));
  }

  /** The letters of a literal, one after the other. */
  method UnpackLiteral(word: Bytes, body: Body, s: Bytes) returns (r: Lexed)
    requires word != []
    ensures r == Literal(word, body, s)
  {
    for i := 0 to |word|
      invariant i <= |s| && word[..i] == s[..i]
    {
      if i == |s| || s[i] != word[i] {
        assert !(word <= s);
        return LexError;
      }
    }
    assert word == word[..|word|] == s[..|word|];
    r := Lexed(Scalar(body), s[|word|..]);
  }

  /** A letter and the byte that must follow it. */
  method UnpackPrefixed(dateText: Lexer, b: byte, s: Bytes, chunkLen: nat) returns (r: Lexed)
    requires chunkLen >= 1 && b in {CHAR_I, CHAR_A, CHAR_D, CHAR_X, CHAR_B}
    ensures r == LexPrefixed(dateText, b, s)
  {
    if s == [] {
      return LexError;
    }
    var mark, rest := s[0], s[1..];
    if b == CHAR_I {
      r := if mark != MAP_BEGIN then LexError else Lexed(Begin(IMapKind), rest);
    } else if b == CHAR_A {
      r := if mark != LIST_BEGIN then LexError else Lexed(Begin(ListKind), rest);
    } else if mark != QUOTE {
      r := LexError;
    } else if b == CHAR_D {
      r := dateText(rest);
    } else if b == CHAR_X {
      r := UnpackQuoted(CponHex, rest, chunkLen);
    } else {
      r := UnpackQuoted(CponBlob, rest, chunkLen);
    }
  }

  /** The cases of the first significant byte. */
  method UnpackToken(dateText: Lexer, s: Bytes, chunkLen: nat) returns (r: Lexed)
    requires chunkLen >= 1 && s != []
    ensures r == LexToken(dateText, s)
  {
    var b, rest := s[0], s[1..];
    if b == LIST_END || b == MAP_END || b == META_END {
      r := Lexed(End, rest);
    } else if b == META_BEGIN {
      r := Lexed(Begin(MetaKind), rest);
    } else if b == MAP_BEGIN {
      r := Lexed(Begin(MapKind), rest);
    } else if b == LIST_BEGIN {
      r := Lexed(Begin(ListKind), rest);
    } else if b in {CHAR_I, CHAR_A, CHAR_D, CHAR_X, CHAR_B} {
      r := UnpackPrefixed(dateText, b, rest, chunkLen);
    } else if b == CHAR_N {
      r := UnpackLiteral(NULL_TEXT, Null, s);
    } else if b == CHAR_F {
      r := UnpackLiteral(FALSE_TEXT, Bool(false), s);
    } else if b == CHAR_T {
      r := UnpackLiteral(TRUE_TEXT, Bool(true), s);
    } else if b == QUOTE {
      r := UnpackQuoted(CponString, rest, chunkLen);
    } else if StartsNumber(b) {
      r := UnpackNumber(s);
    } else {
      r := LexError;
    }
  }

  /** `ccpon_unpack_next` and the chunk loop of its caller, for any chunk buffer length. */
  method UnpackNext(dateText: Lexer, s: Bytes, chunkLen: nat) returns (r: Lexed)
    requires chunkLen >= 1
    ensures r == LexCpon(dateText, s)
  {
    var skipped := SkipInsignificant(s);
    if skipped.Exhausted? {
      return LexError;
    }
    if skipped.Stray? {
      return Lexed(Nothing, skipped.rest[1..]);
    }
    r := UnpackToken(dateText, skipped.rest, chunkLen);
  }

  // ---------------------------------------------------------------- writing

  method CopyAll(ctx: PackContext, s: Bytes)
    requires ctx.Valid()
    modifies ctx, ctx.data
    ensures ctx.Valid() && ctx.log == old(ctx.log) + s
  {
    for i := 0 to |s|
      invariant ctx.Valid() && ctx.log == old(ctx.log) + s[..i]
    {
      var n := ctx.CopyByte(s[i]);
      assert s[..i + 1] == s[..i] + [s[i]];
    }
    assert s[..|s|] == s;
  }

  lemma {:induction false} EscapeAppend(a: Alphabet, s: Bytes, b: byte)
    ensures Escape(a, s + [b]) == Escape(a, s) + EscapeByte(a, b)
  {
    if s == [] {
      assert [b][1..] == [] && s + [b] == [b];
    } else {
      assert (s + [b])[1..] == s[1..] + [b];
      EscapeAppend(a, s[1..], b);
    }
  }

  lemma EscapeStep(a: Alphabet, data: Bytes, i: nat, log: Bytes)
    requires i < |data|
    ensures log + Escape(a, data[..i]) + EscapeByte(a, data[i]) == log + Escape(a, data[..i + 1])
  {
    assert data[..i + 1] == data[..i] + [data[i]];
    EscapeAppend(a, data[..i], data[i]);
  }

  /** `copy_data_escaped` and `copy_blob_escaped`. */
  method CopyEscaped(ctx: PackContext, a: Alphabet, data: Bytes)
    requires ctx.Valid()
    modifies ctx, ctx.data
    ensures ctx.Valid() && ctx.log == old(ctx.log) + Escape(a, data)
  {
    for i := 0 to |data|
      invariant ctx.Valid() && ctx.log == old(ctx.log) + Escape(a, data[..i])
    {
      EscapeStep(a, data, i, old(ctx.log));
      CopyAll(ctx, EscapeByte(a, data[i]));
    }
    assert data[..|data|] == data;
  }

  method PackString(ctx: PackContext, data: Bytes)
    requires ctx.Valid()
    modifies ctx, ctx.data
    ensures ctx.Valid() && ctx.log == old(ctx.log) + LeafText(String(data))
  {
    var n := ctx.CopyByte(QUOTE);
    CopyEscaped(ctx, CponString, data);
    n := ctx.CopyByte(QUOTE);
    ThreeParts(old(ctx.log), [QUOTE], Escape(CponString, data), [QUOTE]);
  }

  lemma ThreeParts(s: Bytes, a: Bytes, b: Bytes, c: Bytes)
    ensures s + a + b + c == s + (a + b + c)
  {
  }

  /** The length passed on is the low 32 bits of the blob's length. */
  method PackBlob(ctx: PackContext, data: Bytes)
    requires ctx.Valid()
    modifies ctx, ctx.data
    ensures ctx.Valid() && ctx.log == old(ctx.log) + LeafText(Blob(data))
  {
    CopyAll(ctx, [CHAR_B, QUOTE]);
    var len := |data| % TWO_32;
    CopyEscaped(ctx, CponBlob, data[..len]);
    var n := ctx.CopyByte(QUOTE);
    ThreeParts(old(ctx.log), [CHAR_B, QUOTE], Escape(CponBlob, CastLength(data)), [QUOTE]);
  }

  method PackDecimal(ctx: PackContext, m: int, e: int)
    requires ctx.Valid() && Accepts(Decimal(m, e))
    modifies ctx, ctx.data
    ensures ctx.Valid() && ctx.log == old(ctx.log) + LeafText(Decimal(m, e))
  {
    var buff := new byte[64];
    var n := DecimalToString(buff, m, e);
    n := ctx.CopyBytes(buff[..n]);
  }

  method PackInt(ctx: PackContext, i: int)
    requires ctx.Valid() && Accepts(Int(i))
    modifies ctx, ctx.data
    ensures ctx.Valid() && ctx.log == old(ctx.log) + LeafText(Int(i))
  {
    PrintedLengths();
    DigitsLength(Abs(i), 19);
    var str := new byte[32];
    var n := IntToStr(str, 0, 32, i);
    assert str[0..0 + n] == str[..n];
    n := ctx.CopyBytes(str[..n]);
  }

  lemma RepeatAppend(s: Bytes, n: nat)
    ensures Repeat(s, n + 1) == Repeat(s, n) + s
  {
    if n == 0 {
      assert s + [] == s && [] + s == s;
    } else {
      RepeatAppend(s, n - 1);
      assert s + (Repeat(s, n - 1) + s) == (s + Repeat(s, n - 1)) + s;
    }
  }

  method IndentElement(ctx: PackContext, indent: Bytes, first: bool, lay: Layout)
    requires ctx.Valid()
    modifies ctx, ctx.data
    ensures ctx.Valid() && ctx.log == old(ctx.log) + Indent(indent, first, lay)
  {
    var n: nat;
    if indent != [] {
      if lay.oneLine {
        if !first {
          n := ctx.CopyByte(SPACE);
        }
      } else {
        NewLine(ctx, UpToNul(indent), lay.nest);
      }
    } else {
      assert ctx.log + [] == ctx.log;
    }
  }

  /** A new line and the indent as often as the nesting. */
  method NewLine(ctx: PackContext, unit: Bytes, nest: nat)
    requires ctx.Valid()
    modifies ctx, ctx.data
    ensures ctx.Valid() && ctx.log == old(ctx.log) + ([NEW_LINE] + Repeat(unit, nest))
  {
    var n := ctx.CopyBytes([NEW_LINE]);
    ghost var start := old(ctx.log) + [NEW_LINE];
    assert start + Repeat(unit, 0) == start;
    for i := 0 to nest
      invariant ctx.Valid() && ctx.log == start + Repeat(unit, i)
    {
      RepeatAppend(unit, i);
      Append3(start, Repeat(unit, i), unit, []);
      n := ctx.CopyBytes(unit);
    }
    Append3(old(ctx.log), [NEW_LINE], Repeat(unit, nest), []);
  }

  method PackUInt(ctx: PackContext, u: nat)
    requires ctx.Valid() && Accepts(UInt(u))
    modifies ctx, ctx.data
    ensures ctx.Valid() && ctx.log == old(ctx.log) + LeafText(UInt(u))
  {
    PrintedLengths();
    DigitsLength(u, 20);
    var str := new byte[32];
    var n := IntToStr(str, 0, 32, u);
    assert str[0..0 + n] == str[..n];
    Append3(ctx.log, Digits(u), [CHAR_U], []);
    n := ctx.CopyBytes(str[..n]);
    n := ctx.CopyByte(CHAR_U);
  }

  /** The packer that goes with a leaf; a leaf that has no text is left out. */
  method PackScalar(ctx: PackContext, b: Body)
    requires ctx.Valid()
    modifies ctx, ctx.data
    ensures ctx.Valid() && ctx.log == old(ctx.log) + Leaf(b)
  {
    if !Accepts(b) {
      assert ctx.log + [] == ctx.log;
      return;
    }
    match b {
      case Null => CopyAll(ctx, NULL_TEXT);
      case Bool(x) => CopyAll(ctx, if x then TRUE_TEXT else FALSE_TEXT);
      case Int(i) => PackInt(ctx, i);
      case UInt(u) => PackUInt(ctx, u);
      case Decimal(m, e) => PackDecimal(ctx, m, e);
      case String(s) => PackString(ctx, s);
      case Blob(s) => PackBlob(ctx, s);
    }
  }

  /** The comma between elements, and the place of the next one. */
  method PackFieldDelim(ctx: PackContext, indent: Bytes, first: bool, lay: Layout)
    requires ctx.Valid()
    modifies ctx, ctx.data
    ensures ctx.Valid() && ctx.log == old(ctx.log) + ((if first then [] else [COMMA]) + Indent(indent, first, lay))
  {
    Append3(ctx.log, if first then [] else [COMMA], Indent(indent, first, lay), []);
    if !first {
      var n := ctx.CopyBytes([COMMA]);
    }
    IndentElement(ctx, indent, first, lay);
  }

  method PackContainerEnd(ctx: PackContext, indent: Bytes, kind: Kind, lay: Layout)
    requires ctx.Valid()
    modifies ctx, ctx.data
    ensures ctx.Valid() && ctx.log == old(ctx.log) + (Indent(indent, true, lay) + [EndByte(kind)])
  {
    Append3(ctx.log, Indent(indent, true, lay), [EndByte(kind)], []);
    IndentElement(ctx, indent, true, lay);
    var n := ctx.CopyByte(EndByte(kind));
  }
}
