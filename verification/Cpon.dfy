/** The CPON text format as a codec (libshvchainpack/c/ccpon.c). */
module Cpon {
  import opened ByteStrings
  import opened RpcValues
  import opened Codecs
  import opened DecimalDigits
  import opened Decimals
  import opened CponNumbers
  import opened DecimalTexts
  import opened Chunks

  const COMMA: byte := 44
  const COLON: byte := 58
  const SLASH: byte := 47
  const STAR: byte := 42
  const NEW_LINE: byte := 10
  const SPACE: byte := 32
  const LIST_BEGIN: byte := 91
  const LIST_END: byte := 93
  const MAP_BEGIN: byte := 123
  const MAP_END: byte := 125
  const META_BEGIN: byte := 60
  const META_END: byte := 62
  const CHAR_A: byte := 97
  const CHAR_B: byte := 98
  const CHAR_D: byte := 100
  const CHAR_F: byte := 102
  const CHAR_I: byte := 105
  const CHAR_N: byte := 110
  const CHAR_T: byte := 116

  const NULL_TEXT: Bytes := [110, 117, 108, 108]
  const TRUE_TEXT: Bytes := [116, 114, 117, 101]
  const FALSE_TEXT: Bytes := [102, 97, 108, 115, 101]

  // ---------------------------------------------------------------- insignificant input

  /** Control bytes, space, bytes above ASCII and both delimiters are skipped between items. */
  predicate Blank(b: byte) { b <= SPACE || b >= 128 || b == COLON || b == COMMA }

  /** Input behind a block comment; a star always takes the next byte with it. */
  function AfterBlock(s: Bytes): (r: Option<Bytes>)
    ensures r.Some? ==> |r.value| < |s|
    decreases |s|
  {
    if s == [] then None
    else if s[0] != STAR then AfterBlock(s[1..])
    else if |s| < 2 then None
    else if s[1] == SLASH then Some(s[2..])
    else AfterBlock(s[2..])
  }

  function AfterLine(s: Bytes): (r: Option<Bytes>)
    ensures r.Some? ==> |r.value| < |s|
    decreases |s|
  {
    if s == [] then None else if s[0] == NEW_LINE then Some(s[1..]) else AfterLine(s[1..])
  }

  /** `Stray`: a slash that opens no comment; `rest` is the input behind it. */
  datatype Skipped = Exhausted | Stray(rest: Bytes) | Significant(rest: Bytes)

  function Skip(s: Bytes): (r: Skipped)
    ensures !r.Exhausted? ==> r.rest != [] && |r.rest| <= |s|
    decreases |s|
  {
    if s == [] then Exhausted
    else if Blank(s[0]) then Skip(s[1..])
    else if s[0] != SLASH then Significant(s)
    else if |s| < 2 then Exhausted
    else if s[1] == STAR || s[1] == SLASH then
      var r := if s[1] == STAR then AfterBlock(s[2..]) else AfterLine(s[2..]);
      if r.None? then Exhausted else Skip(r.value)
    else Stray(s[1..])
  }

  /** The loops of `ccpon_unpack_skip_insignificant`. */
  method SkipInsignificant(s: Bytes) returns (r: Skipped)
    ensures r == Skip(s)
  {
    var rest := s;
    while rest != []
      invariant Skip(rest) == Skip(s)
      decreases |rest|
    {
      if Blank(rest[0]) {
        rest := rest[1..];
      } else if rest[0] != SLASH {
        return Significant(rest);
      } else if |rest| < 2 {
        return Exhausted;
      } else if rest[1] == STAR || rest[1] == SLASH {
        var next := SkipComment(rest[2..], rest[1] == STAR);
        if next.None? {
          return Exhausted;
        }
        rest := next.value;
      } else {
        return Stray(rest[1..]);
      }
    }
    r := Exhausted;
  }

  method SkipComment(s: Bytes, block: bool) returns (r: Option<Bytes>)
    ensures r == if block then AfterBlock(s) else AfterLine(s)
  {
    var rest := s;
    while rest != []
      invariant if block then AfterBlock(rest) == AfterBlock(s) else AfterLine(rest) == AfterLine(s)
      decreases |rest|
    {
      var b := rest[0];
      if block && b == STAR {
        if |rest| < 2 {
          return None;
        }
        var slash := rest[1] == SLASH;
        rest := rest[2..];
        if slash {
          return Some(rest);
        }
      } else {
        rest := rest[1..];
        if !block && b == NEW_LINE {
          return Some(rest);
        }
      }
    }
    r := None;
  }

  // ---------------------------------------------------------------- items

  function Literal(word: Bytes, body: Body, s: Bytes): (r: Lexed)
    requires word != []
    ensures r.Lexed? ==> |r.rest| < |s|
  {
    if word <= s then Lexed(Scalar(body), s[|word|..]) else LexError
  }

  /** Behind a one-letter prefix: the byte that must follow, and the input after it. */
  function Expect(mark: byte, s: Bytes): (r: Option<Bytes>)
    ensures r.Some? ==> |r.value| < |s|
  {
    if s != [] && s[0] == mark then Some(s[1..]) else None
  }

  function BytesItem(a: Alphabet, t: Text): Lexed
  {
    if t.Broken? then LexError
    else Lexed(Scalar(if a == CponString then String(t.data) else Blob(t.data)), t.rest)
  }

  predicate StartsNumber(b: byte) { IsDigit(b) || b == PLUS || b == MINUS }

  predicate Closes(b: byte) { b == LIST_END || b == MAP_END || b == META_END }

  /** A prefixed token: imap, array read as list, date-time, blob. */
  function LexPrefixed(dateText: Lexer, b: byte, s: Bytes): (r: Lexed)
    ensures r.Lexed? ==> |r.rest| < |s|
  {
    var mark := if b == CHAR_I then MAP_BEGIN else if b == CHAR_A then LIST_BEGIN else QUOTE;
    var t := Expect(mark, s);
    if t.None? then LexError
    else if b == CHAR_I then Lexed(Begin(IMapKind), t.value)
    else if b == CHAR_A then Lexed(Begin(ListKind), t.value)
    else if b == CHAR_D then dateText(t.value)
    else if b == CHAR_X then BytesItem(CponHex, Unescape(CponHex, t.value))
    else BytesItem(CponBlob, Unescape(CponBlob, t.value))
  }

  /** `ccpon_unpack_next` from the first significant byte on; `dateText` reads a date-time behind its opening quote. */
  function LexToken(dateText: Lexer, s: Bytes): (r: Lexed)
    requires s != []
    ensures r.Lexed? ==> |r.rest| < |s|
  {
    var b := s[0];
    if Closes(b) then Lexed(End, s[1..])
    else if b == META_BEGIN then Lexed(Begin(MetaKind), s[1..])
    else if b == MAP_BEGIN then Lexed(Begin(MapKind), s[1..])
    else if b == LIST_BEGIN then Lexed(Begin(ListKind), s[1..])
    else if b in {CHAR_I, CHAR_A, CHAR_D, CHAR_X, CHAR_B} then LexPrefixed(dateText, b, s[1..])
    else if b == CHAR_N then Literal(NULL_TEXT, Null, s)
    else if b == CHAR_F then Literal(FALSE_TEXT, Bool(false), s)
    else if b == CHAR_T then Literal(TRUE_TEXT, Bool(true), s)
    else if b == QUOTE then BytesItem(CponString, Unescape(CponString, s[1..]))
    else if StartsNumber(b) then LexNumber(s)
    else LexError
  }

  function LexCpon(dateText: Lexer, s: Bytes): (r: Lexed)
    ensures r.Lexed? ==> |r.rest| < |s|
  {
    match Skip(s)
    case Exhausted => LexError
    case Stray(t) => Lexed(Nothing, t[1..])
    case Significant(t) => LexToken(dateText, t)
  }

  /** Look-ahead for metadata; the byte that stopped the skipping is put back. */
  function PeekCpon(s: Bytes): (r: Peek)
    ensures (r.AtMeta? ==> |r.rest| < |s|) && (r.AtValue? ==> |r.rest| <= |s|)
  {
    match Skip(s)
    case Exhausted => PeekError
    case Stray(t) => AtValue(t)
    case Significant(t) => if t[0] == META_BEGIN then AtMeta(t[1..]) else AtValue(t)
  }

  // ---------------------------------------------------------------- writing

  predicate Accepts(b: Body)
  {
    match b
    case Null => true
    case Bool(_) => true
    case Int(i) => -TWO_63 < i < TWO_63
    case UInt(u) => 0 <= u < TWO_64
    case Decimal(m, e) => -TWO_63 < m < TWO_63 && -TWO_31 < e < TWO_31
    case String(_) => true
    case Blob(_) => true
    case _ => false
  }

  /** `ccpon_pack_blob` casts the length to 32 bits. */
  function CastLength(data: Bytes): (r: Bytes)
    ensures r <= data && (r == data <==> |data| < TWO_32)
  {
    data[..|data| % TWO_32]
  }

  function LeafText(b: Body): (s: Bytes)
    requires Accepts(b)
  {
    match b
    case Null => NULL_TEXT
    case Bool(x) => if x then TRUE_TEXT else FALSE_TEXT
    case Int(i) => ToString(i)
    case UInt(u) => Digits(u) + [CHAR_U]
    case Decimal(m, e) => DecimalText(m, e)
    case String(x) => [QUOTE] + Escape(CponString, x) + [QUOTE]
    case Blob(x) => [CHAR_B, QUOTE] + Escape(CponBlob, CastLength(x)) + [QUOTE]
  }

  function Leaf(b: Body): Bytes { if Accepts(b) then LeafText(b) else [] }

  /** What a written leaf reads back as: unsigned numbers saturate at INT64_MAX, blobs lose what the cast drops. */
  function Kept(b: Body): Body
  {
    match b
    case UInt(u) => UInt(if u <= INT64_MAX then u else INT64_MAX)
    case Decimal(m, e) => KeptDecimal(m, e)
    case Blob(x) => Blob(CastLength(x))
    case _ => b
  }

  function BeginText(k: Kind): Bytes
  {
    match k
    case ListKind => [LIST_BEGIN]
    case MapKind => [MAP_BEGIN]
    case IMapKind => [CHAR_I, MAP_BEGIN]
    case MetaKind => [META_BEGIN]
  }

  function EndByte(k: Kind): byte
  {
    match k
    case ListKind => LIST_END
    case MapKind => MAP_END
    case IMapKind => MAP_END
    case MetaKind => META_END
  }

  function Repeat(s: Bytes, n: nat): Bytes { if n == 0 then [] else s + Repeat(s, n - 1) }

  /** `indent_element`; without an indent string everything stays on one line. */
  function Indent(indent: Bytes, first: bool, lay: Layout): Bytes
  {
    if indent == [] then []
    else if lay.oneLine then (if first then [] else [SPACE])
    else [NEW_LINE] + Repeat(UpToNul(indent), lay.nest)
  }

  function CponCodec(indent: Bytes, dateText: Lexer, floatKey: Body -> Option<int>): Codec
  {
    Codec(
      s => LexCpon(dateText, s), PeekCpon, Leaf,
      BeginText,
      (k, lay) => Indent(indent, true, lay) + [EndByte(k)],
      (first, lay) => (if first then [] else [COMMA]) + Indent(indent, first, lay),
      [COLON],
      Accepts, Kept, EndsNumber, floatKey)
  }
}
