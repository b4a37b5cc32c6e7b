/** The ChainPack binary format as a codec (libshvchainpack/c/cchainpack.c). */
module ChainPack {
  import opened ByteStrings
  import opened IntCode
  import opened RpcValues
  import opened Codecs
  import Chunks
  import DateTimeCode

  const CP_NULL: byte := 128
  const CP_UINT: byte := 129
  const CP_INT: byte := 130
  const CP_DOUBLE: byte := 131
  const CP_BLOB: byte := 133
  const CP_STRING: byte := 134
  const CP_LIST: byte := 136
  const CP_MAP: byte := 137
  const CP_IMAP: byte := 138
  const CP_META_MAP: byte := 139
  const CP_DECIMAL: byte := 140
  const CP_DATE_TIME: byte := 141
  const CP_CSTRING: byte := 142
  const CP_FALSE: byte := 253
  const CP_TRUE: byte := 254
  const CP_TERM: byte := 255

  // ---------------------------------------------------------------- writing

  /** Leaves that can be packed: numbers in their C ranges except INT64_MIN, date-times as RpcDateTime holds them. */
  predicate Accepts(b: Body)
  {
    match b
    case Null => true
    case Bool(_) => true
    case Int(i) => -TWO_63 < i < TWO_63
    case UInt(u) => 0 <= u < TWO_64
    case Double(bits) => |bits| == 8
    case Decimal(m, e) => -TWO_63 < m < TWO_63 && -TWO_31 <= e < TWO_31
    case DateTime(ms, min) =>
      && -0x100_0000_0000_0000 <= ms < 0x100_0000_0000_0000
      && min % 15 == 0 && -64 * 15 <= min <= 63 * 15
      && DateTimeCode.Representable(ms, min)
    case String(s) => |s| < TWO_63
    case Blob(s) => |s| < TWO_63
    case _ => false
  }

  function PackLeaf(b: Body): (s: Bytes)
    requires Accepts(b)
    ensures |s| >= 1 && s[0] != CP_META_MAP && s[0] != CP_TERM
  {
    match b
    case Null => [CP_NULL]
    case Bool(x) => [if x then CP_TRUE else CP_FALSE]
    case Int(i) => if 0 <= i < 64 then [i + 64] else [CP_INT] + EncodeInt(i)
    case UInt(u) => if u < 64 then [u] else [CP_UINT] + EncodeUInt(u)
    case Double(bits) => [CP_DOUBLE] + bits
    case Decimal(m, e) => [CP_DECIMAL] + EncodeInt(m) + EncodeInt(e)
    case DateTime(ms, min) => [CP_DATE_TIME] + EncodeInt(DateTimeCode.Pack(ms, min))
    case String(s) => [CP_STRING] + EncodeUInt(|s|) + s
    case Blob(s) => [CP_BLOB] + EncodeUInt(|s|) + s
  }

  function Leaf(b: Body): Bytes { if Accepts(b) then PackLeaf(b) else [] }

  function BeginByte(k: Kind): byte
  {
    match k
    case ListKind => CP_LIST
    case MapKind => CP_MAP
    case IMapKind => CP_IMAP
    case MetaKind => CP_META_MAP
  }

  // ---------------------------------------------------------------- reading

  function LexInt(s: Bytes): (r: Lexed)
    ensures r.Lexed? ==> |r.rest| < |s| && r.item.Scalar?
  {
    var d := DecodeInt(s);
    if d.Underflow? then LexError else Lexed(Scalar(Int(d.num)), d.rest)
  }

  function LexUInt(s: Bytes): (r: Lexed)
    ensures r.Lexed? ==> |r.rest| < |s| && r.item.Scalar?
  {
    var d := DecodeUInt(s);
    if d.Underflow? then LexError else Lexed(Scalar(UInt(d.num)), d.rest)
  }

  function LexDouble(s: Bytes): (r: Lexed)
    ensures r.Lexed? ==> |r.rest| < |s| && r.item.Scalar?
  {
    if |s| < 8 then LexError else Lexed(Scalar(Double(s[..8])), s[8..])
  }

  /** The exponent is narrowed to int. */
  function LexDecimal(s: Bytes): (r: Lexed)
    ensures r.Lexed? ==> |r.rest| < |s| && r.item.Scalar?
  {
    var m := DecodeInt(s);
    if m.Underflow? then LexError
    else
      var e := DecodeInt(m.rest);
      if e.Underflow? then LexError else Lexed(Scalar(Decimal(m.num, Wrap(e.num, TWO_32))), e.rest)
  }

  /** Milliseconds are narrowed to the 57-bit field of RpcDateTime. */
  function LexDateTime(s: Bytes): (r: Lexed)
    ensures r.Lexed? ==> |r.rest| < |s| && r.item.Scalar?
  {
    var t := DateTimeCode.Decode(s);
    if t.None? then LexError
    else Lexed(Scalar(DateTime(Wrap(t.value.0, 0x200_0000_0000_0000), t.value.1)), t.value.2)
  }

  function BytesItem(blob: bool, data: Bytes): Item { Scalar(if blob then Blob(data) else String(data)) }

  function LexCString(s: Bytes, blob: bool): (r: Lexed)
    ensures r.Lexed? ==> |r.rest| < |s| && r.item.Scalar?
  {
    var t := Chunks.Unescape(Chunks.CString, s);
    if t.Broken? then LexError else Lexed(BytesItem(blob, t.data), t.rest)
  }

  /** A length that does not fit a signed long turns negative and selects the C string loop. */
  function LexSized(s: Bytes, blob: bool): (r: Lexed)
    ensures r.Lexed? ==> |r.rest| < |s| && r.item.Scalar?
  {
    var n := DecodeUInt(s);
    if n.Underflow? then LexError
    else if n.num >= TWO_63 then LexCString(n.rest, blob)
    else if |n.rest| < n.num then LexError
    else Lexed(BytesItem(blob, n.rest[..n.num]), n.rest[n.num..])
  }

  /** `cchainpack_unpack_next`, with the chunks of a string taken together. */
  function Lex(s: Bytes): (r: Lexed)
    ensures r.Lexed? ==> |r.rest| < |s|
  {
    if s == [] then LexError
    else
      var b, r := s[0], s[1..];
      if b < 64 then Lexed(Scalar(UInt(b)), r)
      else if b < 128 then Lexed(Scalar(Int(b - 64)), r)
      else if b == CP_NULL then Lexed(Scalar(Null), r)
      else if b == CP_TRUE then Lexed(Scalar(Bool(true)), r)
      else if b == CP_FALSE then Lexed(Scalar(Bool(false)), r)
      else if b == CP_INT then LexInt(r)
      else if b == CP_UINT then LexUInt(r)
      else if b == CP_DOUBLE then LexDouble(r)
      else if b == CP_DECIMAL then LexDecimal(r)
      else if b == CP_DATE_TIME then LexDateTime(r)
      else if b == CP_META_MAP then Lexed(Begin(MetaKind), r)
      else if b == CP_MAP then Lexed(Begin(MapKind), r)
      else if b == CP_IMAP then Lexed(Begin(IMapKind), r)
      else if b == CP_LIST then Lexed(Begin(ListKind), r)
      else if b == CP_TERM then Lexed(End, r)
      else if b == CP_BLOB then LexSized(r, true)
      else if b == CP_STRING then LexSized(r, false)
      else if b == CP_CSTRING then LexCString(r, false)
      else LexError
  }

  function PeekMeta(s: Bytes): (r: Peek)
    ensures r.AtMeta? ==> |r.rest| < |s|
    ensures r.AtValue? ==> |r.rest| <= |s|
  {
    if s == [] then PeekError
    else if s[0] == CP_META_MAP then AtMeta(s[1..])
    else AtValue(s)
  }

  function ChainPackCodec(floatKey: Body -> Option<int>): Codec
  {
    Codec.Codec(
      Lex, PeekMeta, Leaf,
      k => [BeginByte(k)],
      (k, lay) => [CP_TERM],
      (first, lay) => [],
      [],
      Accepts,
      b => b,
      s => true,
      floatKey)
  }

  // ---------------------------------------------------------------- laws

  lemma PackedIntLexes(i: int, s: Bytes)
    requires Accepts(Int(i))
    ensures Lex(PackLeaf(Int(i)) + s) == Lexed(Scalar(Int(i)), s)
  {
    var t := PackLeaf(Int(i)) + s;
    if 0 <= i < 64 {
      assert t[1..] == s;
    } else {
      assert t[1..] == EncodeInt(i) + s;
      IntRoundTrip(i, s);
    }
  }

  lemma PackedUIntLexes(u: int, s: Bytes)
    requires Accepts(UInt(u))
    ensures Lex(PackLeaf(UInt(u)) + s) == Lexed(Scalar(UInt(u)), s)
  {
    var t := PackLeaf(UInt(u)) + s;
    if u < 64 {
      assert t[1..] == s;
    } else {
      assert t[1..] == EncodeUInt(u) + s;
      UIntRoundTrip(u, s);
    }
  }

  lemma DecimalDispatch(s: Bytes)
    ensures Lex([CP_DECIMAL] + s) == LexDecimal(s)
  {
  }

  lemma DecimalCodeLexes(m: int, e: int, s: Bytes)
    requires Accepts(Decimal(m, e))
    ensures LexDecimal(EncodeInt(m) + (EncodeInt(e) + s)) == Lexed(Scalar(Decimal(m, e)), s)
  {
    IntRoundTrip(m, EncodeInt(e) + s);
    IntRoundTrip(e, s);
  }

  lemma PackedDecimalLexes(m: int, e: int, s: Bytes)
    requires Accepts(Decimal(m, e))
    ensures Lex(PackLeaf(Decimal(m, e)) + s) == Lexed(Scalar(Decimal(m, e)), s)
  {
    Regroup([CP_DECIMAL], EncodeInt(m), EncodeInt(e), s);
    DecimalDispatch(EncodeInt(m) + (EncodeInt(e) + s));
    DecimalCodeLexes(m, e, s);
  }

  lemma PackedDateTimeLexes(ms: int, min: int, s: Bytes)
    requires Accepts(DateTime(ms, min))
    ensures Lex(PackLeaf(DateTime(ms, min)) + s) == Lexed(Scalar(DateTime(ms, min)), s)
  {
    var t := PackLeaf(DateTime(ms, min)) + s;
    assert t[1..] == EncodeInt(DateTimeCode.Pack(ms, min)) + s;
    DateTimeCode.CodeRoundTrip(ms, min, DateTimeCode.Pack(ms, min), s);
    DivModUnique(min, 15, min / 15, 0);
    assert TruncDiv(min, 15) == min / 15;
  }

  lemma SizedRoundTrip(data: Bytes, blob: bool, s: Bytes)
    requires |data| < TWO_63
    ensures LexSized(EncodeUInt(|data|) + (data + s), blob) == Lexed(BytesItem(blob, data), s)
  {
    UIntRoundTrip(|data|, data + s);
    assert (data + s)[..|data|] == data && (data + s)[|data|..] == s;
  }

  lemma BytesDispatch(r: Bytes)
    ensures Lex([CP_BLOB] + r) == LexSized(r, true)
    ensures Lex([CP_STRING] + r) == LexSized(r, false)
  {
  }

  lemma PackedBytesText(b: Body, data: Bytes, s: Bytes)
    requires b == Blob(data) || b == String(data)
    requires Accepts(b)
    ensures PackLeaf(b) + s == [if b.Blob? then CP_BLOB else CP_STRING] + (EncodeUInt(|data|) + (data + s))
  {
    var code, head := EncodeUInt(|data|), if b.Blob? then CP_BLOB else CP_STRING;
    assert PackLeaf(b) == [head] + code + data;
    Regroup([head], code, data, s);
  }

  lemma PackedBytesLex(b: Body, data: Bytes, s: Bytes)
    requires b == Blob(data) || b == String(data)
    requires Accepts(b)
    ensures Lex(PackLeaf(b) + s) == Lexed(Scalar(b), s)
  {
    PackedBytesText(b, data, s);
    var t := EncodeUInt(|data|) + (data + s);
    BytesDispatch(t);
    SizedRoundTrip(data, b.Blob?, s);
    calc {
      Lex(PackLeaf(b) + s);
      LexSized(t, b.Blob?);
      Lexed(Scalar(b), s);
    }
  }

  lemma PackedFixedLexes(b: Body, s: Bytes)
    requires Accepts(b) && (b.Null? || b.Bool? || b.Double?)
    ensures Lex(PackLeaf(b) + s) == Lexed(Scalar(b), s)
  {
  }

  /** Every packed leaf, followed by anything, lexes back to that leaf and leaves the rest. */
  lemma PackedLeafLexes(b: Body, s: Bytes)
    requires Accepts(b)
    ensures Lex(PackLeaf(b) + s) == Lexed(Scalar(b), s)
  {
    match b
    case Int(i) => PackedIntLexes(i, s);
    case UInt(u) => PackedUIntLexes(u, s);
    case Decimal(m, e) => PackedDecimalLexes(m, e, s);
    case DateTime(ms, min) => PackedDateTimeLexes(ms, min, s);
    case String(x) => PackedBytesLex(b, x, s);
    case Blob(x) => PackedBytesLex(b, x, s);
    case _ => PackedFixedLexes(b, s);
  }

  lemma LeavesAreLawful(floatKey: Body -> Option<int>, b: Body, s: Bytes)
    ensures LeafLaw(ChainPackCodec(floatKey), b, s)
  {
    if Accepts(b) {
      PackedLeafLexes(b, s);
      assert (PackLeaf(b) + s)[0] == PackLeaf(b)[0];
    }
  }

  lemma BeginIsLawful(floatKey: Body -> Option<int>, k: Kind, s: Bytes)
    ensures BeginLaw(ChainPackCodec(floatKey), k, s)
  {
  }

  lemma EndIsLawful(floatKey: Body -> Option<int>, k: Kind, lay: Layout, s: Bytes)
    ensures EndLaw(ChainPackCodec(floatKey), k, lay, s)
  {
  }

  lemma NoSeparatorsIsLawful(floatKey: Body -> Option<int>, first: bool, lay: Layout, s: Bytes)
    ensures SepLaw(ChainPackCodec(floatKey), first, lay, s)
  {
  }

  lemma ChainPackIsLawful(floatKey: Body -> Option<int>)
    ensures Lawful(ChainPackCodec(floatKey))
  {
    var c := ChainPackCodec(floatKey);
    assert KeyLaw(c);
    forall b: Body, s: Bytes ensures LeafLaw(c, b, s) {
      LeavesAreLawful(floatKey, b, s);
    }
    forall k: Kind, s: Bytes ensures BeginLaw(c, k, s) {
      BeginIsLawful(floatKey, k, s);
    }
    forall k: Kind, lay: Layout, s: Bytes ensures EndLaw(c, k, lay, s) {
      EndIsLawful(floatKey, k, lay, s);
    }
    forall first: bool, lay: Layout, s: Bytes ensures SepLaw(c, first, lay, s) {
      NoSeparatorsIsLawful(floatKey, first, lay, s);
    }
  }

  // ---------------------------------------------------------------- the C function

  /** The chunk loop of `read` around `unpack_string`: sized, or up to an unescaped NUL. */
  method UnpackBytes(s: Bytes, blob: bool, chunkLen: nat) returns (r: Lexed)
    requires chunkLen >= 1
    ensures r == LexSized(s, blob)
  {
    var n := UnpackUInt(s);
    if n.Underflow? {
      return LexError;
    }
    var item := new Chunks.StringItem(chunkLen, n.rest, n.num);
    var data: Option<Bytes>;
    if n.num >= TWO_63 {
      data := item.ReadEscaped(Chunks.CString);
    } else {
      data := item.ReadSized();
    }
    r := if data.None? then LexError else Lexed(BytesItem(blob, data.value), item.rest);
  }

  method UnpackDecimal(s: Bytes) returns (r: Lexed)
    ensures r == LexDecimal(s)
  {
    var m := UnpackInt(s);
    if m.Underflow? {
      return LexError;
    }
    var e := UnpackInt(m.rest);
    r := if e.Underflow? then LexError else Lexed(Scalar(Decimal(m.num, Wrap(e.num, TWO_32))), e.rest);
  }

  /** Eight bytes, as they come. */
  method UnpackDouble(s: Bytes) returns (r: Lexed)
    ensures r == LexDouble(s)
  {
    var bits: Bytes := [];
    for i := 0 to 8
      invariant i <= |s| && bits == s[..i]
    {
      if i == |s| {
        return LexError;
      }
      bits := bits + [s[i]];
    }
    r := Lexed(Scalar(Double(bits)), s[8..]);
  }

  method UnpackDateTime(s: Bytes) returns (r: Lexed)
    ensures r == LexDateTime(s)
  {
    var d := UnpackInt(s);
    if d.Underflow? {
      return LexError;
    }
    var t := DateTimeCode.Unpack(d.num);
    r := if t.None? then LexError
         else Lexed(Scalar(DateTime(Wrap(t.value.0, 0x200_0000_0000_0000), t.value.1)), d.rest);
  }

  /** Schema bytes that stand alone: the end, the beginnings, null and the booleans. */
  method UnpackSchema(schema: byte, rest: Bytes) returns (r: Lexed)
    requires schema in {CP_NULL, CP_TRUE, CP_FALSE, CP_META_MAP, CP_MAP, CP_IMAP, CP_LIST, CP_TERM}
    ensures r == Lex([schema] + rest)
  {
    assert ([schema] + rest)[1..] == rest;
    if schema == CP_NULL {
      r := Lexed(Scalar(Null), rest);
    } else if schema == CP_TRUE {
      r := Lexed(Scalar(Bool(true)), rest);
    } else if schema == CP_FALSE {
      r := Lexed(Scalar(Bool(false)), rest);
    } else if schema == CP_META_MAP {
      r := Lexed(Begin(MetaKind), rest);
    } else if schema == CP_MAP {
      r := Lexed(Begin(MapKind), rest);
    } else if schema == CP_IMAP {
      r := Lexed(Begin(IMapKind), rest);
    } else if schema == CP_LIST {
      r := Lexed(Begin(ListKind), rest);
    } else {
      r := Lexed(End, rest);
    }
  }

  /** `cchainpack_unpack_next` and the chunk loop of its caller, for any chunk buffer length. */
  method UnpackNext(s: Bytes, chunkLen: nat) returns (r: Lexed)
    requires chunkLen >= 1
    ensures r == Lex(s)
  {
    if s == [] {
      return LexError;
    }
    var schema, rest := s[0], s[1..];
    if schema < 64 {
      r := Lexed(Scalar(UInt(schema)), rest);
    } else if schema < 128 {
      r := Lexed(Scalar(Int(schema - 64)), rest);
    } else if schema == CP_INT {
      var d := UnpackInt(rest);
      r := if d.Underflow? then LexError else Lexed(Scalar(Int(d.num)), d.rest);
    } else if schema == CP_UINT {
      var d := UnpackUInt(rest);
      r := if d.Underflow? then LexError else Lexed(Scalar(UInt(d.num)), d.rest);
    } else if schema == CP_DECIMAL {
      r := UnpackDecimal(rest);
    } else if schema == CP_BLOB || schema == CP_STRING {
      r := UnpackBytes(rest, schema == CP_BLOB, chunkLen);
    } else if schema == CP_CSTRING {
      var item := new Chunks.StringItem(chunkLen, rest, 0);
      var data := item.ReadEscaped(Chunks.CString);
      r := if data.None? then LexError else Lexed(BytesItem(false, data.value), item.rest);
    } else if schema == CP_DOUBLE {
      r := UnpackDouble(rest);
    } else if schema == CP_DATE_TIME {
      r := UnpackDateTime(rest);
    } else if schema in {CP_NULL, CP_TRUE, CP_FALSE, CP_META_MAP, CP_MAP, CP_IMAP, CP_LIST, CP_TERM} {
      assert s == [schema] + rest;
      r := UnpackSchema(schema, rest);
    } else {
      r := LexError;
    }
  }
}
