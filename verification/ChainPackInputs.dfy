/** What the ChainPack reader does with any input, well formed or not. */
module ChainPackInputs {
  import opened ByteStrings
  import opened RpcValues
  import opened IntCode
  import opened IntForms
  import opened Codecs
  import opened CodecRoundTrip
  import opened MapReading
  import opened ChainPack
  import opened ChainPackTheorems
  import Chunks
  import DateTimeCode

  // ---------------------------------------------------------------- one item

  lemma Beyond(s: Bytes, q: Bytes, n: nat)
    requires n <= |s|
    ensures (s + q)[..n] == s[..n] && (s + q)[n..] == s[n..] + q
  {
  }

  lemma UIntIsLocal(s: Bytes, q: Bytes)
    requires DecodeUInt(s).Decoded?
    ensures var d := DecodeUInt(s); DecodeUInt(s + q) == d.(rest := d.rest + q)
  {
    var n := 1 + ReadHead(s[0]).extra;
    Beyond(s, q, n);
    assert (s + q)[1..n] == s[1..n];
  }

  lemma IntIsLocal(s: Bytes, q: Bytes)
    requires DecodeInt(s).Decoded?
    ensures var d := DecodeInt(s); DecodeInt(s + q) == d.(rest := d.rest + q)
  {
    UIntIsLocal(s, q);
  }

  /** What is read does not depend on what follows. */
  ghost predicate SameBefore(a: Lexed, b: Lexed, q: Bytes)
  {
    a.Lexed? ==> b == Lexed(a.item, a.rest + q)
  }

  lemma {:induction false} UnescapeIsLocal(s: Bytes, q: Bytes)
    requires Chunks.Unescape(Chunks.CString, s).Text?
    ensures var t := Chunks.Unescape(Chunks.CString, s);
      Chunks.Unescape(Chunks.CString, s + q) == t.(rest := t.rest + q)
    decreases |s|
  {
    var n := Chunks.Next(Chunks.CString, s);
    var k := |s| - |n.rest|;
    Beyond(s, q, k);
    assert n.rest == s[k..];
    if n.Emit? {
      UnescapeIsLocal(n.rest, q);
    }
  }

  lemma CStringIsLocal(s: Bytes, blob: bool, q: Bytes)
    ensures SameBefore(LexCString(s, blob), LexCString(s + q, blob), q)
  {
    if LexCString(s, blob).Lexed? {
      UnescapeIsLocal(s, q);
    }
  }

  lemma SizedIsLocal(s: Bytes, blob: bool, q: Bytes)
    ensures SameBefore(LexSized(s, blob), LexSized(s + q, blob), q)
  {
    var n := DecodeUInt(s);
    if n.Decoded? {
      UIntIsLocal(s, q);
      if n.num >= TWO_63 {
        CStringIsLocal(n.rest, blob, q);
      } else if n.num <= |n.rest| {
        Beyond(n.rest, q, n.num);
      }
    }
  }

  lemma NumbersAreLocal(s: Bytes, q: Bytes)
    ensures SameBefore(LexInt(s), LexInt(s + q), q) && SameBefore(LexUInt(s), LexUInt(s + q), q)
    ensures SameBefore(LexDecimal(s), LexDecimal(s + q), q) && SameBefore(LexDateTime(s), LexDateTime(s + q), q)
    ensures SameBefore(LexDouble(s), LexDouble(s + q), q)
  {
    if DecodeUInt(s).Decoded? {
      UIntIsLocal(s, q);
    }
    if DecodeInt(s).Decoded? {
      IntIsLocal(s, q);
      if DecodeInt(DecodeInt(s).rest).Decoded? {
        IntIsLocal(DecodeInt(s).rest, q);
      }
    }
    if |s| >= 8 {
      Beyond(s, q, 8);
    }
  }

  lemma LexIsLocal(s: Bytes, q: Bytes)
    ensures SameBefore(Lex(s), Lex(s + q), q)
  {
    hide LexInt, LexUInt, LexDouble, LexDecimal, LexDateTime, LexSized, LexCString;
    if s != [] {
      Beyond(s, q, 1);
      assert (s + q)[0] == s[0];
      var r := s[1..];
      NumbersAreLocal(r, q);
      SizedIsLocal(r, true, q);
      SizedIsLocal(r, false, q);
      CStringIsLocal(r, false, q);
    }
  }

  // ---------------------------------------------------------------- whole values

  lemma PeekIsLocal(s: Bytes, q: Bytes)
    requires s != []
    ensures s[0] == CP_META_MAP ==> PeekMeta(s) == AtMeta(s[1..]) && PeekMeta(s + q) == AtMeta(s[1..] + q)
    ensures s[0] != CP_META_MAP ==> PeekMeta(s) == AtValue(s) && PeekMeta(s + q) == AtValue(s + q)
  {
    Beyond(s, q, 1);
  }

  /** A value is read the same whatever follows it, which is left where it was. */
  lemma {:induction false} ReadIsLocal(floatKey: Body -> Option<int>, s: Bytes, q: Bytes)
    requires Read(ChainPackCodec(floatKey), s).Got?
    ensures var c := ChainPackCodec(floatKey); var g := Read(c, s); Read(c, s + q) == g.(rest := g.rest + q)
    decreases |s|, 2
  {
    var c := ChainPackCodec(floatKey);
    assert s != [];
    PeekIsLocal(s, q);
    if s[0] == CP_META_MAP {
      EntriesAreLocal(floatKey, MetaKind, s[1..], [], q);
      var m := ReadEntries(c, MetaKind, s[1..], []);
      ItemIsLocal(floatKey, m.entries, m.rest, q);
    } else {
      ItemIsLocal(floatKey, [], s, q);
    }
  }

  lemma ListItem(c: Codec, meta: seq<Entry>, s: Bytes, r: Bytes)
    requires c.lex(s) == Lexed(Begin(ListKind), r)
    ensures var l := ReadList(c, r, []);
      ReadItem(c, meta, s) == if l.ListFail? then Fail else Attach(meta, List(l.items), false, l.rest)
  {
  }

  lemma MapItem(c: Codec, kind: Kind, meta: seq<Entry>, s: Bytes, r: Bytes)
    requires (kind == MapKind || kind == IMapKind) && c.lex(s) == Lexed(Begin(kind), r)
    ensures var m := ReadEntries(c, kind, r, []);
      ReadItem(c, meta, s) == if m.EntriesFail? then Fail else Attach(meta, MapBody(kind, m.entries), false, m.rest)
  {
  }

  /** Items that are read as they are. */
  lemma PlainItem(c: Codec, meta: seq<Entry>, s: Bytes, item: Item, r: Bytes)
    requires c.lex(s) == Lexed(item, r) && !item.Begin?
    ensures ReadItem(c, meta, s) == Attach(meta, if item.Scalar? then item.body else Invalid, item.End?, r)
  {
  }

  lemma MetaItem(c: Codec, meta: seq<Entry>, s: Bytes, r: Bytes)
    requires c.lex(s) == Lexed(Begin(MetaKind), r)
    ensures ReadItem(c, meta, s) == Fail
  {
  }

  lemma {:induction false} ItemIsLocal(floatKey: Body -> Option<int>, meta: seq<Entry>, s: Bytes, q: Bytes)
    requires ReadItem(ChainPackCodec(floatKey), meta, s).Got?
    ensures var c := ChainPackCodec(floatKey); var g := ReadItem(c, meta, s);
      ReadItem(c, meta, s + q) == g.(rest := g.rest + q)
    decreases |s|, 1
  {
    var c := ChainPackCodec(floatKey);
    LexIsLocal(s, q);
    assert c.lex(s) == Lex(s) && c.lex(s + q) == Lex(s + q) && Lex(s).Lexed?;
    hide Lex, ReadItem, ReadList, ReadEntries;
    var item, r := Lex(s).item, Lex(s).rest;
    if !item.Begin? {
      PlainItem(c, meta, s, item, r);
      PlainItem(c, meta, s + q, item, r + q);
    } else if item.kind == ListKind {
      ListItem(c, meta, s, r);
      ListItem(c, meta, s + q, r + q);
      ListIsLocal(floatKey, r, [], q);
    } else if item.kind == MetaKind {
      MetaItem(c, meta, s, r);
    } else {
      MapItem(c, item.kind, meta, s, r);
      MapItem(c, item.kind, meta, s + q, r + q);
      EntriesAreLocal(floatKey, item.kind, r, [], q);
    }
  }

  lemma {:induction false} ListIsLocal(floatKey: Body -> Option<int>, s: Bytes, acc: seq<Value>, q: Bytes)
    requires ReadList(ChainPackCodec(floatKey), s, acc).GotList?
    ensures var c := ChainPackCodec(floatKey); var g := ReadList(c, s, acc);
      ReadList(c, s + q, acc) == g.(rest := g.rest + q)
    decreases |s|, 3
  {
    var g := Read(ChainPackCodec(floatKey), s);
    ReadIsLocal(floatKey, s, q);
    if !g.end {
      ListIsLocal(floatKey, g.rest, acc + [g.val], q);
    }
  }

  lemma {:induction false} EntriesAreLocal(floatKey: Body -> Option<int>, kind: Kind, s: Bytes, acc: seq<Entry>,
                                           q: Bytes)
    requires ReadEntries(ChainPackCodec(floatKey), kind, s, acc).GotEntries?
    ensures var c := ChainPackCodec(floatKey); var g := ReadEntries(c, kind, s, acc);
      ReadEntries(c, kind, s + q, acc) == g.(rest := g.rest + q)
    decreases |s|, 3
  {
    var c := ChainPackCodec(floatKey);
    var k := Read(c, s);
    ReadIsLocal(floatKey, s, q);
    if !k.end {
      var v := Read(c, k.rest);
      ReadIsLocal(floatKey, k.rest, q);
      var key := KeyFrom(c, kind, k.val.body).value;
      EntriesAreLocal(floatKey, kind, v.rest, Store(kind, acc, key, v.val), q);
    }
  }

  /** No value is read from an encoding that is cut short, wherever it is cut. */
  lemma TruncatedIsRefused(floatKey: Body -> Option<int>, v: Value, cut: nat)
    requires Writable(ChainPackCodec(floatKey), v) && cut < |Write(ChainPackCodec(floatKey), v, 0)|
    ensures Read(ChainPackCodec(floatKey), Write(ChainPackCodec(floatKey), v, 0)[..cut]).Fail?
  {
    var c := ChainPackCodec(floatKey);
    var text := Write(c, v, 0);
    ChainPackIsLawful(floatKey);
    ValueRoundTrip(c, v, 0, []);
    assert text + [] == text && text[..cut] + text[cut..] == text;
    if Read(c, text[..cut]).Got? {
      ReadIsLocal(floatKey, text[..cut], text[cut..]);
    }
  }

  lemma SchemaLexesLeaf(s: Bytes)
    ensures Lex(s).Lexed? && Lex(s).item.Scalar? ==> !Lex(s).item.body.IsContainer()
  {
  }

  /** Whatever bytes come in, what is read from them is ordered throughout and holds no invalid value with metadata. */
  lemma EveryValueIsCanonical(floatKey: Body -> Option<int>, s: Bytes)
    ensures var g := Read(ChainPackCodec(floatKey), s); g.Got? ==> Canonical(g.val)
  {
    var c := ChainPackCodec(floatKey);
    forall t: Bytes ensures c.lex(t).Lexed? && c.lex(t).item.Scalar? ==> !c.lex(t).item.body.IsContainer() {
      SchemaLexesLeaf(t);
    }
    ReadIsCanonical(c, s);
  }

  // ---------------------------------------------------------------- items that the writer does not use

  /** C strings are read, although the writer sends their length instead. */
  lemma CStringReads(data: Bytes, rest: Bytes)
    ensures Lex([CP_CSTRING] + (Chunks.Escape(Chunks.CString, data) + ([0] + rest)))
         == Lexed(Scalar(String(data)), rest)
  {
    var text := Chunks.Escape(Chunks.CString, data) + ([0] + rest);
    Chunks.EscapeRoundTrip(Chunks.CString, data, rest);
    assert ([CP_CSTRING] + text)[1..] == text;
  }

  // ---------------------------------------------------------------- a message, byte by byte

  function Plain(b: Body): Value { Value([], b) }

  function NumberAt(key: int, n: int): Entry { Entry(IKey(key), Plain(Int(n))) }

  function TextAt(key: int, s: Bytes): Entry { Entry(IKey(key), Plain(String(s))) }

  lemma SmallIntText(i: int)
    requires 0 <= i < 64
    ensures Leaf(Int(i)) == [i + 64]
  {
  }

  lemma ShortStringText(s: Bytes)
    requires |s| < 64
    ensures Leaf(String(s)) == [CP_STRING, |s|] + s
  {
    UIntForms(|s|);
  }

  lemma OneEntry(floatKey: Body -> Option<int>, key: int, b: Body, es: seq<Entry>, lay: Layout, first: bool)
    requires 0 <= key < 64 && !b.Invalid? && !b.IsContainer()
    ensures var c := ChainPackCodec(floatKey);
      WriteEntries(c, [Entry(IKey(key), Plain(b))] + es, lay, first)
        == [key + 64] + Leaf(b) + WriteEntries(c, es, lay, false)
  {
    hide WriteEntries, Write, Leaf, ChainPackCodec;
    var none: Bytes, all := [], [Entry(IKey(key), Plain(b))] + es;
    assert all[1..] == es && all[0] == Entry(IKey(key), Plain(b));
    SmallIntText(key);
    PlainText(floatKey, b, lay.nest);
    FirstOfEntries(ChainPackCodec(floatKey), all, lay, first);
    NoSeparators(floatKey, first, lay, KeyBody(IKey(key)));
    assert none + [key + 64] + none + Leaf(b) == [key + 64] + Leaf(b);
  }

  lemma FirstOfEntries(c: Codec, es: seq<Entry>, lay: Layout, first: bool)
    requires es != []
    ensures WriteEntries(c, es, lay, first)
         == c.sep(first, lay) + c.leaf(KeyBody(es[0].key)) + c.keySep + Write(c, es[0].val, lay.nest)
          + WriteEntries(c, es[1..], lay, false)
  {
  }

  lemma NoSeparators(floatKey: Body -> Option<int>, first: bool, lay: Layout, b: Body)
    ensures var c := ChainPackCodec(floatKey); c.sep(first, lay) == [] && c.keySep == [] && c.leaf(b) == Leaf(b)
  {
  }

  lemma PlainText(floatKey: Body -> Option<int>, b: Body, nest: nat)
    requires !b.Invalid? && !b.IsContainer()
    ensures Write(ChainPackCodec(floatKey), Plain(b), nest) == Leaf(b)
  {
    var c, none: Bytes := ChainPackCodec(floatKey), [];
    assert WriteMeta(c, Plain(b), nest) == none && none + Leaf(b) == Leaf(b);
  }

  /** A message as the tests of the repository have it: its metadata, and an imap with its result. */
  function Message(path: Bytes, name: Bytes, result: Bytes): Value
  {
    Value([NumberAt(1, 1)] + ([NumberAt(8, 1)] + ([TextAt(9, path)] + ([TextAt(10, name)] + []))),
          IMap([TextAt(1, result)] + []))
  }

  /** An entry with a short string. */
  lemma TextEntry(floatKey: Body -> Option<int>, key: int, t: Bytes, es: seq<Entry>, lay: Layout, first: bool)
    requires 0 <= key < 64 && |t| < 64
    ensures var c := ChainPackCodec(floatKey);
      WriteEntries(c, [TextAt(key, t)] + es, lay, first) == [key + 64, 0x86, |t|] + t + WriteEntries(c, es, lay, false)
  {
    hide WriteEntries, ChainPackCodec, Leaf;
    OneEntry(floatKey, key, String(t), es, lay, first);
    ShortStringText(t);
    assert [key + 64] + ([CP_STRING, |t|] + t) == [key + 64, 0x86, |t|] + t;
  }

  lemma NumberEntry(floatKey: Body -> Option<int>, key: int, n: int, es: seq<Entry>, lay: Layout, first: bool)
    requires 0 <= key < 64 && 0 <= n < 64
    ensures var c := ChainPackCodec(floatKey);
      WriteEntries(c, [NumberAt(key, n)] + es, lay, first) == [key + 64, n + 64] + WriteEntries(c, es, lay, false)
  {
    hide WriteEntries, ChainPackCodec, Leaf;
    OneEntry(floatKey, key, Int(n), es, lay, first);
    SmallIntText(n);
  }

  lemma NoEntries(c: Codec, lay: Layout, first: bool)
    ensures WriteEntries(c, [], lay, first) == []
  {
  }

  lemma MessageMeta(floatKey: Body -> Option<int>, path: Bytes, name: Bytes, lay: Layout)
    requires |path| < 64 && |name| < 64
    ensures WriteEntries(ChainPackCodec(floatKey), Message(path, name, []).meta, lay, true)
         == [0x41, 0x41] + ([0x48, 0x41] + ([0x49, 0x86, |path|] + path + ([0x4A, 0x86, |name|] + name)))
  {
    hide WriteEntries, ChainPackCodec;
    var c, none: seq<Entry>, end: Bytes := ChainPackCodec(floatKey), [], [];
    NoEntries(c, lay, false);
    TextEntry(floatKey, 10, name, none, lay, false);
    assert [0x4A, 0x86, |name|] + name + end == [0x4A, 0x86, |name|] + name;
    TextEntry(floatKey, 9, path, [TextAt(10, name)] + none, lay, false);
    NumberEntry(floatKey, 8, 1, [TextAt(9, path)] + ([TextAt(10, name)] + none), lay, false);
    NumberEntry(floatKey, 1, 1, [NumberAt(8, 1)] + ([TextAt(9, path)] + ([TextAt(10, name)] + none)), lay, true);
  }

  /** The metadata and the body between their ends. */
  lemma MessageParts(c: Codec, v: Value, outer: Layout, inner: Layout)
    requires v.meta != [] && v.body.IMap?
    requires outer == Layout(1, OneLineMap(v.meta)) && inner == Layout(1, OneLineMap(v.body.entries))
    ensures Write(c, v, 0)
         == c.begin(MetaKind) + WriteEntries(c, v.meta, outer, true) + c.end(MetaKind, Layout(0, outer.oneLine))
          + (c.begin(IMapKind) + WriteEntries(c, v.body.entries, inner, true)
              + c.end(IMapKind, Layout(0, inner.oneLine)))
  {
    hide WriteEntries, OneLineMap;
  }

  lemma Ends(floatKey: Body -> Option<int>, lay: Layout)
    ensures var c := ChainPackCodec(floatKey);
      && c.begin(MetaKind) == [0x8B] && c.begin(IMapKind) == [0x8A]
      && c.end(MetaKind, lay) == c.end(IMapKind, lay) == [0xFF]
  {
  }

  /** Its bytes, as they are there. */
  lemma MessageBytes(floatKey: Body -> Option<int>, path: Bytes, name: Bytes, result: Bytes)
    requires |path| < 64 && |name| < 64 && |result| < 64
    ensures Write(ChainPackCodec(floatKey), Message(path, name, result), 0)
         == [0x8B] + ([0x41, 0x41] + ([0x48, 0x41] + ([0x49, 0x86, |path|] + path + ([0x4A, 0x86, |name|] + name))))
          + [0xFF] + ([0x8A] + ([0x41, 0x86, |result|] + result) + [0xFF])
  {
    hide WriteEntries, Write, ChainPackCodec, OneLineMap;
    var c, v, none: seq<Entry>, end: Bytes := ChainPackCodec(floatKey), Message(path, name, result), [], [];
    var outer, inner := Layout(1, OneLineMap(v.meta)), Layout(1, OneLineMap(v.body.entries));
    MessageParts(c, v, outer, inner);
    Ends(floatKey, Layout(0, outer.oneLine));
    Ends(floatKey, Layout(0, inner.oneLine));
    MessageMeta(floatKey, path, name, outer);
    NoEntries(c, inner, false);
    TextEntry(floatKey, 1, result, none, inner, true);
    assert [0x41, 0x86, |result|] + result + end == [0x41, 0x86, |result|] + result;
  }

  /** The schema bytes, and what they stand in front of. */
  lemma SchemaBytesAre(b: Body)
    requires Accepts(b)
    ensures match b
            case Null => Leaf(b) == [0x80]
            case Bool(x) => Leaf(b) == if x then [0xFE] else [0xFD]
            case UInt(u) => Leaf(b) == if u < 64 then [u] else [0x81] + EncodeUInt(u)
            case Int(i) => Leaf(b) == if 0 <= i < 64 then [i + 64] else [0x82] + EncodeInt(i)
            case Double(bits) => Leaf(b) == [0x83] + bits
            case Blob(data) => Leaf(b) == [0x85] + EncodeUInt(|data|) + data
            case String(data) => Leaf(b) == [0x86] + EncodeUInt(|data|) + data
            case Decimal(m, e) => Leaf(b) == [0x8C] + EncodeInt(m) + EncodeInt(e)
            case DateTime(ms, min) => Leaf(b) == [0x8D] + EncodeInt(DateTimeCode.Pack(ms, min))
            case _ => true
  {
    hide EncodeInt, EncodeUInt, Accepts, DateTimeCode.Pack;
  }

  lemma FrameBytesAre(floatKey: Body -> Option<int>, lay: Layout)
    ensures var c := ChainPackCodec(floatKey);
      && c.begin(ListKind) == [0x88] && c.begin(MapKind) == [0x89] && c.begin(IMapKind) == [0x8A]
      && c.begin(MetaKind) == [0x8B] && c.end(ListKind, lay) == [0xFF]
  {
  }
}
