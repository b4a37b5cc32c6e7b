/**
 The recursive value writer and reader that ChainPack and CPON share.  A `Codec` holds what
 differs between the two formats: the item lexer of the C layer, the metadata look-ahead,
 and the bytes of leaves, container ends and separators.  Everything proved here holds for
 every codec that satisfies `Lawful`.
 */
module Codecs {
  import opened ByteStrings
  import opened RpcValues

  datatype Kind = ListKind | MapKind | IMapKind | MetaKind

  /** What one `unpack_next` of the C layer yields. */
  datatype Item = Scalar(body: Body) | Begin(kind: Kind) | End | Nothing

  datatype Lexed = LexError | Lexed(item: Item, rest: Bytes)

  /** Outcome of looking for metadata before a value; `AtValue` says where the value is read from. */
  datatype Peek = PeekError | AtMeta(rest: Bytes) | AtValue(rest: Bytes)

  type Lexer = f: Bytes -> Lexed | forall s :: f(s).Lexed? ==> |f(s).rest| < |s|
    witness (s: Bytes) => LexError

  type Peeker = f: Bytes -> Peek |
    forall s :: (f(s).AtMeta? ==> |f(s).rest| < |s|) && (f(s).AtValue? ==> |f(s).rest| <= |s|)
    witness (s: Bytes) => PeekError

  /** Nesting depth and single-line flag, which drive separators in pretty-printed text. */
  datatype Layout = Layout(nest: nat, oneLine: bool)

  datatype Codec = Codec(
    lex: Lexer,
    peek: Peeker,
    leaf: Body -> Bytes,             // text of a leaf
    begin: Kind -> Bytes,            // text that opens a container
    end: (Kind, Layout) -> Bytes,    // text that closes it
    sep: (bool, Layout) -> Bytes,    // text before an element; true for the first one
    keySep: Bytes,                   // text between key and value
    accepts: Body -> bool,           // leaves the format can carry
    kept: Body -> Body,              // the leaf that a written leaf reads back as
    ends: Bytes -> bool,             // input at which a leaf cannot be continued
    floatKey: Body -> Option<int>)   // conversion of a floating-point map key to int

  // ---------------------------------------------------------------- writer

  predicate OneLineList(vs: seq<Value>)
  {
    |vs| <= 10 && forall i | 0 <= i < |vs| :: !vs[i].body.IsContainer()
  }

  predicate OneLineMap(es: seq<Entry>)
  {
    |es| <= 5 && forall i | 0 <= i < |es| :: !es[i].val.body.IsContainer()
  }

  function KeyBody(k: Key): Body { if k.IKey? then Int(k.i) else String(k.s) }

  function Write(c: Codec, v: Value, nest: nat): Bytes
    decreases v, 2
  {
    WriteMeta(c, v, nest) + WriteBody(c, v.body, nest)
  }

  function WriteMeta(c: Codec, v: Value, nest: nat): Bytes
    decreases v, 1
  {
    if v.meta == [] then []
    else
      var lay := Layout(nest + 1, OneLineMap(v.meta));
      c.begin(MetaKind) + WriteEntries(c, v.meta, lay, true) + c.end(MetaKind, Layout(nest, lay.oneLine))
  }

  /** An invalid value is written as null. */
  function WriteBody(c: Codec, b: Body, nest: nat): Bytes
    decreases b, 1
  {
    match b
    case Invalid => c.leaf(Null)
    case List(vs) =>
      var lay := Layout(nest + 1, OneLineList(vs));
      c.begin(ListKind) + WriteList(c, vs, lay, true) + c.end(ListKind, Layout(nest, lay.oneLine))
    case Map(es) =>
      var lay := Layout(nest + 1, OneLineMap(es));
      c.begin(MapKind) + WriteEntries(c, es, lay, true) + c.end(MapKind, Layout(nest, lay.oneLine))
    case IMap(es) =>
      var lay := Layout(nest + 1, OneLineMap(es));
      c.begin(IMapKind) + WriteEntries(c, es, lay, true) + c.end(IMapKind, Layout(nest, lay.oneLine))
    case _ => c.leaf(b)
  }

  function WriteList(c: Codec, vs: seq<Value>, lay: Layout, first: bool): Bytes
    decreases vs, 0
  {
    if vs == [] then []
    else c.sep(first, lay) + Write(c, vs[0], lay.nest) + WriteList(c, vs[1..], lay, false)
  }

  function WriteEntries(c: Codec, es: seq<Entry>, lay: Layout, first: bool): Bytes
    decreases es, 0
  {
    if es == [] then []
    else
      var e := es[0];
      assert e.val < e;
      c.sep(first, lay) + c.leaf(KeyBody(e.key)) + c.keySep + Write(c, e.val, lay.nest)
      + WriteEntries(c, es[1..], lay, false)
  }

  // ---------------------------------------------------------------- reader

  datatype Got = Fail | Got(val: Value, end: bool, rest: Bytes)
  datatype GotList = ListFail | GotList(items: seq<Value>, rest: Bytes)
  datatype GotEntries = EntriesFail | GotEntries(entries: seq<Entry>, rest: Bytes)

  /** `RpcValue::toInt`; floating-point sources go through the codec's conversion. */
  function ToInt(c: Codec, b: Body): Option<int>
  {
    match b
    case Int(i) => Some(Wrap(i, TWO_32))
    case UInt(u) => Some(Wrap(u, TWO_32))
    case DateTime(ms, _) => Some(Wrap(ms, TWO_32))
    case Double(_) => c.floatKey(b)
    case Decimal(_, _) => c.floatKey(b)
    case _ => Some(0)
  }

  function AsString(b: Body): Bytes { if b.String? then b.str else [] }

  function KeyFrom(c: Codec, kind: Kind, b: Body): Option<Key>
  {
    if kind == MapKind || (kind == MetaKind && b.String?) then Some(SKey(AsString(b)))
    else if ToInt(c, b).Some? then Some(IKey(ToInt(c, b).value))
    else None
  }

  /** Maps overwrite; metadata forgets a key that is set to an invalid value. */
  function Store(kind: Kind, es: seq<Entry>, key: Key, v: Value): seq<Entry>
  {
    if kind == MetaKind && v.body.Invalid? then Erase(es, key) else Insert(es, key, v)
  }

  function Attach(meta: seq<Entry>, body: Body, end: bool, rest: Bytes): Got
  {
    if meta != [] && body.Invalid? then Fail else Got(Value(meta, body), end, rest)
  }

  /** `read(RpcValue &)`; `end` tells that the item met was the end of the enclosing container. */
  function Read(c: Codec, s: Bytes): (r: Got)
    ensures r.Got? ==> |r.rest| < |s|
    decreases |s|, 2
  {
    match c.peek(s)
    case PeekError => Fail
    case AtMeta(r) =>
      var m := ReadEntries(c, MetaKind, r, []);
      if m.EntriesFail? then Fail else ReadItem(c, m.entries, m.rest)
    case AtValue(r) => ReadItem(c, [], r)
  }

  function ReadItem(c: Codec, meta: seq<Entry>, s: Bytes): (r: Got)
    ensures r.Got? ==> |r.rest| < |s|
    decreases |s|, 1
  {
    match c.lex(s)
    case LexError => Fail
    case Lexed(item, r) =>
      match item
      case Nothing => Attach(meta, Invalid, false, r)
      case End => Attach(meta, Invalid, true, r)
      case Scalar(b) => Attach(meta, b, false, r)
      case Begin(ListKind) =>
        var l := ReadList(c, r, []);
        if l.ListFail? then Fail else Attach(meta, List(l.items), false, l.rest)
      case Begin(MapKind) =>
        var m := ReadEntries(c, MapKind, r, []);
        if m.EntriesFail? then Fail else Attach(meta, Map(m.entries), false, m.rest)
      case Begin(IMapKind) =>
        var m := ReadEntries(c, IMapKind, r, []);
        if m.EntriesFail? then Fail else Attach(meta, IMap(m.entries), false, m.rest)
      case Begin(MetaKind) => Fail
  }

  /** `parseList`: collects values until the end item. */
  function ReadList(c: Codec, s: Bytes, acc: seq<Value>): (r: GotList)
    ensures r.GotList? ==> |r.rest| < |s|
    decreases |s|, 3
  {
    match Read(c, s)
    case Fail => ListFail
    case Got(v, end, r) => if end then GotList(acc, r) else ReadList(c, r, acc + [v])
  }

  /** `parseMap`, `parseIMap` and `parseMetaData`. */
  function ReadEntries(c: Codec, kind: Kind, s: Bytes, acc: seq<Entry>): (r: GotEntries)
    ensures r.GotEntries? ==> |r.rest| < |s|
    decreases |s|, 3
  {
    match Read(c, s)
    case Fail => EntriesFail
    case Got(k, end, r) =>
      if end then GotEntries(acc, r)
      else
        match Read(c, r)
        case Fail => EntriesFail
        case Got(v, _, r2) =>
          var key := KeyFrom(c, kind, k.body);
          if key.None? then EntriesFail
          else ReadEntries(c, kind, r2, Store(kind, acc, key.value, v))
  }

  // ---------------------------------------------------------------- laws

  ghost predicate LeafLaw(c: Codec, b: Body, s: Bytes)
  {
    c.accepts(b) && c.ends(s) ==>
      c.peek(c.leaf(b) + s) == AtValue(c.leaf(b) + s) && c.lex(c.leaf(b) + s) == Lexed(Scalar(c.kept(b)), s)
  }

  ghost predicate BeginLaw(c: Codec, k: Kind, s: Bytes)
  {
    if k == MetaKind then c.peek(c.begin(k) + s) == AtMeta(s)
    else c.peek(c.begin(k) + s) == AtValue(c.begin(k) + s) && c.lex(c.begin(k) + s) == Lexed(Begin(k), s)
  }

  /** An end item is found behind whatever separator precedes it, and it ends a leaf. */
  ghost predicate EndLaw(c: Codec, k: Kind, lay: Layout, s: Bytes)
  {
    var p := c.peek(c.end(k, lay) + s);
    p.AtValue? && c.lex(p.rest) == Lexed(End, s) && c.ends(c.end(k, lay) + s)
  }

  /** Separators are insignificant, and all but the first end a leaf. */
  ghost predicate SepLaw(c: Codec, first: bool, lay: Layout, s: Bytes)
  {
    && c.peek(c.sep(first, lay) + s) == c.peek(s)
    && (!first ==> c.ends(c.sep(first, lay) + s))
    && c.peek(c.keySep + s) == c.peek(s)
    && c.ends(c.keySep + s)
  }

  /** Keys are leaves that read back unchanged, and null is accepted. */
  ghost predicate KeyLaw(c: Codec)
  {
    && c.accepts(Null) && c.kept(Null) == Null
    && (forall i: int | -TWO_31 <= i < TWO_31 :: c.accepts(Int(i)) && c.kept(Int(i)) == Int(i))
    && (forall t: Bytes | c.accepts(String(t)) :: c.kept(String(t)) == String(t))
    && (forall b: Body | c.accepts(b) :: !c.kept(b).Invalid? && !c.kept(b).IsContainer())
  }

  ghost predicate Lawful(c: Codec)
  {
    && KeyLaw(c)
    && (forall b: Body, s: Bytes :: LeafLaw(c, b, s))
    && (forall k: Kind, s: Bytes :: BeginLaw(c, k, s))
    && (forall k: Kind, lay: Layout, s: Bytes :: EndLaw(c, k, lay, s))
    && (forall first: bool, lay: Layout, s: Bytes :: SepLaw(c, first, lay, s))
  }

  // ---------------------------------------------------------------- well-formed values

  ghost predicate KeyFits(c: Codec, kind: Kind, k: Key)
  {
    && (kind == MapKind ==> k.SKey?)
    && (kind == IMapKind ==> k.IKey?)
    && (k.IKey? ==> -TWO_31 <= k.i < TWO_31)
    && (k.SKey? ==> c.accepts(String(k.s)))
  }

  ghost predicate Writable(c: Codec, v: Value)
    decreases v, 2
  {
    WritableEntries(c, MetaKind, v.meta) && WritableBody(c, v.body)
  }

  ghost predicate WritableBody(c: Codec, b: Body)
    decreases b, 1
  {
    match b
    case Invalid => true
    case List(vs) => WritableList(c, vs)
    case Map(es) => WritableEntries(c, MapKind, es)
    case IMap(es) => WritableEntries(c, IMapKind, es)
    case _ => c.accepts(b)
  }

  ghost predicate WritableList(c: Codec, vs: seq<Value>)
    decreases vs, 0
  {
    forall i | 0 <= i < |vs| :: Writable(c, vs[i])
  }

  ghost predicate WritableEntries(c: Codec, kind: Kind, es: seq<Entry>)
    decreases es, 1
  {
    Sorted(es) && WritableInAnyOrder(c, kind, es)
  }

  /** Entries that can be written one after the other, in any order and with any key as often as one likes. */
  ghost predicate WritableInAnyOrder(c: Codec, kind: Kind, es: seq<Entry>)
    decreases es, 0
  {
    forall i | 0 <= i < |es| ::
      KeyFits(c, kind, es[i].key) && (assert es[i].val < es[i]; Writable(c, es[i].val))
  }

  /** What a written value reads back as: invalid becomes null, leaves as the format keeps them. */
  function AsRead(c: Codec, v: Value): Value
    decreases v, 2
  {
    Value(EntriesAsRead(c, v.meta), BodyAsRead(c, v.body))
  }

  function BodyAsRead(c: Codec, b: Body): Body
    decreases b, 1
  {
    match b
    case Invalid => Null
    case List(vs) => List(ListAsRead(c, vs))
    case Map(es) => Map(EntriesAsRead(c, es))
    case IMap(es) => IMap(EntriesAsRead(c, es))
    case _ => c.kept(b)
  }

  function ListAsRead(c: Codec, vs: seq<Value>): (r: seq<Value>)
    ensures |r| == |vs|
    decreases vs, 0
  {
    if vs == [] then [] else [AsRead(c, vs[0])] + ListAsRead(c, vs[1..])
  }

  function EntriesAsRead(c: Codec, es: seq<Entry>): (r: seq<Entry>)
    ensures |r| == |es|
    ensures forall i | 0 <= i < |es| :: r[i].key == es[i].key
    decreases es, 0
  {
    if es == [] then []
    else
      var e := es[0];
      assert e.val < e;
      [Entry(e.key, AsRead(c, e.val))] + EntriesAsRead(c, es[1..])
  }
}
