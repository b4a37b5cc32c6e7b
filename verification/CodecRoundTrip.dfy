/** Reading inverts writing, for every lawful codec and every value tree with its metadata. */
module CodecRoundTrip {
  import opened ByteStrings
  import opened RpcValues
  import opened Codecs

  lemma SkipSep(c: Codec, first: bool, lay: Layout, s: Bytes)
    requires Lawful(c)
    ensures Read(c, c.sep(first, lay) + s) == Read(c, s)
    ensures Read(c, c.keySep + s) == Read(c, s)
  {
    assert SepLaw(c, first, lay, s);
  }

  lemma ReadEnd(c: Codec, k: Kind, lay: Layout, s: Bytes)
    requires Lawful(c)
    ensures Read(c, c.end(k, lay) + s) == Got(Value([], Invalid), true, s)
  {
    assert EndLaw(c, k, lay, s);
  }

  lemma ReadLeaf(c: Codec, b: Body, meta: seq<Entry>, s: Bytes)
    requires Lawful(c) && c.accepts(b) && c.ends(s)
    ensures ReadItem(c, meta, c.leaf(b) + s) == Got(Value(meta, c.kept(b)), false, s)
    ensures meta == [] ==> Read(c, c.leaf(b) + s) == Got(Value([], c.kept(b)), false, s)
  {
    assert LeafLaw(c, b, s);
    assert !c.kept(b).Invalid?;
  }

  /** The bytes of a body start a value, not metadata. */
  lemma BodyStartsValue(c: Codec, b: Body, nest: nat, s: Bytes)
    requires Lawful(c) && WritableBody(c, b) && c.ends(s)
    ensures c.peek(WriteBody(c, b, nest) + s) == AtValue(WriteBody(c, b, nest) + s)
  {
    match b
    case List(vs) => ContainerStarts(c, ListKind, WriteBody(c, b, nest), s);
    case Map(es) => ContainerStarts(c, MapKind, WriteBody(c, b, nest), s);
    case IMap(es) => ContainerStarts(c, IMapKind, WriteBody(c, b, nest), s);
    case Invalid => assert LeafLaw(c, Null, s);
    case _ => assert LeafLaw(c, b, s);
  }

  lemma ContainerStarts(c: Codec, k: Kind, text: Bytes, s: Bytes)
    requires Lawful(c) && k != MetaKind && c.begin(k) <= text
    ensures c.peek(text + s) == AtValue(text + s)
    ensures c.lex(text + s) == Lexed(Begin(k), text[|c.begin(k)|..] + s)
  {
    var tail := text[|c.begin(k)|..] + s;
    assert text + s == c.begin(k) + tail;
    assert BeginLaw(c, k, tail);
  }

  /** The reader of a value with metadata stands before its entries. */
  lemma MetaInFront(c: Codec, v: Value, nest: nat, rest: Bytes, inner: Bytes)
    requires Lawful(c) && v.meta != []
    requires var lay := Layout(nest + 1, OneLineMap(v.meta));
      inner == WriteEntries(c, v.meta, lay, true) +
               (c.end(MetaKind, Layout(nest, lay.oneLine)) + (WriteBody(c, v.body, nest) + rest))
    ensures c.peek(Write(c, v, nest) + rest) == AtMeta(inner)
  {
    assert Write(c, v, nest) + rest == c.begin(MetaKind) + inner;
    assert BeginLaw(c, MetaKind, inner);
  }

  lemma {:induction false} ValueRoundTrip(c: Codec, v: Value, nest: nat, rest: Bytes)
    requires Lawful(c) && Writable(c, v) && c.ends(rest)
    ensures Read(c, Write(c, v, nest) + rest) == Got(AsRead(c, v), false, rest)
    decreases v, 2
  {
    var body := WriteBody(c, v.body, nest);
    if v.meta == [] {
      assert Write(c, v, nest) + rest == body + rest;
      BodyStartsValue(c, v.body, nest, rest);
      BodyRoundTrip(c, v.body, nest, [], rest);
    } else {
      var lay := Layout(nest + 1, OneLineMap(v.meta));
      var inner := WriteEntries(c, v.meta, lay, true) + (c.end(MetaKind, Layout(nest, lay.oneLine)) + (body + rest));
      MetaInFront(c, v, nest, rest, inner);
      EntriesRoundTrip(c, MetaKind, v.meta, lay, true, [], Layout(nest, lay.oneLine), body + rest);
      BodyRoundTrip(c, v.body, nest, EntriesAsRead(c, v.meta), rest);
      assert [] + EntriesAsRead(c, v.meta) == EntriesAsRead(c, v.meta);
    }
  }

  lemma {:induction false} BodyRoundTrip(c: Codec, b: Body, nest: nat, meta: seq<Entry>, rest: Bytes)
    requires Lawful(c) && WritableBody(c, b) && c.ends(rest)
    ensures ReadItem(c, meta, WriteBody(c, b, nest) + rest) == Got(Value(meta, BodyAsRead(c, b)), false, rest)
    decreases b, 1
  {
    match b
    case List(vs) =>
      var lay := Layout(nest + 1, OneLineList(vs));
      var outer := Layout(nest, lay.oneLine);
      ContainerStarts(c, ListKind, WriteBody(c, b, nest), rest);
      ListRoundTrip(c, vs, lay, true, [], outer, rest);
      assert [] + ListAsRead(c, vs) == ListAsRead(c, vs);
      Reassociate(c.begin(ListKind), WriteList(c, vs, lay, true), c.end(ListKind, outer), rest);
    case Map(es) =>
      MapRoundTrip(c, MapKind, b, nest, meta, rest);
    case IMap(es) =>
      MapRoundTrip(c, IMapKind, b, nest, meta, rest);
    case Invalid => ReadLeaf(c, Null, meta, rest);
    case _ => ReadLeaf(c, b, meta, rest);
  }

  lemma Reassociate(a: Bytes, x: Bytes, e: Bytes, rest: Bytes)
    ensures (a + x + e)[|a|..] + rest == x + (e + rest)
  {
  }

  function MapBody(kind: Kind, es: seq<Entry>): Body { if kind == MapKind then Map(es) else IMap(es) }

  lemma ReadMapItem(c: Codec, kind: Kind, meta: seq<Entry>, text: Bytes, inner: Bytes, es: seq<Entry>, rest: Bytes)
    requires (kind == MapKind || kind == IMapKind) && c.lex(text) == Lexed(Begin(kind), inner)
    requires ReadEntries(c, kind, inner, []) == GotEntries(es, rest)
    ensures ReadItem(c, meta, text) == Got(Value(meta, MapBody(kind, es)), false, rest)
  {
  }

  lemma {:induction false} MapRoundTrip(c: Codec, kind: Kind, b: Body, nest: nat, meta: seq<Entry>, rest: Bytes)
    requires Lawful(c) && WritableBody(c, b) && c.ends(rest)
    requires (kind == MapKind && b.Map?) || (kind == IMapKind && b.IMap?)
    ensures ReadItem(c, meta, WriteBody(c, b, nest) + rest) == Got(Value(meta, BodyAsRead(c, b)), false, rest)
    decreases b, 0
  {
    var lay := Layout(nest + 1, OneLineMap(b.entries));
    var outer := Layout(nest, lay.oneLine);
    var inner := WriteEntries(c, b.entries, lay, true) + (c.end(kind, outer) + rest);
    ContainerStarts(c, kind, WriteBody(c, b, nest), rest);
    EntriesRoundTrip(c, kind, b.entries, lay, true, [], outer, rest);
    assert [] + EntriesAsRead(c, b.entries) == EntriesAsRead(c, b.entries);
    Reassociate(c.begin(kind), WriteEntries(c, b.entries, lay, true), c.end(kind, outer), rest);
    ReadMapItem(c, kind, meta, WriteBody(c, b, nest) + rest, inner, EntriesAsRead(c, b.entries), rest);
  }

  lemma {:induction false} ListRoundTrip(
    c: Codec, vs: seq<Value>, lay: Layout, first: bool, acc: seq<Value>, outer: Layout, rest: Bytes)
    requires Lawful(c) && WritableList(c, vs)
    ensures ReadList(c, WriteList(c, vs, lay, first) + (c.end(ListKind, outer) + rest), acc)
         == GotList(acc + ListAsRead(c, vs), rest)
    decreases vs, 0
  {
    var tail := c.end(ListKind, outer) + rest;
    if vs == [] {
      assert WriteList(c, vs, lay, first) + tail == tail;
      ReadEnd(c, ListKind, outer, rest);
      assert acc + ListAsRead(c, vs) == acc;
    } else {
      var v := AsRead(c, vs[0]);
      ListTailEnds(c, vs[1..], lay, outer, rest);
      ValueRoundTrip(c, vs[0], lay.nest, WriteList(c, vs[1..], lay, false) + tail);
      FirstItem(c, vs, lay, first, acc, v, tail);
      ListRoundTrip(c, vs[1..], lay, false, acc + [v], outer, rest);
      FirstItemAsRead(c, vs, acc);
    }
  }

  lemma FirstItemAsRead(c: Codec, vs: seq<Value>, acc: seq<Value>)
    requires vs != []
    ensures acc + [AsRead(c, vs[0])] + ListAsRead(c, vs[1..]) == acc + ListAsRead(c, vs)
  {
  }

  /** The first item is read, and the reader stands before the others. */
  lemma FirstItem(c: Codec, vs: seq<Value>, lay: Layout, first: bool, acc: seq<Value>, v: Value, tail: Bytes)
    requires Lawful(c) && vs != []
    requires var next := WriteList(c, vs[1..], lay, false) + tail;
      Read(c, Write(c, vs[0], lay.nest) + next) == Got(v, false, next)
    ensures ReadList(c, WriteList(c, vs, lay, first) + tail, acc)
         == ReadList(c, WriteList(c, vs[1..], lay, false) + tail, acc + [v])
  {
    var text := Write(c, vs[0], lay.nest) + (WriteList(c, vs[1..], lay, false) + tail);
    assert WriteList(c, vs, lay, first) + tail == c.sep(first, lay) + text;
    SkipSep(c, first, lay, text);
  }

  lemma ListTailEnds(c: Codec, vs: seq<Value>, lay: Layout, outer: Layout, rest: Bytes)
    requires Lawful(c)
    ensures c.ends(WriteList(c, vs, lay, false) + (c.end(ListKind, outer) + rest))
  {
    var tail := c.end(ListKind, outer) + rest;
    if vs == [] {
      assert WriteList(c, vs, lay, false) + tail == tail;
      assert EndLaw(c, ListKind, outer, rest);
    } else {
      var text := Write(c, vs[0], lay.nest) + WriteList(c, vs[1..], lay, false) + tail;
      assert WriteList(c, vs, lay, false) + tail == c.sep(false, lay) + text;
      assert SepLaw(c, false, lay, text);
    }
  }

  lemma EntriesTailEnds(c: Codec, kind: Kind, es: seq<Entry>, lay: Layout, outer: Layout, rest: Bytes)
    requires Lawful(c)
    ensures c.ends(WriteEntries(c, es, lay, false) + (c.end(kind, outer) + rest))
  {
    var tail := c.end(kind, outer) + rest;
    if es == [] {
      assert WriteEntries(c, es, lay, false) + tail == tail;
      assert EndLaw(c, kind, outer, rest);
    } else {
      var text := c.leaf(KeyBody(es[0].key)) + c.keySep + Write(c, es[0].val, lay.nest)
        + WriteEntries(c, es[1..], lay, false) + tail;
      assert WriteEntries(c, es, lay, false) + tail == c.sep(false, lay) + text;
      assert SepLaw(c, false, lay, text);
    }
  }

  /** A written key reads back as itself. */
  lemma KeyRoundTrip(c: Codec, kind: Kind, key: Key, s: Bytes)
    requires Lawful(c) && kind != ListKind && KeyFits(c, kind, key)
    ensures Read(c, c.leaf(KeyBody(key)) + (c.keySep + s)) == Got(Value([], KeyBody(key)), false, c.keySep + s)
    ensures KeyFrom(c, kind, KeyBody(key)) == Some(key)
  {
    assert SepLaw(c, true, Layout(0, true), s);
    ReadLeaf(c, KeyBody(key), [], c.keySep + s);
  }

  lemma EntryText(sep: Bytes, key: Bytes, keySep: Bytes, val: Bytes, more: Bytes, tail: Bytes)
    ensures sep + key + keySep + val + more + tail == sep + (key + (keySep + (val + (more + tail))))
  {
  }

  /** One key and value move the reader on by one stored entry. */
  lemma EntryStep(
    c: Codec, kind: Kind, key: Key, v: Value, lay: Layout, first: bool, acc: seq<Entry>, text: Bytes, next: Bytes)
    requires Lawful(c) && kind != ListKind && KeyFits(c, kind, key) && !v.body.Invalid?
    requires Read(c, text) == Got(v, false, next)
    requires forall a | a in acc :: KeyLess(a.key, key)
    ensures ReadEntries(c, kind, c.sep(first, lay) + (c.leaf(KeyBody(key)) + (c.keySep + text)), acc)
         == ReadEntries(c, kind, next, acc + [Entry(key, v)])
  {
    SkipSep(c, first, lay, c.leaf(KeyBody(key)) + (c.keySep + text));
    KeyRoundTrip(c, kind, key, text);
    SkipSep(c, first, lay, text);
    InsertAtEnd(acc, key, v);
  }

  lemma {:induction false} EntriesRoundTrip(
    c: Codec, kind: Kind, es: seq<Entry>, lay: Layout, first: bool, acc: seq<Entry>, outer: Layout, rest: Bytes)
    requires Lawful(c) && kind != ListKind && WritableEntries(c, kind, es)
    requires forall a, e | a in acc && e in es :: KeyLess(a.key, e.key)
    ensures ReadEntries(c, kind, WriteEntries(c, es, lay, first) + (c.end(kind, outer) + rest), acc)
         == GotEntries(acc + EntriesAsRead(c, es), rest)
    decreases es, 0
  {
    var tail := c.end(kind, outer) + rest;
    if es == [] {
      assert WriteEntries(c, es, lay, first) + tail == tail;
      ReadEnd(c, kind, outer, rest);
      assert acc + EntriesAsRead(c, es) == acc;
    } else {
      var e := es[0];
      assert e in es && e.val < e;
      var v := AsRead(c, e.val);
      EntriesTailEnds(c, kind, es[1..], lay, outer, rest);
      ValueRoundTrip(c, e.val, lay.nest, WriteEntries(c, es[1..], lay, false) + tail);
      FirstEntry(c, kind, es, lay, first, acc, v, tail);
      EntriesRoundTripTail(c, kind, es, lay, acc, v, outer, rest);
      FirstAsRead(c, es, acc);
    }
  }

  lemma FirstAsRead(c: Codec, es: seq<Entry>, acc: seq<Entry>)
    requires es != []
    ensures acc + [Entry(es[0].key, AsRead(c, es[0].val))] + EntriesAsRead(c, es[1..]) == acc + EntriesAsRead(c, es)
  {
  }

  /** The first entry is read, and the reader stands before the others. */
  lemma FirstEntry(
    c: Codec, kind: Kind, es: seq<Entry>, lay: Layout, first: bool, acc: seq<Entry>, v: Value, tail: Bytes)
    requires Lawful(c) && kind != ListKind && WritableEntries(c, kind, es) && es != [] && v == AsRead(c, es[0].val)
    requires forall a | a in acc :: KeyLess(a.key, es[0].key)
    requires var next := WriteEntries(c, es[1..], lay, false) + tail;
      Read(c, Write(c, es[0].val, lay.nest) + next) == Got(v, false, next)
    ensures ReadEntries(c, kind, WriteEntries(c, es, lay, first) + tail, acc)
         == ReadEntries(c, kind, WriteEntries(c, es[1..], lay, false) + tail, acc + [Entry(es[0].key, v)])
  {
    var e, next := es[0], WriteEntries(c, es[1..], lay, false) + tail;
    AsReadIsValid(c, e.val);
    EntryStep(c, kind, e.key, v, lay, first, acc, Write(c, e.val, lay.nest) + next, next);
    EntryText(c.sep(first, lay), c.leaf(KeyBody(e.key)), c.keySep, Write(c, e.val, lay.nest),
      WriteEntries(c, es[1..], lay, false), tail);
  }

  lemma {:induction false} EntriesRoundTripTail(
    c: Codec, kind: Kind, es: seq<Entry>, lay: Layout, acc: seq<Entry>, v: Value, outer: Layout, rest: Bytes)
    requires Lawful(c) && kind != ListKind && WritableEntries(c, kind, es) && es != []
    requires forall a, e | a in acc && e in es :: KeyLess(a.key, e.key)
    ensures ReadEntries(c, kind, WriteEntries(c, es[1..], lay, false) + (c.end(kind, outer) + rest),
                        acc + [Entry(es[0].key, v)])
         == GotEntries(acc + [Entry(es[0].key, v)] + EntriesAsRead(c, es[1..]), rest)
    decreases es[1..], 1
  {
    assert forall x | x in es[1..] :: x in es && KeyLess(es[0].key, x.key);
    EntriesRoundTrip(c, kind, es[1..], lay, false, acc + [Entry(es[0].key, v)], outer, rest);
  }

  lemma AsReadIsValid(c: Codec, v: Value)
    requires Lawful(c) && Writable(c, v)
    ensures !AsRead(c, v).body.Invalid?
  {
  }
}
