/**
 `readPath`: walking a list of keys through encoded maps, imaps and lists without building
 the values on the way, against full decoding followed by a walk over the decoded tree.
 */
module CodecPath {
  import opened ByteStrings
  import opened RpcValues
  import opened Codecs
  import opened CodecRoundTrip
  import DecimalDigits

  datatype PathResult = PathError | NotFound | Found(val: Value)

  /** Where the value for a key starts inside an open container. */
  datatype Located = ScanError | Missing | At(rest: Bytes)

  predicate AtEnd(c: Codec, s: Bytes)
  {
    c.lex(s).Lexed? && c.lex(s).item == End
  }

  /** The inner loop of `readPath`. */
  function Scan(c: Codec, kind: Kind, key: Bytes, s: Bytes, index: nat): (r: Located)
    ensures r.At? ==> |r.rest| <= |s|
    decreases |s|
  {
    if AtEnd(c, s) then Missing
    else if kind == ListKind then
      if DecimalDigits.ToString(index) == key then At(s)
      else
        var skipped := Read(c, s);
        if skipped.Fail? then ScanError else Scan(c, kind, key, skipped.rest, index + 1)
    else
      var k := Read(c, s);
      if k.Fail? then ScanError
      else if kind != MapKind && ToInt(c, k.val.body).None? then ScanError
      else if key ==
        if kind == MapKind then AsString(k.val.body) else DecimalDigits.ToString(ToInt(c, k.val.body).value)
      then At(k.rest)
      else
        var skipped := Read(c, k.rest);
        if skipped.Fail? then ScanError else Scan(c, kind, key, skipped.rest, index)
  }

  /** Skips metadata and opens the container of one path step. */
  function Open(c: Codec, s: Bytes): (r: Lexed)
    ensures r.Lexed? ==> |r.rest| < |s|
  {
    match c.peek(s)
    case PeekError => LexError
    case AtMeta(r) =>
      var m := ReadEntries(c, MetaKind, r, []);
      if m.EntriesFail? then LexError else c.lex(m.rest)
    case AtValue(r) => c.lex(r)
  }

  function ReadPath(c: Codec, keys: seq<Bytes>, s: Bytes): PathResult
    decreases |keys|
  {
    if keys == [] then
      var g := Read(c, s);
      if g.Fail? then PathError else Found(g.val)
    else
      match Open(c, s)
      case LexError => PathError
      case Lexed(item, r) =>
        if !item.Begin? || item.kind == MetaKind then NotFound
        else
          match Scan(c, item.kind, keys[0], r, 0)
          case ScanError => PathError
          case Missing => NotFound
          case At(at) => ReadPath(c, keys[1..], at)
  }

  // ---------------------------------------------------------------- reference: walk the decoded tree

  function FindItem(vs: seq<Value>, key: Bytes, index: nat): Option<Value>
  {
    if vs == [] then None
    else if DecimalDigits.ToString(index) == key then Some(vs[0])
    else FindItem(vs[1..], key, index + 1)
  }

  function KeyText(k: Key): Bytes { if k.SKey? then k.s else DecimalDigits.ToString(k.i) }

  function FindEntry(es: seq<Entry>, key: Bytes): Option<Value>
  {
    if es == [] then None
    else if KeyText(es[0].key) == key then Some(es[0].val)
    else FindEntry(es[1..], key)
  }

  function Child(v: Value, key: Bytes): Option<Value>
  {
    match v.body
    case List(vs) => FindItem(vs, key, 0)
    case Map(es) => FindEntry(es, key)
    case IMap(es) => FindEntry(es, key)
    case _ => None
  }

  function Walk(v: Value, keys: seq<Bytes>): Option<Value>
    decreases |keys|
  {
    if keys == [] then Some(v)
    else
      var child := Child(v, keys[0]);
      if child.None? then None else Walk(child.value, keys[1..])
  }

  /** A list step finds exactly the element whose index prints as the key. */
  lemma {:induction false} FindItemMeans(vs: seq<Value>, key: Bytes, index: nat, i: nat)
    requires i < |vs| && DecimalDigits.ToString(index + i) == key
    ensures FindItem(vs, key, index) == Some(vs[i])
  {
    if DecimalDigits.ToString(index) == key {
      DecimalDigits.ToStringIsInjective(index, index + i);
    } else if i > 0 {
      FindItemMeans(vs[1..], key, index + 1, i - 1);
    }
  }

  /** And nothing where no element has that index. */
  lemma {:induction false} FindItemMisses(vs: seq<Value>, key: Bytes, index: nat)
    requires forall n | index <= n < index + |vs| :: DecimalDigits.ToString(n) != key
    ensures FindItem(vs, key, index) == None
  {
    if vs != [] {
      FindItemMisses(vs[1..], key, index + 1);
    }
  }

  lemma {:induction false} FindEntryMisses(es: seq<Entry>, key: Bytes)
    requires forall i | 0 <= i < |es| :: KeyText(es[i].key) != key
    ensures FindEntry(es, key) == None
  {
    if es != [] {
      FindEntryMisses(es[1..], key);
    }
  }

  /** A map step finds exactly the entry with that key. */
  lemma {:induction false} FindEntryMeans(es: seq<Entry>, key: Bytes, i: nat)
    requires Sorted(es) && i < |es| && KeyText(es[i].key) == key
    requires (forall e | e in es :: e.key.SKey?) || (forall e | e in es :: e.key.IKey?)
    ensures FindEntry(es, key) == Some(es[i].val)
  {
    if i > 0 {
      assert es[0] in es && es[i] in es;
      KeyLessIsAsymmetric(es[0].key, es[i].key);
      if KeyText(es[0].key) == key && es[0].key.IKey? {
        DecimalDigits.ToStringIsInjective(es[0].key.i, es[i].key.i);
      }
      assert forall e | e in es[1..] :: e in es;
      FindEntryMeans(es[1..], key, i - 1);
    }
  }

  // ---------------------------------------------------------------- agreement

  /** A written value does not start with an end item. */
  lemma ValueIsNotEnd(c: Codec, v: Value, nest: nat, s: Bytes)
    requires Lawful(c) && NoEndInFront(c) && Writable(c, v) && c.ends(s)
    ensures !AtEnd(c, Write(c, v, nest) + s)
  {
    if v.meta == [] {
      assert Write(c, v, nest) + s == WriteBody(c, v.body, nest) + s;
      BodyStartsValue(c, v.body, nest, s);
      BodyRoundTrip(c, v.body, nest, [], s);
    } else {
      var meta, body := WriteMeta(c, v, nest), WriteBody(c, v.body, nest);
      assert c.begin(MetaKind) <= meta;
      var text := meta[|c.begin(MetaKind)|..] + (body + s);
      Regroup(c.begin(MetaKind), meta[|c.begin(MetaKind)|..], body, s);
      assert Write(c, v, nest) + s == c.begin(MetaKind) + text;
      assert !AtEnd(c, c.begin(MetaKind) + text);
    }
  }

  /** Formats without separators: an item starts right where the previous one stopped. */
  ghost predicate NoEndInFront(c: Codec)
  {
    && (forall s: Bytes :: !AtEnd(c, c.begin(MetaKind) + s))
    && (forall first: bool, lay: Layout :: c.sep(first, lay) == [])
    && c.keySep == []
    && (forall k: Kind, lay: Layout, s: Bytes :: AtEnd(c, c.end(k, lay) + s))
  }

  lemma ScanFirstItem(
    c: Codec, vs: seq<Value>, key: Bytes, index: nat, lay: Layout, first: bool, outer: Layout, rest: Bytes)
    requires Lawful(c) && NoEndInFront(c) && WritableList(c, vs) && vs != []
    ensures var tail := c.end(ListKind, outer) + rest;
      var next := WriteList(c, vs[1..], lay, false) + tail;
      && c.ends(next)
      && Scan(c, ListKind, key, WriteList(c, vs, lay, first) + tail, index)
         == if DecimalDigits.ToString(index) == key then At(Write(c, vs[0], lay.nest) + next)
            else Scan(c, ListKind, key, next, index + 1)
  {
    var tail := c.end(ListKind, outer) + rest;
    var next := WriteList(c, vs[1..], lay, false) + tail;
    assert c.sep(first, lay) == [];
    assert WriteList(c, vs, lay, first) + tail == Write(c, vs[0], lay.nest) + next;
    ListTailEnds(c, vs[1..], lay, outer, rest);
    ValueIsNotEnd(c, vs[0], lay.nest, next);
    ValueRoundTrip(c, vs[0], lay.nest, next);
  }

  lemma {:induction false} ScanList(
    c: Codec, vs: seq<Value>, key: Bytes, index: nat, lay: Layout, first: bool, outer: Layout, rest: Bytes)
    returns (i: nat, after: Bytes)
    requires Lawful(c) && NoEndInFront(c) && WritableList(c, vs)
    ensures i <= |vs|
    ensures var text := WriteList(c, vs, lay, first) + (c.end(ListKind, outer) + rest);
      var found := FindItem(ListAsRead(c, vs), key, index);
      if i == |vs| then Scan(c, ListKind, key, text, index) == Missing && found == None
      else
        && found == Some(AsRead(c, vs[i]))
        && c.ends(after) && Scan(c, ListKind, key, text, index) == At(Write(c, vs[i], lay.nest) + after)
    decreases |vs|
  {
    var tail := c.end(ListKind, outer) + rest;
    if vs == [] {
      assert WriteList(c, vs, lay, first) + tail == tail;
      i, after := 0, [];
    } else {
      var next := WriteList(c, vs[1..], lay, false) + tail;
      ScanFirstItem(c, vs, key, index, lay, first, outer, rest);
      assert ListAsRead(c, vs)[1..] == ListAsRead(c, vs[1..]);
      if DecimalDigits.ToString(index) == key {
        i, after := 0, next;
      } else {
        i, after := ScanList(c, vs[1..], key, index + 1, lay, false, outer, rest);
        i := i + 1;
      }
    }
  }

  /** One entry of a map either is the requested one or is skipped with its value. */
  lemma ScanStep(c: Codec, kind: Kind, key: Bytes, k: Key, text: Bytes, v: Value, next: Bytes)
    requires Lawful(c) && NoEndInFront(c) && (kind == MapKind || kind == IMapKind) && KeyFits(c, kind, k)
    requires Read(c, text) == Got(v, false, next)
    ensures Scan(c, kind, key, c.leaf(KeyBody(k)) + text, 0)
         == if KeyText(k) == key then At(text) else Scan(c, kind, key, next, 0)
  {
    assert c.keySep + text == text;
    KeyIsNotEnd(c, kind, k, text);
    KeyRoundTrip(c, kind, k, text);
  }

  lemma ScanFirstEntry(
    c: Codec, kind: Kind, es: seq<Entry>, key: Bytes, lay: Layout, first: bool, outer: Layout, rest: Bytes)
    requires Lawful(c) && NoEndInFront(c) && (kind == MapKind || kind == IMapKind) && WritableInAnyOrder(c, kind, es)
    requires es != []
    ensures var tail := c.end(kind, outer) + rest;
      var next := WriteEntries(c, es[1..], lay, false) + tail;
      && c.ends(next)
      && Scan(c, kind, key, WriteEntries(c, es, lay, first) + tail, 0)
         == if KeyText(es[0].key) == key then At(Write(c, es[0].val, lay.nest) + next) else Scan(c, kind, key, next, 0)
  {
    var e, tail := es[0], c.end(kind, outer) + rest;
    var next := WriteEntries(c, es[1..], lay, false) + tail;
    EntriesTailEnds(c, kind, es[1..], lay, outer, rest);
    ValueRoundTrip(c, e.val, lay.nest, next);
    ScanStep(c, kind, key, e.key, Write(c, e.val, lay.nest) + next, AsRead(c, e.val), next);
    UnseparatedEntry(c, es, lay, first, tail);
  }

  /** The scan of the entries stops behind key `i`, or finds nothing, as the look-up in the entries does. */
  ghost predicate ScansTo(c: Codec, kind: Kind, es: seq<Entry>, key: Bytes, lay: Layout, text: Bytes, i: nat,
                          after: Bytes)
  {
    var found := FindEntry(EntriesAsRead(c, es), key);
    && i <= |es|
    && if i == |es| then Scan(c, kind, key, text, 0) == Missing && found == None
       else
         && found == Some(AsRead(c, es[i].val))
         && c.ends(after) && Scan(c, kind, key, text, 0) == At(Write(c, es[i].val, lay.nest) + after)
  }

  lemma ScansLater(c: Codec, kind: Kind, es: seq<Entry>, key: Bytes, lay: Layout, text: Bytes, next: Bytes, i: nat,
                   after: Bytes)
    requires es != [] && KeyText(es[0].key) != key && ScansTo(c, kind, es[1..], key, lay, next, i, after)
    requires Scan(c, kind, key, text, 0) == Scan(c, kind, key, next, 0)
    ensures ScansTo(c, kind, es, key, lay, text, i + 1, after)
  {
    assert EntriesAsRead(c, es)[1..] == EntriesAsRead(c, es[1..]);
  }

  lemma {:induction false} ScanEntries(
    c: Codec, kind: Kind, es: seq<Entry>, key: Bytes, lay: Layout, first: bool, outer: Layout, rest: Bytes)
    returns (i: nat, after: Bytes)
    requires Lawful(c) && NoEndInFront(c) && (kind == MapKind || kind == IMapKind) && WritableInAnyOrder(c, kind, es)
    ensures ScansTo(c, kind, es, key, lay, WriteEntries(c, es, lay, first) + (c.end(kind, outer) + rest), i, after)
    decreases |es|
  {
    var tail := c.end(kind, outer) + rest;
    if es == [] {
      assert WriteEntries(c, es, lay, first) + tail == tail;
      i, after := 0, [];
    } else {
      ScanFirstEntry(c, kind, es, key, lay, first, outer, rest);
      var next := WriteEntries(c, es[1..], lay, false) + tail;
      if KeyText(es[0].key) == key {
        i, after := 0, next;
      } else {
        var k, left := ScanEntries(c, kind, es[1..], key, lay, false, outer, rest);
        ScansLater(c, kind, es, key, lay, WriteEntries(c, es, lay, first) + tail, next, k, left);
        i, after := k + 1, left;
      }
    }
  }

  lemma UnseparatedEntry(c: Codec, es: seq<Entry>, lay: Layout, first: bool, tail: Bytes)
    requires es != [] && c.sep(first, lay) == [] && c.keySep == []
    ensures WriteEntries(c, es, lay, first) + tail
         == c.leaf(KeyBody(es[0].key)) + (Write(c, es[0].val, lay.nest) + (WriteEntries(c, es[1..], lay, false) + tail))
  {
  }

  lemma KeyIsNotEnd(c: Codec, kind: Kind, key: Key, s: Bytes)
    requires Lawful(c) && NoEndInFront(c) && kind != ListKind && KeyFits(c, kind, key)
    ensures !AtEnd(c, c.leaf(KeyBody(key)) + (c.keySep + s))
  {
    assert SepLaw(c, true, Layout(0, true), s);
    assert LeafLaw(c, KeyBody(key), c.keySep + s);
  }

  /** `readPath` on the encoding of a tree gives what decoding the tree and walking it gives. */
  lemma {:induction false} ReadPathAgrees(c: Codec, v: Value, keys: seq<Bytes>, nest: nat, rest: Bytes)
    requires Lawful(c) && NoEndInFront(c) && Writable(c, v) && c.ends(rest)
    ensures ReadPath(c, keys, Write(c, v, nest) + rest)
         == var w := Walk(AsRead(c, v), keys); if w.None? then NotFound else Found(w.value)
    decreases |keys|
  {
    ValueRoundTrip(c, v, nest, rest);
    if keys != [] {
      OpenWritten(c, v, nest, rest);
      match v.body
      case List(vs) => ReadPathThroughList(c, v, keys, nest, rest);
      case Map(es) => ReadPathThroughMap(c, MapKind, v, keys, nest, rest);
      case IMap(es) => ReadPathThroughMap(c, IMapKind, v, keys, nest, rest);
      case Invalid => assert LeafLaw(c, Null, rest);
      case _ => assert LeafLaw(c, v.body, rest);
    }
  }

  /** Opening a written value skips its metadata and lexes its body. */
  lemma OpenWritten(c: Codec, v: Value, nest: nat, rest: Bytes)
    requires Lawful(c) && Writable(c, v) && c.ends(rest)
    ensures Open(c, Write(c, v, nest) + rest) == c.lex(WriteBody(c, v.body, nest) + rest)
  {
    var body := WriteBody(c, v.body, nest);
    if v.meta == [] {
      assert Write(c, v, nest) + rest == body + rest;
      BodyStartsValue(c, v.body, nest, rest);
    } else {
      var lay := Layout(nest + 1, OneLineMap(v.meta));
      var entries, end := WriteEntries(c, v.meta, lay, true), c.end(MetaKind, Layout(nest, lay.oneLine));
      var inner := entries + (end + (body + rest));
      assert Write(c, v, nest) + rest == c.begin(MetaKind) + inner;
      assert BeginLaw(c, MetaKind, inner);
      EntriesRoundTrip(c, MetaKind, v.meta, lay, true, [], Layout(nest, lay.oneLine), body + rest);
    }
  }

  lemma OpenWrittenMap(c: Codec, kind: Kind, v: Value, nest: nat, rest: Bytes)
    requires Lawful(c) && Writable(c, v) && c.ends(rest)
    requires (kind == MapKind && v.body.Map?) || (kind == IMapKind && v.body.IMap?)
    ensures WritableEntries(c, kind, v.body.entries)
    ensures var oneLine := OneLineMap(v.body.entries);
      Open(c, Write(c, v, nest) + rest) == Lexed(Begin(kind),
        WriteEntries(c, v.body.entries, Layout(nest + 1, oneLine), true) + (c.end(kind, Layout(nest, oneLine)) + rest))
  {
    OpenWritten(c, v, nest, rest);
    var lay := Layout(nest + 1, OneLineMap(v.body.entries));
    ContainerStarts(c, kind, WriteBody(c, v.body, nest), rest);
    Reassociate(c.begin(kind), WriteEntries(c, v.body.entries, lay, true), c.end(kind, Layout(nest, lay.oneLine)),
      rest);
  }

  lemma ChildOfMap(c: Codec, v: Value, key: Bytes)
    requires v.body.Map? || v.body.IMap?
    ensures Child(AsRead(c, v), key) == FindEntry(EntriesAsRead(c, v.body.entries), key)
  {
  }

  /** One step of a path: where the scan stops decides. */
  lemma PathStep(c: Codec, kind: Kind, keys: seq<Bytes>, text: Bytes, inner: Bytes)
    requires keys != [] && kind != MetaKind && Open(c, text) == Lexed(Begin(kind), inner)
    ensures match Scan(c, kind, keys[0], inner, 0)
            case ScanError => ReadPath(c, keys, text) == PathError
            case Missing => ReadPath(c, keys, text) == NotFound
            case At(r) => ReadPath(c, keys, text) == ReadPath(c, keys[1..], r)
  {
  }

  lemma {:induction false} ReadPathThroughMap(c: Codec, kind: Kind, v: Value, keys: seq<Bytes>, nest: nat, rest: Bytes)
    requires Lawful(c) && NoEndInFront(c) && Writable(c, v) && c.ends(rest) && keys != []
    requires (kind == MapKind && v.body.Map?) || (kind == IMapKind && v.body.IMap?)
    ensures ReadPath(c, keys, Write(c, v, nest) + rest)
         == var w := Walk(AsRead(c, v), keys); if w.None? then NotFound else Found(w.value)
    decreases |keys|, 0
  {
    OpenWrittenMap(c, kind, v, nest, rest);
    var es := v.body.entries;
    var lay, outer := Layout(nest + 1, OneLineMap(es)), Layout(nest, OneLineMap(es));
    var inner := WriteEntries(c, es, lay, true) + (c.end(kind, outer) + rest);
    PathStep(c, kind, keys, Write(c, v, nest) + rest, inner);
    var i, after := ScanEntries(c, kind, es, keys[0], lay, true, outer, rest);
    ChildOfMap(c, v, keys[0]);
    if i < |es| {
      ReadPathAgrees(c, es[i].val, keys[1..], lay.nest, after);
    }
  }

  lemma OpenWrittenList(c: Codec, v: Value, nest: nat, rest: Bytes)
    requires Lawful(c) && Writable(c, v) && c.ends(rest) && v.body.List?
    ensures var oneLine := OneLineList(v.body.items);
      Open(c, Write(c, v, nest) + rest) == Lexed(Begin(ListKind),
        WriteList(c, v.body.items, Layout(nest + 1, oneLine), true) + (c.end(ListKind, Layout(nest, oneLine)) + rest))
  {
    OpenWritten(c, v, nest, rest);
    var lay := Layout(nest + 1, OneLineList(v.body.items));
    ContainerStarts(c, ListKind, WriteBody(c, v.body, nest), rest);
    Reassociate(c.begin(ListKind), WriteList(c, v.body.items, lay, true), c.end(ListKind, Layout(nest, lay.oneLine)),
      rest);
  }

  lemma {:induction false} ReadPathThroughList(c: Codec, v: Value, keys: seq<Bytes>, nest: nat, rest: Bytes)
    requires Lawful(c) && NoEndInFront(c) && Writable(c, v) && c.ends(rest) && keys != [] && v.body.List?
    ensures ReadPath(c, keys, Write(c, v, nest) + rest)
         == var w := Walk(AsRead(c, v), keys); if w.None? then NotFound else Found(w.value)
    decreases |keys|, 0
  {
    OpenWrittenList(c, v, nest, rest);
    var vs := v.body.items;
    var lay, outer := Layout(nest + 1, OneLineList(vs)), Layout(nest, OneLineList(vs));
    var inner := WriteList(c, vs, lay, true) + (c.end(ListKind, outer) + rest);
    PathStep(c, ListKind, keys, Write(c, v, nest) + rest, inner);
    var i, after := ScanList(c, vs, keys[0], 0, lay, true, outer, rest);
    if i < |vs| {
      ReadPathAgrees(c, vs[i], keys[1..], lay.nest, after);
    }
  }
}
