/**
 What is read from any input: keys in any order and with repetitions give an ordered map with the last value of each,
 and every value that is read is ordered throughout.
 */
module MapReading {
  import opened ByteStrings
  import opened RpcValues
  import opened Codecs
  import opened CodecRoundTrip
  import opened CodecPath

  // ---------------------------------------------------------------- the entries that are met

  /** From `s` on, exactly these keys and values are read, one after the other, and then the end of their container. */
  ghost predicate Meets(c: Codec, kind: Kind, s: Bytes, pairs: seq<Entry>, rest: Bytes)
    decreases |pairs|
  {
    var k := Read(c, s);
    && k.Got? && k.end == (pairs == [])
    && if k.end then rest == k.rest
       else
         var v := Read(c, k.rest);
         && v.Got? && pairs[0].val == v.val && KeyFrom(c, kind, k.val.body) == Some(pairs[0].key)
         && Meets(c, kind, v.rest, pairs[1..], rest)
  }

  /** The value that was given last for a key; an invalid value takes a key of metadata away. */
  function LastGiven(kind: Kind, pairs: seq<Entry>, key: Key): Option<Value>
  {
    if pairs == [] then None
    else
      var last := pairs[|pairs| - 1];
      if last.key != key then LastGiven(kind, pairs[..|pairs| - 1], key)
      else if kind == MetaKind && last.val.body.Invalid? then None
      else Some(last.val)
  }

  /** Whether a key was given at all. */
  predicate Given(pairs: seq<Entry>, key: Key) { exists i | 0 <= i < |pairs| :: pairs[i].key == key }

  /** What a map shows under a key after these entries were stored into it. */
  function Shows(kind: Kind, acc: seq<Entry>, pairs: seq<Entry>, key: Key): Option<Value>
  {
    if Given(pairs, key) then LastGiven(kind, pairs, key) else Lookup(acc, key)
  }

  lemma StoreSets(kind: Kind, acc: seq<Entry>, key: Key, v: Value)
    requires Sorted(acc)
    ensures Sorted(Store(kind, acc, key, v))
    ensures forall k ::
      Lookup(Store(kind, acc, key, v), k) ==
        if k != key then Lookup(acc, k) else if kind == MetaKind && v.body.Invalid? then None else Some(v)
  {
    InsertSets(acc, key, v);
    EraseForgets(acc, key);
  }

  lemma GivenInFront(e: Entry, pairs: seq<Entry>, key: Key)
    ensures Given([e] + pairs, key) <==> e.key == key || Given(pairs, key)
  {
    var all := [e] + pairs;
    assert all[0] == e;
    if Given(pairs, key) {
      var i :| 0 <= i < |pairs| && pairs[i].key == key;
      assert all[i + 1].key == key;
    }
  }

  lemma GivenAtEnd(pairs: seq<Entry>, key: Key)
    requires pairs != []
    ensures Given(pairs, key) <==> pairs[|pairs| - 1].key == key || Given(pairs[..|pairs| - 1], key)
  {
    var older := pairs[..|pairs| - 1];
    if Given(older, key) {
      var i :| 0 <= i < |older| && older[i].key == key;
      assert pairs[i].key == key;
    }
    if Given(pairs, key) && pairs[|pairs| - 1].key != key {
      var i :| 0 <= i < |pairs| && pairs[i].key == key;
      assert older[i].key == key;
    }
  }

  lemma {:induction false} GivenFirst(kind: Kind, e: Entry, pairs: seq<Entry>, key: Key)
    ensures Given([e] + pairs, key) <==> e.key == key || Given(pairs, key)
    ensures LastGiven(kind, [e] + pairs, key) ==
      if Given(pairs, key) || e.key != key then LastGiven(kind, pairs, key)
      else if kind == MetaKind && e.val.body.Invalid? then None else Some(e.val)
    decreases |pairs|
  {
    var all := [e] + pairs;
    GivenInFront(e, pairs, key);
    if pairs == [] {
      assert all[..|all| - 1] == [];
    } else {
      var older := pairs[..|pairs| - 1];
      assert all[..|all| - 1] == [e] + older;
      GivenFirst(kind, e, older, key);
      GivenAtEnd(pairs, key);
    }
  }

  lemma ShowsFirst(kind: Kind, acc: seq<Entry>, e: Entry, pairs: seq<Entry>, key: Key)
    requires Sorted(acc)
    ensures Shows(kind, Store(kind, acc, e.key, e.val), pairs, key) == Shows(kind, acc, [e] + pairs, key)
  {
    StoreSets(kind, acc, e.key, e.val);
    GivenFirst(kind, e, pairs, key);
    if !Given(pairs, key) {
      NeverGiven(kind, pairs, key);
    }
  }

  lemma {:induction false} NeverGiven(kind: Kind, pairs: seq<Entry>, key: Key)
    requires !Given(pairs, key)
    ensures LastGiven(kind, pairs, key) == None
  {
    if pairs != [] {
      NeverGiven(kind, pairs[..|pairs| - 1], key);
    }
  }

  /** The result of storing what is met into a map. */
  ghost predicate Collects(kind: Kind, acc: seq<Entry>, pairs: seq<Entry>, es: seq<Entry>)
  {
    Sorted(es) && forall key :: Lookup(es, key) == Shows(kind, acc, pairs, key)
  }

  lemma CollectsFirst(kind: Kind, acc: seq<Entry>, e: Entry, pairs: seq<Entry>, es: seq<Entry>)
    requires Sorted(acc) && Collects(kind, Store(kind, acc, e.key, e.val), pairs, es)
    ensures Collects(kind, acc, [e] + pairs, es)
  {
    forall key ensures Lookup(es, key) == Shows(kind, acc, [e] + pairs, key) {
      ShowsFirst(kind, acc, e, pairs, key);
    }
  }

  /** Whatever the input, entries that are read are those that were met. */
  lemma {:induction false} EntriesAreMet(c: Codec, kind: Kind, s: Bytes, acc: seq<Entry>) returns (pairs: seq<Entry>)
    requires Sorted(acc) && ReadEntries(c, kind, s, acc).GotEntries?
    ensures var r := ReadEntries(c, kind, s, acc);
      Meets(c, kind, s, pairs, r.rest) && Collects(kind, acc, pairs, r.entries)
    decreases |s|
  {
    var k := Read(c, s);
    if k.end {
      pairs := [];
    } else {
      var v, key := Read(c, k.rest), KeyFrom(c, kind, k.val.body).value;
      var e := Entry(key, v.val);
      StoreSets(kind, acc, key, v.val);
      var more := EntriesAreMet(c, kind, v.rest, Store(kind, acc, key, v.val));
      CollectsFirst(kind, acc, e, more, ReadEntries(c, kind, s, acc).entries);
      pairs := [e] + more;
      assert pairs[1..] == more;
    }
  }

  /** And what can be met is read. */
  lemma {:induction false} MetIsRead(c: Codec, kind: Kind, s: Bytes, acc: seq<Entry>, pairs: seq<Entry>, rest: Bytes)
    requires Sorted(acc) && Meets(c, kind, s, pairs, rest)
    ensures var r := ReadEntries(c, kind, s, acc);
      r.GotEntries? && r.rest == rest && Collects(kind, acc, pairs, r.entries)
    decreases |pairs|
  {
    if pairs != [] {
      var k := Read(c, s);
      var v, e := Read(c, k.rest), pairs[0];
      StoreSets(kind, acc, e.key, e.val);
      MetIsRead(c, kind, v.rest, Store(kind, acc, e.key, e.val), pairs[1..], rest);
      CollectsFirst(kind, acc, e, pairs[1..], ReadEntries(c, kind, s, acc).entries);
      assert [e] + pairs[1..] == pairs;
    }
  }

  /** The entries of a map, an imap or metadata: ordered by key, with the value given last for each key that was met. */
  ghost predicate IsMapOf(kind: Kind, pairs: seq<Entry>, es: seq<Entry>)
  {
    Sorted(es) && forall key :: Lookup(es, key) == LastGiven(kind, pairs, key)
  }

  lemma CollectsNothingElse(kind: Kind, pairs: seq<Entry>, es: seq<Entry>)
    requires Collects(kind, [], pairs, es)
    ensures IsMapOf(kind, pairs, es)
  {
    forall key ensures Lookup(es, key) == LastGiven(kind, pairs, key) {
      if !Given(pairs, key) {
        NeverGiven(kind, pairs, key);
      }
    }
  }

  /** The input is made of keys and values up to the end of their container. */
  ghost predicate HoldsMap(c: Codec, kind: Kind, s: Bytes) { exists pairs, rest :: Meets(c, kind, s, pairs, rest) }

  /** For every input: it is read as a map exactly if it is made of keys and values, and then as the map of those. */
  lemma MapIsReadIff(c: Codec, kind: Kind, s: Bytes)
    ensures ReadEntries(c, kind, s, []).GotEntries? <==> HoldsMap(c, kind, s)
    ensures forall pairs, rest | Meets(c, kind, s, pairs, rest) ::
      var r := ReadEntries(c, kind, s, []); r.GotEntries? && r.rest == rest && IsMapOf(kind, pairs, r.entries)
  {
    if ReadEntries(c, kind, s, []).GotEntries? {
      var pairs := EntriesAreMet(c, kind, s, []);
      assert Meets(c, kind, s, pairs, ReadEntries(c, kind, s, []).rest);
    }
    if HoldsMap(c, kind, s) {
      var pairs, rest :| Meets(c, kind, s, pairs, rest);
      MetIsRead(c, kind, s, [], pairs, rest);
    }
    forall pairs, rest | Meets(c, kind, s, pairs, rest)
      ensures var r := ReadEntries(c, kind, s, []);
        r.GotEntries? && r.rest == rest && IsMapOf(kind, pairs, r.entries)
    {
      MetIsRead(c, kind, s, [], pairs, rest);
      CollectsNothingElse(kind, pairs, ReadEntries(c, kind, s, []).entries);
    }
  }

  /** Keys of imaps, and numbers in metadata, are cut to 32 bits; those of maps are strings, and others empty. */
  lemma KeysMean(c: Codec, n: int, s: Bytes)
    requires n >= 0 ==> n < TWO_64
    ensures forall b | b == Int(n) || b == UInt(n) ::
      && KeyFrom(c, IMapKind, b) == KeyFrom(c, MetaKind, b) && KeyFrom(c, IMapKind, b).Some?
      && var key := KeyFrom(c, IMapKind, b).value;
         key.IKey? && -TWO_31 <= key.i < TWO_31 && (key.i - n) % TWO_32 == 0 && (-TWO_31 <= n < TWO_31 ==> key.i == n)
    ensures KeyFrom(c, MapKind, String(s)) == KeyFrom(c, MetaKind, String(s)) == Some(SKey(s))
    ensures KeyFrom(c, MapKind, Int(n)) == Some(SKey([]))
  {
  }

  // ---------------------------------------------------------------- written in any order

  /** A key and its value are met in front of what follows. */
  lemma MeetsOne(c: Codec, kind: Kind, key: Key, v: Value, lay: Layout, first: bool, text: Bytes, next: Bytes,
                 pairs: seq<Entry>, rest: Bytes)
    requires Lawful(c) && kind != ListKind && KeyFits(c, kind, key)
    requires Read(c, text) == Got(v, false, next) && Meets(c, kind, next, pairs, rest)
    ensures Meets(c, kind, c.sep(first, lay) + (c.leaf(KeyBody(key)) + (c.keySep + text)), [Entry(key, v)] + pairs,
                  rest)
  {
    SkipSep(c, first, lay, c.leaf(KeyBody(key)) + (c.keySep + text));
    KeyRoundTrip(c, kind, key, text);
    SkipSep(c, first, lay, text);
    assert ([Entry(key, v)] + pairs)[1..] == pairs;
  }

  lemma {:induction false} WrittenAreMet(c: Codec, kind: Kind, es: seq<Entry>, lay: Layout, first: bool, outer: Layout,
                                         rest: Bytes)
    requires Lawful(c) && kind != ListKind && WritableInAnyOrder(c, kind, es)
    ensures Meets(c, kind, WriteEntries(c, es, lay, first) + (c.end(kind, outer) + rest), EntriesAsRead(c, es), rest)
    decreases |es|
  {
    var tail := c.end(kind, outer) + rest;
    if es == [] {
      assert WriteEntries(c, es, lay, first) + tail == tail;
      ReadEnd(c, kind, outer, rest);
    } else {
      var e, next := es[0], WriteEntries(c, es[1..], lay, false) + tail;
      WrittenAreMet(c, kind, es[1..], lay, false, outer, rest);
      EntriesTailEnds(c, kind, es[1..], lay, outer, rest);
      ValueRoundTrip(c, e.val, lay.nest, next);
      MeetsOne(c, kind, e.key, AsRead(c, e.val), lay, first, Write(c, e.val, lay.nest) + next, next,
        EntriesAsRead(c, es[1..]), rest);
      EntryText(c.sep(first, lay), c.leaf(KeyBody(e.key)), c.keySep, Write(c, e.val, lay.nest),
        WriteEntries(c, es[1..], lay, false), tail);
    }
  }

  /**
   Entries written one after the other, in any order and with repetitions, are read as an ordered map with exactly the
   keys written, each with the value written for it last.
   */
  lemma AnyOrderReads(c: Codec, kind: Kind, es: seq<Entry>, lay: Layout, outer: Layout, rest: Bytes)
    requires Lawful(c) && kind != ListKind && WritableInAnyOrder(c, kind, es)
    ensures var r := ReadEntries(c, kind, WriteEntries(c, es, lay, true) + (c.end(kind, outer) + rest), []);
      r.GotEntries? && r.rest == rest && IsMapOf(kind, EntriesAsRead(c, es), r.entries)
  {
    WrittenAreMet(c, kind, es, lay, true, outer, rest);
    MapIsReadIff(c, kind, WriteEntries(c, es, lay, true) + (c.end(kind, outer) + rest));
  }

  // ---------------------------------------------------------------- a key that is written twice

  lemma {:induction false} LookupAt(es: seq<Entry>, i: nat)
    requires i < |es|
    ensures Lookup(es, es[i].key).Some?
  {
    if i > 0 {
      LookupAt(es[1..], i - 1);
    }
  }

  lemma {:induction false} FindIsLookup(es: seq<Entry>, key: Bytes)
    requires forall i | 0 <= i < |es| :: es[i].key.SKey?
    ensures FindEntry(es, key) == Lookup(es, SKey(key))
  {
    if es != [] {
      FindIsLookup(es[1..], key);
    }
  }

  lemma KeysWereGiven(kind: Kind, pairs: seq<Entry>, es: seq<Entry>)
    requires IsMapOf(kind, pairs, es) && forall i | 0 <= i < |pairs| :: pairs[i].key.SKey?
    ensures forall i | 0 <= i < |es| :: es[i].key.SKey?
  {
    forall i | 0 <= i < |es| ensures es[i].key.SKey? {
      LookupAt(es, i);
      if !Given(pairs, es[i].key) {
        NeverGiven(kind, pairs, es[i].key);
      }
    }
  }

  /** The text of a map with these entries in this order. */
  function MapText(c: Codec, es: seq<Entry>, lay: Layout, outer: Layout, rest: Bytes): Bytes
  {
    c.begin(MapKind) + (WriteEntries(c, es, lay, true) + (c.end(MapKind, outer) + rest))
  }

  /** `readPath` stops at the first entry with the key. */
  lemma PathTakesFirst(c: Codec, es: seq<Entry>, key: Bytes, lay: Layout, outer: Layout, rest: Bytes)
    requires Lawful(c) && NoEndInFront(c) && WritableInAnyOrder(c, MapKind, es)
    ensures ReadPath(c, [key], MapText(c, es, lay, outer, rest))
         == var first := FindEntry(EntriesAsRead(c, es), key); if first.None? then NotFound else Found(first.value)
  {
    var inner := WriteEntries(c, es, lay, true) + (c.end(MapKind, outer) + rest);
    var text := MapText(c, es, lay, outer, rest);
    assert BeginLaw(c, MapKind, inner);
    PathStep(c, MapKind, [key], text, inner);
    var i, after := ScanEntries(c, MapKind, es, key, lay, true, outer, rest);
    assert [key][1..] == [];
    if i < |es| {
      ValueRoundTrip(c, es[i].val, lay.nest, after);
    }
  }

  lemma MapBegins(c: Codec, text: Bytes, inner: Bytes)
    requires Lawful(c) && text == c.begin(MapKind) + inner
    ensures c.lex(text) == Lexed(Begin(MapKind), inner) && Read(c, text) == ReadItem(c, [], text)
  {
    assert BeginLaw(c, MapKind, inner);
  }

  lemma WalksOnce(v: Value, m: seq<Entry>, key: Bytes)
    requires v.body == Map(m)
    ensures Walk(v, [key]) == FindEntry(m, key)
  {
    assert [key][1..] == [];
  }

  lemma LooksUp(pairs: seq<Entry>, m: seq<Entry>, key: Bytes)
    requires IsMapOf(MapKind, pairs, m) && forall i | 0 <= i < |m| :: m[i].key.SKey?
    ensures FindEntry(m, key) == LastGiven(MapKind, pairs, SKey(key))
  {
    FindIsLookup(m, key);
  }

  /** Reading the map and looking the key up finds the last one. */
  lemma WalkTakesLast(c: Codec, es: seq<Entry>, key: Bytes, lay: Layout, outer: Layout, rest: Bytes)
    requires Lawful(c) && WritableInAnyOrder(c, MapKind, es)
    ensures var g := Read(c, MapText(c, es, lay, outer, rest));
      g.Got? && g.rest == rest && Walk(g.val, [key]) == LastGiven(MapKind, EntriesAsRead(c, es), SKey(key))
  {
    var inner := WriteEntries(c, es, lay, true) + (c.end(MapKind, outer) + rest);
    var text := MapText(c, es, lay, outer, rest);
    MapBegins(c, text, inner);
    hide ReadEntries, WriteEntries, EntriesAsRead, LastGiven, WritableInAnyOrder, Lawful, IsMapOf;
    hide FindEntry, Read, Walk;
    AnyOrderReads(c, MapKind, es, lay, outer, rest);
    var m := ReadEntries(c, MapKind, inner, []).entries;
    ReadMapItem(c, MapKind, [], text, inner, m, rest);
    KeysWereGiven(MapKind, EntriesAsRead(c, es), m);
    LooksUp(EntriesAsRead(c, es), m, key);
    WalksOnce(Value([], MapBody(MapKind, m)), m, key);
  }

  /** On a map in any order, `readPath` agrees with reading it exactly if the key's first value is its last. */
  lemma PathAgreesIff(c: Codec, es: seq<Entry>, key: Bytes, lay: Layout, outer: Layout, rest: Bytes)
    requires Lawful(c) && NoEndInFront(c) && WritableInAnyOrder(c, MapKind, es)
    ensures var text := MapText(c, es, lay, outer, rest);
      && Read(c, text).Got?
      && (ReadPath(c, [key], text) ==
            (var w := Walk(Read(c, text).val, [key]); if w.None? then NotFound else Found(w.value)) <==>
          FindEntry(EntriesAsRead(c, es), key) == LastGiven(MapKind, EntriesAsRead(c, es), SKey(key)))
  {
    PathTakesFirst(c, es, key, lay, outer, rest);
    WalkTakesLast(c, es, key, lay, outer, rest);
  }

  // ---------------------------------------------------------------- every value that is read

  /** Maps and metadata are ordered at every depth, and nothing invalid has metadata. */
  ghost predicate Canonical(v: Value)
    decreases v, 2
  {
    CanonicalEntries(v.meta) && CanonicalBody(v.body) && (v.meta != [] ==> !v.body.Invalid?)
  }

  ghost predicate CanonicalBody(b: Body)
    decreases b, 1
  {
    match b
    case List(vs) => CanonicalList(vs)
    case Map(es) => CanonicalEntries(es)
    case IMap(es) => CanonicalEntries(es)
    case _ => true
  }

  ghost predicate CanonicalList(vs: seq<Value>)
    decreases vs, 0
  {
    forall i | 0 <= i < |vs| :: Canonical(vs[i])
  }

  ghost predicate CanonicalEntries(es: seq<Entry>)
    decreases es, 0
  {
    Sorted(es) && forall i | 0 <= i < |es| :: (assert es[i].val < es[i]; Canonical(es[i].val))
  }

  lemma {:induction false} InsertIsCanonical(es: seq<Entry>, key: Key, v: Value)
    requires forall i | 0 <= i < |es| :: Canonical(es[i].val)
    requires Canonical(v)
    ensures forall i | 0 <= i < |Insert(es, key, v)| :: Canonical(Insert(es, key, v)[i].val)
    ensures forall i | 0 <= i < |Erase(es, key)| :: Canonical(Erase(es, key)[i].val)
  {
    if es != [] {
      InsertIsCanonical(es[1..], key, v);
    }
  }

  lemma StoreIsCanonical(kind: Kind, es: seq<Entry>, key: Key, v: Value)
    requires CanonicalEntries(es) && Canonical(v)
    ensures CanonicalEntries(Store(kind, es, key, v))
  {
    StoreSets(kind, es, key, v);
    InsertIsCanonical(es, key, v);
  }

  /** Leaves are not containers: only the reader's own loops make those. */
  ghost predicate LexesLeaves(c: Codec)
  {
    forall s: Bytes :: c.lex(s).Lexed? && c.lex(s).item.Scalar? ==> !c.lex(s).item.body.IsContainer()
  }

  lemma {:induction false} ReadIsCanonical(c: Codec, s: Bytes)
    requires LexesLeaves(c)
    ensures Read(c, s).Got? ==> Canonical(Read(c, s).val)
    decreases |s|, 2
  {
    match c.peek(s)
    case PeekError =>
    case AtMeta(r) =>
      EntriesAreCanonical(c, MetaKind, r, []);
      var m := ReadEntries(c, MetaKind, r, []);
      if m.GotEntries? {
        ItemIsCanonical(c, m.entries, m.rest);
      }
    case AtValue(r) => ItemIsCanonical(c, [], r);
  }

  lemma {:induction false} ItemIsCanonical(c: Codec, meta: seq<Entry>, s: Bytes)
    requires LexesLeaves(c) && CanonicalEntries(meta)
    ensures ReadItem(c, meta, s).Got? ==> Canonical(ReadItem(c, meta, s).val)
    decreases |s|, 1
  {
    var l := c.lex(s);
    if l.Lexed? && l.item.Begin? {
      if l.item.kind == ListKind {
        ListIsCanonical(c, l.rest, []);
      } else {
        EntriesAreCanonical(c, l.item.kind, l.rest, []);
      }
    }
  }

  lemma {:induction false} ListIsCanonical(c: Codec, s: Bytes, acc: seq<Value>)
    requires LexesLeaves(c) && CanonicalList(acc)
    ensures ReadList(c, s, acc).GotList? ==> CanonicalList(ReadList(c, s, acc).items)
    decreases |s|, 3
  {
    ReadIsCanonical(c, s);
    var g := Read(c, s);
    if g.Got? && !g.end {
      ListIsCanonical(c, g.rest, acc + [g.val]);
    }
  }

  lemma {:induction false} EntriesAreCanonical(c: Codec, kind: Kind, s: Bytes, acc: seq<Entry>)
    requires LexesLeaves(c) && CanonicalEntries(acc)
    ensures ReadEntries(c, kind, s, acc).GotEntries? ==> CanonicalEntries(ReadEntries(c, kind, s, acc).entries)
    decreases |s|, 3
  {
    ReadIsCanonical(c, s);
    var k := Read(c, s);
    if k.Got? && !k.end {
      ReadIsCanonical(c, k.rest);
      var v, key := Read(c, k.rest), KeyFrom(c, kind, k.val.body);
      if v.Got? && key.Some? {
        StoreIsCanonical(kind, acc, key.value, v.val);
        EntriesAreCanonical(c, kind, v.rest, Store(kind, acc, key.value, v.val));
      }
    }
  }
}
