/** What CPON promises for whole trees. */
module CponTheorems {
  import opened ByteStrings
  import opened RpcValues
  import opened Codecs
  import opened CodecRoundTrip
  import opened Decimals
  import opened CponNumbers
  import opened DecimalTexts
  import opened Cpon
  import opened CponLaws
  import opened PackContexts
  import opened StreamWriters

  // ---------------------------------------------------------------- equal up to the pair that spells a decimal

  ghost predicate SameLeaf(a: Body, b: Body)
  {
    if a.Decimal? && b.Decimal? then SameNumber(Dec(a.mantissa, a.exponent), Dec(b.mantissa, b.exponent)) else a == b
  }

  ghost predicate SameValue(v: Value, w: Value)
    decreases v, 2
  {
    SameEntries(v.meta, w.meta) && SameBody(v.body, w.body)
  }

  ghost predicate SameBody(a: Body, b: Body)
    decreases a, 1
  {
    match a
    case List(vs) => b.List? && |vs| == |b.items| && forall i | 0 <= i < |vs| :: SameValue(vs[i], b.items[i])
    case Map(es) => b.Map? && SameEntries(es, b.entries)
    case IMap(es) => b.IMap? && SameEntries(es, b.entries)
    case _ => SameLeaf(a, b)
  }

  ghost predicate SameEntries(es: seq<Entry>, fs: seq<Entry>)
    decreases es, 0
  {
    |es| == |fs| && forall i | 0 <= i < |es| ::
      es[i].key == fs[i].key && (assert es[i].val < es[i]; SameValue(es[i].val, fs[i].val))
  }

  // ---------------------------------------------------------------- trees that text can carry

  /** Unsigned numbers that fit a signed one, blobs whose length fits 32 bits, nothing invalid. */
  predicate Spellable(b: Body)
  {
    match b
    case Invalid => false
    case UInt(u) => u < TWO_63
    case Blob(x) => |x| < TWO_32
    case _ => true
  }

  ghost predicate AllSpellable(v: Value)
    decreases v, 2
  {
    AllSpellableEntries(v.meta) && AllSpellableBody(v.body)
  }

  ghost predicate AllSpellableBody(b: Body)
    decreases b, 1
  {
    match b
    case List(vs) => forall i | 0 <= i < |vs| :: AllSpellable(vs[i])
    case Map(es) => AllSpellableEntries(es)
    case IMap(es) => AllSpellableEntries(es)
    case _ => Spellable(b)
  }

  ghost predicate AllSpellableEntries(es: seq<Entry>)
    decreases es, 0
  {
    forall i | 0 <= i < |es| :: (assert es[i].val < es[i]; AllSpellable(es[i].val))
  }

  lemma LeafKeptIffSpellable(b: Body)
    requires Accepts(b)
    ensures SameLeaf(b, Kept(b)) <==> Spellable(b)
  {
  }

  /** A tree comes back equal, decimals by number, if and only if all of it can be spelled. */
  lemma {:induction false} SameIffSpellable(c: Codec, v: Value)
    requires c.accepts == Accepts && c.kept == Kept && Writable(c, v)
    ensures SameValue(v, AsRead(c, v)) <==> AllSpellable(v)
    decreases v, 2
  {
    EntriesSameIffSpellable(c, MetaKind, v.meta);
    match v.body {
      case Invalid =>
      case List(vs) => ListSameIffSpellable(c, vs);
      case Map(es) => EntriesSameIffSpellable(c, MapKind, es);
      case IMap(es) => EntriesSameIffSpellable(c, IMapKind, es);
      case _ => LeafSameIffSpellable(c, v);
    }
  }

  lemma LeafSameIffSpellable(c: Codec, v: Value)
    requires c.accepts == Accepts && c.kept == Kept && Writable(c, v)
    requires !v.body.Invalid? && !v.body.List? && !v.body.Map? && !v.body.IMap?
    ensures SameBody(v.body, AsRead(c, v).body) <==> AllSpellableBody(v.body)
  {
    LeafKeptIffSpellable(v.body);
  }

  lemma {:induction false} ListSameIffSpellable(c: Codec, vs: seq<Value>)
    requires c.accepts == Accepts && c.kept == Kept && WritableList(c, vs)
    ensures (forall i | 0 <= i < |vs| :: SameValue(vs[i], ListAsRead(c, vs)[i]))
      <==> forall i | 0 <= i < |vs| :: AllSpellable(vs[i])
    decreases vs, 0
  {
    forall i | 0 <= i < |vs|
      ensures SameValue(vs[i], ListAsRead(c, vs)[i]) <==> AllSpellable(vs[i])
    {
      ListAsReadAt(c, vs, i);
      SameIffSpellable(c, vs[i]);
    }
  }

  lemma {:induction false} EntriesSameIffSpellable(c: Codec, kind: Kind, es: seq<Entry>)
    requires c.accepts == Accepts && c.kept == Kept && WritableEntries(c, kind, es)
    ensures SameEntries(es, EntriesAsRead(c, es)) <==> AllSpellableEntries(es)
    decreases es, 0
  {
    forall i | 0 <= i < |es|
      ensures SameValue(es[i].val, EntriesAsRead(c, es)[i].val) <==> AllSpellable(es[i].val)
    {
      EntriesAsReadAt(c, es, i);
      assert es[i].val < es[i];
      SameIffSpellable(c, es[i].val);
    }
  }

  lemma {:induction false} ListAsReadAt(c: Codec, vs: seq<Value>, i: nat)
    requires i < |vs|
    ensures ListAsRead(c, vs)[i] == AsRead(c, vs[i])
  {
    if i > 0 {
      ListAsReadAt(c, vs[1..], i - 1);
    }
  }

  lemma {:induction false} EntriesAsReadAt(c: Codec, es: seq<Entry>, i: nat)
    requires i < |es|
    ensures EntriesAsRead(c, es)[i] == Entry(es[i].key, AsRead(c, es[i].val))
  {
    if i > 0 {
      EntriesAsReadAt(c, es[1..], i - 1);
    }
  }

  // ---------------------------------------------------------------- theorems

  /** Text written with any insignificant indent reads back to the same tree and leaves exactly the rest. */
  lemma CponRoundTrip(indent: Bytes, dateText: Lexer, floatKey: Body -> Option<int>, v: Value, rest: Bytes)
    requires AllBlank(indent) && EndsNumber(rest)
    requires Writable(CponCodec(indent, dateText, floatKey), v)
    ensures var c := CponCodec(indent, dateText, floatKey);
      && Read(c, Write(c, v, 0) + rest) == Got(AsRead(c, v), false, rest)
      && (SameValue(v, AsRead(c, v)) <==> AllSpellable(v))
  {
    var c := CponCodec(indent, dateText, floatKey);
    CponIsLawful(indent, dateText, floatKey);
    ValueRoundTrip(c, v, 0, rest);
    SameIffSpellable(c, v);
  }

  /** Unsigned numbers from 2^63 on all read back as the same number. */
  lemma LargeUIntsCollapse(indent: Bytes, dateText: Lexer, floatKey: Body -> Option<int>, u: nat, w: nat)
    requires AllBlank(indent) && TWO_63 <= u < TWO_64 && TWO_63 <= w < TWO_64
    ensures var c := CponCodec(indent, dateText, floatKey);
      var read := Read(c, Write(c, Value([], UInt(u)), 0) + []);
      read == Read(c, Write(c, Value([], UInt(w)), 0) + []) == Got(Value([], UInt(INT64_MAX)), false, [])
  {
    CponRoundTrip(indent, dateText, floatKey, Value([], UInt(u)), []);
    CponRoundTrip(indent, dateText, floatKey, Value([], UInt(w)), []);
  }

  /** Through the buffered writer: whatever buffer size and indent, the text decodes to the value written. */
  method WriteText(v: Value, indent: Bytes, bufferSize: nat, dateText: Lexer, floatKey: Body -> Option<int>)
    returns (text: Bytes)
    requires bufferSize >= 1 && AllBlank(indent) && AllSpellable(v)
    requires Writable(CponCodec(indent, dateText, floatKey), v)
    ensures var read := Read(CponCodec(indent, dateText, floatKey), text);
      read.Got? && SameValue(v, read.val) && !read.end && read.rest == []
  {
    text := Stream(StreamWriters.Text(indent, dateText, floatKey), v, bufferSize);
    WrittenReads(indent, dateText, floatKey, v);
  }

  lemma WrittenReads(indent: Bytes, dateText: Lexer, floatKey: Body -> Option<int>, v: Value)
    requires AllBlank(indent) && AllSpellable(v) && Writable(CponCodec(indent, dateText, floatKey), v)
    ensures var c := CponCodec(indent, dateText, floatKey);
      var read := Read(c, Write(c, v, 0));
      read.Got? && SameValue(v, read.val) && !read.end && read.rest == []
  {
    var text := Write(CponCodec(indent, dateText, floatKey), v, 0);
    assert text + [] == text;
    CponRoundTrip(indent, dateText, floatKey, v, []);
  }
}
