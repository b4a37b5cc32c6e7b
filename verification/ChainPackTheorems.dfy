/** What ChainPack promises for whole trees, from the codec theorems and the ChainPack laws. */
module ChainPackTheorems {
  import opened ByteStrings
  import opened RpcValues
  import opened Codecs
  import opened CodecRoundTrip
  import opened CodecPath
  import opened ChainPack
  import opened StreamWriters

  /** No invalid value anywhere in a tree or in its metadata. */
  ghost predicate AllValid(v: Value)
    decreases v, 2
  {
    AllValidEntries(v.meta) && AllValidBody(v.body)
  }

  ghost predicate AllValidBody(b: Body)
    decreases b, 1
  {
    match b
    case Invalid => false
    case List(vs) => forall i | 0 <= i < |vs| :: AllValid(vs[i])
    case Map(es) => AllValidEntries(es)
    case IMap(es) => AllValidEntries(es)
    case _ => true
  }

  ghost predicate AllValidEntries(es: seq<Entry>)
    decreases es, 0
  {
    forall i | 0 <= i < |es| :: (assert es[i].val < es[i]; AllValid(es[i].val))
  }

  /** A codec that keeps leaves exactly changes a tree if and only if the tree holds an invalid value. */
  lemma {:induction false} AsReadIsIdentityIffValid(c: Codec, v: Value)
    requires forall b: Body :: c.kept(b) == b
    ensures AsRead(c, v) == v <==> AllValid(v)
    decreases v, 2
  {
    EntriesAsReadIdentity(c, v.meta);
    match v.body
    case List(vs) => ListAsReadIdentity(c, vs);
    case Map(es) => EntriesAsReadIdentity(c, es);
    case IMap(es) => EntriesAsReadIdentity(c, es);
    case _ =>
  }

  lemma {:induction false} ListAsReadIdentity(c: Codec, vs: seq<Value>)
    requires forall b: Body :: c.kept(b) == b
    ensures ListAsRead(c, vs) == vs <==> forall i | 0 <= i < |vs| :: AllValid(vs[i])
    decreases vs, 0
  {
    if vs != [] {
      AsReadIsIdentityIffValid(c, vs[0]);
      ListAsReadIdentity(c, vs[1..]);
      assert vs == [vs[0]] + vs[1..];
      assert forall i | 1 <= i < |vs| :: vs[i] == vs[1..][i - 1];
      assert ListAsRead(c, vs)[1..] == ListAsRead(c, vs[1..]);
    }
  }

  lemma {:induction false} EntriesAsReadIdentity(c: Codec, es: seq<Entry>)
    requires forall b: Body :: c.kept(b) == b
    ensures EntriesAsRead(c, es) == es <==> AllValidEntries(es)
    decreases es, 0
  {
    if es != [] {
      assert es[0].val < es[0];
      AsReadIsIdentityIffValid(c, es[0].val);
      EntriesAsReadIdentity(c, es[1..]);
      assert es == [es[0]] + es[1..];
      assert forall i | 1 <= i < |es| :: es[i] == es[1..][i - 1];
      assert EntriesAsRead(c, es)[1..] == EntriesAsRead(c, es[1..]);
    }
  }

  /** `read(write(v) ++ rest)` gives back the tree with all metadata and leaves exactly `rest`. */
  lemma ChainPackRoundTrip(floatKey: Body -> Option<int>, v: Value, rest: Bytes)
    requires Writable(ChainPackCodec(floatKey), v)
    ensures var c := ChainPackCodec(floatKey);
      && Read(c, Write(c, v, 0) + rest) == Got(AsRead(c, v), false, rest)
      && (AsRead(c, v) == v <==> AllValid(v))
  {
    var c := ChainPackCodec(floatKey);
    ChainPackIsLawful(floatKey);
    ValueRoundTrip(c, v, 0, rest);
    AsReadIsIdentityIffValid(c, v);
  }

  /** Encodings are self-delimiting: no encoding of a valid tree extends the encoding of another one. */
  lemma EncodingsArePrefixFree(floatKey: Body -> Option<int>, v: Value, w: Value, x: Bytes, y: Bytes)
    requires Writable(ChainPackCodec(floatKey), v) && AllValid(v)
    requires Writable(ChainPackCodec(floatKey), w) && AllValid(w)
    requires var c := ChainPackCodec(floatKey); Write(c, v, 0) + x == Write(c, w, 0) + y
    ensures v == w && x == y
  {
    ChainPackRoundTrip(floatKey, v, x);
    ChainPackRoundTrip(floatKey, w, y);
  }

  lemma TermIsEnd(floatKey: Body -> Option<int>, s: Bytes)
    ensures AtEnd(ChainPackCodec(floatKey), s) <==> s != [] && s[0] == CP_TERM
  {
  }

  lemma ChainPackHasNoSeparators(floatKey: Body -> Option<int>)
    ensures NoEndInFront(ChainPackCodec(floatKey))
  {
    var c := ChainPackCodec(floatKey);
    forall s: Bytes ensures !AtEnd(c, c.begin(MetaKind) + s) {
      TermIsEnd(floatKey, c.begin(MetaKind) + s);
    }
    forall k: Kind, lay: Layout, s: Bytes ensures AtEnd(c, c.end(k, lay) + s) {
      TermIsEnd(floatKey, c.end(k, lay) + s);
    }
  }

  /** Streaming look-up agrees with decoding everything and walking the tree, for every key list. */
  lemma ReadPathIsDecodeAndWalk(floatKey: Body -> Option<int>, v: Value, keys: seq<Bytes>, rest: Bytes)
    requires Writable(ChainPackCodec(floatKey), v)
    ensures var c := ChainPackCodec(floatKey);
      var decoded := Read(c, Write(c, v, 0) + rest);
      && decoded.Got?
      && ReadPath(c, keys, Write(c, v, 0) + rest)
         == (var w := Walk(decoded.val, keys); if w.None? then NotFound else Found(w.value))
  {
    ChainPackIsLawful(floatKey);
    ChainPackHasNoSeparators(floatKey);
    ChainPackRoundTrip(floatKey, v, rest);
    ReadPathAgrees(ChainPackCodec(floatKey), v, keys, 0, rest);
  }

  /** Through the buffered writer: whatever the buffer size, the stream decodes to the value written. */
  method WriteToStream(v: Value, bufferSize: nat, floatKey: Body -> Option<int>) returns (stream: Bytes)
    requires bufferSize >= 1 && Writable(ChainPackCodec(floatKey), v)
    ensures Read(ChainPackCodec(floatKey), stream) == Got(AsRead(ChainPackCodec(floatKey), v), false, [])
  {
    stream := Stream(Binary(floatKey), v, bufferSize);
    WrittenReads(floatKey, v);
  }

  lemma WrittenReads(floatKey: Body -> Option<int>, v: Value)
    requires Writable(ChainPackCodec(floatKey), v)
    ensures var c := ChainPackCodec(floatKey); Read(c, Write(c, v, 0)) == Got(AsRead(c, v), false, [])
  {
    var text := Write(ChainPackCodec(floatKey), v, 0);
    assert text + [] == text;
    ChainPackRoundTrip(floatKey, v, []);
  }
}
