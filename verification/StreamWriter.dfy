/**
 The C++ stream writers: recursion over values, and the stack of container states that
 decides which separator an element gets.  Output goes through the C packers of the format
 to a pack context.
 */
module StreamWriters {
  import opened ByteStrings
  import opened RpcValues
  import opened Codecs
  import opened PackContexts
  import opened ChainPack
  import ChainPackPackers
  import Cpon
  import CponUnpackers

  datatype Format =
    | Binary(floatKey: Body -> Option<int>)
    | Text(indent: Bytes, dateText: Lexer, floatKey: Body -> Option<int>)

  function CodecOf(format: Format): Codec
  {
    match format
    case Binary(floatKey) => ChainPackCodec(floatKey)
    case Text(indent, dateText, floatKey) => Cpon.CponCodec(indent, dateText, floatKey)
  }

  datatype ContainerState = ContainerState(kind: Kind, oneLiner: bool, elementCount: nat)

  /** Terms of this kind show a writer its codec and buffer; elsewhere both stay abstract. */
  predicate Unlock(k: nat) { true }

  lemma TextPieces(indent: Bytes, dateText: Lexer, floatKey: Body -> Option<int>, first: bool, kind: Kind, lay: Layout)
    ensures var c := Cpon.CponCodec(indent, dateText, floatKey);
      && c.sep(first, lay) == (if first then [] else [Cpon.COMMA]) + Cpon.Indent(indent, first, lay)
      && c.end(kind, lay) == Cpon.Indent(indent, true, lay) + [Cpon.EndByte(kind)]
      && c.begin(kind) == Cpon.BeginText(kind) && c.keySep == [Cpon.COLON]
  {
  }

  lemma BinaryPieces(floatKey: Body -> Option<int>, first: bool, kind: Kind, lay: Layout, log: Bytes)
    ensures var c := ChainPackCodec(floatKey);
      && log + c.sep(first, lay) == log && log + c.keySep == log
      && c.end(kind, lay) == [CP_TERM] && c.begin(kind) == [BeginByte(kind)]
  {
  }

  /** One piece of output of a format, by the packer that makes it. */
  class PieceWriter {
    const format: Format
    const codec: Codec
    const ctx: PackContext

    ghost predicate Ready()
      reads ctx, ctx.data
    {
      forall k: nat {:trigger Unlock(k)} :: Unlock(k) ==> ctx.Valid() && codec == CodecOf(format)
    }

    constructor (format: Format, ctx: PackContext)
      requires ctx.Valid()
      ensures this.codec == CodecOf(format) && this.ctx == ctx && Ready()
    {
      this.format, codec, this.ctx := format, CodecOf(format), ctx;
    }

    method Leaf(b: Body)
      requires Ready()
      modifies ctx, ctx.data
      ensures Ready() && ctx.log == old(ctx.log) + codec.leaf(b)
    {
      assert Unlock(0);
      if format.Binary? {
        ChainPackPackers.PackScalar(ctx, b);
      } else {
        CponUnpackers.PackScalar(ctx, b);
      }
    }

    method Begin(kind: Kind)
      requires Ready()
      modifies ctx, ctx.data
      ensures Ready() && ctx.log == old(ctx.log) + codec.begin(kind)
    {
      assert Unlock(0);
      var n: nat;
      if format.Binary? {
        BinaryPieces(format.floatKey, true, kind, Layout(0, true), []);
        n := ctx.CopyByte(BeginByte(kind));
      } else {
        TextPieces(format.indent, format.dateText, format.floatKey, true, kind, Layout(0, true));
        n := ctx.CopyBytes(Cpon.BeginText(kind));
      }
    }

    method End(kind: Kind, lay: Layout)
      requires Ready()
      modifies ctx, ctx.data
      ensures Ready() && ctx.log == old(ctx.log) + codec.end(kind, lay)
    {
      assert Unlock(0);
      if format.Binary? {
        BinaryPieces(format.floatKey, true, kind, lay, []);
        var n := ctx.CopyByte(CP_TERM);
      } else {
        TextPieces(format.indent, format.dateText, format.floatKey, true, kind, lay);
        CponUnpackers.PackContainerEnd(ctx, format.indent, kind, lay);
      }
    }

    method FieldDelim(first: bool, lay: Layout)
      requires Ready()
      modifies ctx, ctx.data
      ensures Ready() && ctx.log == old(ctx.log) + codec.sep(first, lay)
    {
      assert Unlock(0);
      if format.Binary? {
        BinaryPieces(format.floatKey, first, ListKind, lay, ctx.log);
      } else {
        TextPieces(format.indent, format.dateText, format.floatKey, first, ListKind, lay);
        CponUnpackers.PackFieldDelim(ctx, format.indent, first, lay);
      }
    }

    method KeyDelim()
      requires Ready()
      modifies ctx, ctx.data
      ensures Ready() && ctx.log == old(ctx.log) + codec.keySep
    {
      assert Unlock(0);
      if format.Binary? {
        BinaryPieces(format.floatKey, true, ListKind, Layout(0, true), ctx.log);
      } else {
        TextPieces(format.indent, format.dateText, format.floatKey, true, ListKind, Layout(0, true));
        var n := ctx.CopyBytes([Cpon.COLON]);
      }
    }
  }

  class StreamWriter {
    const codec: Codec
    const ctx: PackContext
    const pieces: PieceWriter
    var states: seq<ContainerState>   // its length is the nesting depth

    ghost predicate Valid()
      reads this, ctx, ctx.data
    {
      pieces.ctx == ctx && pieces.codec == codec && pieces.Ready()
    }

    constructor (pieces: PieceWriter)
      requires pieces.Ready()
      ensures codec == pieces.codec && ctx == pieces.ctx && states == [] && Valid()
    {
      this.pieces, codec, ctx, states := pieces, pieces.codec, pieces.ctx, [];
    }

    method WriteContainerBegin(kind: Kind, oneLiner: bool)
      requires Valid()
      modifies this, ctx, ctx.data
      ensures Valid() && ctx.log == old(ctx.log) + codec.begin(kind)
      ensures states == old(states) + [ContainerState(kind, oneLiner, 0)]
    {
      pieces.Begin(kind);
      states := states + [ContainerState(kind, oneLiner, 0)];
    }

    /** Closes the innermost container, which `top` describes. */
    method WriteContainerEnd(ghost outer: seq<ContainerState>, ghost top: ContainerState)
      requires Valid() && states == outer + [top]
      modifies this, ctx, ctx.data
      ensures Valid() && states == outer
      ensures ctx.log == old(ctx.log) + codec.end(top.kind, Layout(|outer|, top.oneLiner))
    {
      var last := states[|states| - 1];
      states := states[..|states| - 1];
      assert states == outer && last == top;
      pieces.End(last.kind, Layout(|states|, last.oneLiner));
    }

    /** The separator of the next element of the innermost container; counts the element. */
    method WriteSeparator(ghost outer: seq<ContainerState>, ghost top: ContainerState)
      requires Valid() && states == outer + [top]
      modifies this, ctx, ctx.data
      ensures Valid() && states == outer + [top.(elementCount := top.elementCount + 1)]
      ensures ctx.log == old(ctx.log) + codec.sep(top.elementCount == 0, Layout(|outer| + 1, top.oneLiner))
    {
      var last := states[|states| - 1];
      states := states[..|states| - 1] + [last.(elementCount := last.elementCount + 1)];
      pieces.FieldDelim(last.elementCount == 0, Layout(|states|, last.oneLiner));
    }

    method WriteLeaf(b: Body)
      requires Valid()
      modifies ctx, ctx.data
      ensures Valid() && ctx.log == old(ctx.log) + codec.leaf(b)
    {
      pieces.Leaf(b);
    }

    method WriteKey(key: Key)
      requires Valid()
      modifies ctx, ctx.data
      ensures Valid() && ctx.log == old(ctx.log) + codec.leaf(KeyBody(key)) + codec.keySep
    {
      pieces.Leaf(KeyBody(key));
      pieces.KeyDelim();
    }

    /** Appends exactly the text of the value at the current depth and restores the state stack. */
    method WriteValue(v: Value)
      requires Valid()
      modifies this, ctx, ctx.data
      ensures Valid() && states == old(states)
      ensures ctx.log == old(ctx.log) + Write(codec, v, |states|)
      decreases v, 3
    {
      Append3(ctx.log, WriteMeta(codec, v, |states|), WriteBody(codec, v.body, |states|), []);
      WriteMetaData(v);
      WriteBodyValue(v.body);
    }

    method WriteMetaData(v: Value)
      requires Valid()
      modifies this, ctx, ctx.data
      ensures Valid() && states == old(states)
      ensures ctx.log == old(ctx.log) + WriteMeta(codec, v, |states|)
      decreases v, 2
    {
      if v.meta != [] {
        WriteElements(MetaKind, v.meta);
      }
    }

    method WriteBodyValue(b: Body)
      requires Valid()
      modifies this, ctx, ctx.data
      ensures Valid() && states == old(states)
      ensures ctx.log == old(ctx.log) + WriteBody(codec, b, |states|)
      decreases b, 2
    {
      if b.List? {
        WriteItems(b.items);
      } else if b.Map? || b.IMap? {
        BodyOfMap(codec, b, |states|);
        WriteElements(if b.Map? then MapKind else IMapKind, b.entries);
      } else {
        BodyOfLeaf(codec, b, |states|);
        WriteLeaf(if b.Invalid? then Null else b);
      }
    }

    method WriteItems(vs: seq<Value>)
      requires Valid()
      modifies this, ctx, ctx.data
      ensures Valid() && states == old(states)
      ensures ctx.log == old(ctx.log) + WriteBody(codec, List(vs), |states|)
      decreases vs, 2
    {
      hide OneLineList;
      ghost var lay := Layout(|states| + 1, OneLineList(vs));
      Append3(ctx.log, codec.begin(ListKind), WriteList(codec, vs, lay, true),
        codec.end(ListKind, Layout(|states|, lay.oneLine)));
      WriteContainerBegin(ListKind, OneLineList(vs));
      WriteItemLoop(vs, old(states), OneLineList(vs));
      WriteContainerEnd(old(states), ContainerState(ListKind, OneLineList(vs), |vs|));
    }

    method WriteItemLoop(vs: seq<Value>, ghost outer: seq<ContainerState>, oneLiner: bool)
      requires Valid() && states == outer + [ContainerState(ListKind, oneLiner, 0)]
      modifies this, ctx, ctx.data
      ensures Valid() && states == outer + [ContainerState(ListKind, oneLiner, |vs|)]
      ensures ctx.log == old(ctx.log) + WriteList(codec, vs, Layout(|states|, oneLiner), true)
      decreases vs, 1
    {
      hide WriteList;
      ghost var lay := Layout(|states|, oneLiner);
      ghost var all := ctx.log + WriteList(codec, vs, lay, true);
      NoItemsLeft(codec, lay);
      assert vs[0..] == vs && vs[|vs|..] == [];
      for i := 0 to |vs|
        invariant Valid()
        invariant states == outer + [ContainerState(ListKind, oneLiner, i)]
        invariant ctx.log + WriteList(codec, vs[i..], lay, i == 0) == all
      {
        WriteListElement(vs, i, outer, ContainerState(ListKind, oneLiner, i));
      }
    }

    /** One item; what is left to be written are the items behind it. */
    method WriteListElement(vs: seq<Value>, i: nat, ghost outer: seq<ContainerState>, ghost top: ContainerState)
      requires Valid() && states == outer + [top] && i < |vs| && top.elementCount == i
      modifies this, ctx, ctx.data
      ensures Valid() && states == outer + [top.(elementCount := i + 1)]
      ensures var lay := Layout(|outer| + 1, top.oneLiner);
        ctx.log + WriteList(codec, vs[i + 1..], lay, i + 1 == 0)
        == old(ctx.log) + WriteList(codec, vs[i..], lay, i == 0)
      decreases vs[i], 4
    {
      NextItem(codec, vs, i, Layout(|outer| + 1, top.oneLiner), ctx.log);
      WriteSeparator(outer, top);
      WriteValue(vs[i]);
    }

    /** Maps, imaps and metadata. */
    method WriteElements(kind: Kind, es: seq<Entry>)
      requires Valid()
      modifies this, ctx, ctx.data
      ensures Valid() && states == old(states)
      ensures var lay := Layout(|states| + 1, OneLineMap(es));
        ctx.log == old(ctx.log) + (codec.begin(kind) + WriteEntries(codec, es, lay, true)
                                   + codec.end(kind, Layout(|states|, lay.oneLine)))
      decreases es, 2
    {
      hide WriteEntries, OneLineMap;
      ghost var lay := Layout(|states| + 1, OneLineMap(es));
      Append3(ctx.log, codec.begin(kind), WriteEntries(codec, es, lay, true),
        codec.end(kind, Layout(|states|, lay.oneLine)));
      WriteContainerBegin(kind, OneLineMap(es));
      WriteElementLoop(kind, es, old(states), OneLineMap(es));
      WriteContainerEnd(old(states), ContainerState(kind, OneLineMap(es), |es|));
    }

    method WriteElementLoop(kind: Kind, es: seq<Entry>, ghost outer: seq<ContainerState>, oneLiner: bool)
      requires Valid() && states == outer + [ContainerState(kind, oneLiner, 0)]
      modifies this, ctx, ctx.data
      ensures Valid() && states == outer + [ContainerState(kind, oneLiner, |es|)]
      ensures ctx.log == old(ctx.log) + WriteEntries(codec, es, Layout(|states|, oneLiner), true)
      decreases es, 1
    {
      hide WriteEntries;
      ghost var lay := Layout(|states|, oneLiner);
      ghost var all := ctx.log + WriteEntries(codec, es, lay, true);
      NoEntriesLeft(codec, lay);
      assert es[0..] == es && es[|es|..] == [];
      for i := 0 to |es|
        invariant Valid()
        invariant states == outer + [ContainerState(kind, oneLiner, i)]
        invariant ctx.log + WriteEntries(codec, es[i..], lay, i == 0) == all
      {
        WriteElement(es, i, outer, ContainerState(kind, oneLiner, i));
      }
    }

    /** A separator, the key, the key separator and the value; what is left are the entries behind it. */
    method WriteElement(es: seq<Entry>, i: nat, ghost outer: seq<ContainerState>, ghost top: ContainerState)
      requires Valid() && states == outer + [top] && i < |es| && top.elementCount == i
      modifies this, ctx, ctx.data
      ensures Valid() && states == outer + [top.(elementCount := i + 1)]
      ensures var lay := Layout(|outer| + 1, top.oneLiner);
        ctx.log + WriteEntries(codec, es[i + 1..], lay, i + 1 == 0)
        == old(ctx.log) + WriteEntries(codec, es[i..], lay, i == 0)
      decreases es[i], 1
    {
      NextEntry(codec, es, i, Layout(|outer| + 1, top.oneLiner), ctx.log);
      WriteEntry(es[i], outer, top);
    }

    method WriteEntry(e: Entry, ghost outer: seq<ContainerState>, ghost top: ContainerState)
      requires Valid() && states == outer + [top]
      modifies this, ctx, ctx.data
      ensures Valid() && states == outer + [top.(elementCount := top.elementCount + 1)]
      ensures var lay := Layout(|outer| + 1, top.oneLiner);
        ctx.log == old(ctx.log) + codec.sep(top.elementCount == 0, lay) + codec.leaf(KeyBody(e.key))
                   + codec.keySep + Write(codec, e.val, lay.nest)
      decreases e, 0
    {
      WriteSeparator(outer, top);
      WriteKey(e.key);
      WriteValue(e.val);
    }
  }

  lemma BodyOfMap(c: Codec, b: Body, nest: nat)
    requires b.Map? || b.IMap?
    ensures var lay, kind := Layout(nest + 1, OneLineMap(b.entries)), if b.Map? then MapKind else IMapKind;
      WriteBody(c, b, nest)
      == c.begin(kind) + WriteEntries(c, b.entries, lay, true) + c.end(kind, Layout(nest, lay.oneLine))
  {
  }

  lemma BodyOfLeaf(c: Codec, b: Body, nest: nat)
    requires !b.IsContainer()
    ensures WriteBody(c, b, nest) == c.leaf(if b.Invalid? then Null else b)
  {
  }

  /** The whole stream, through a buffer of any size that is flushed at the end. */
  method WriteAll(pieces: PieceWriter, v: Value) returns (stream: Bytes)
    requires pieces.Ready() && pieces.ctx.log == [] && pieces.ctx.hasHandler
    requires pieces.ctx.End() > 0
    modifies pieces.ctx, pieces.ctx.data
    ensures stream == Write(pieces.codec, v, 0)
  {
    var writer := new StreamWriter(pieces);
    writer.WriteValue(v);
    assert Unlock(0);
    pieces.ctx.Flush();
    stream := pieces.ctx.flushed;
  }

  method Stream(format: Format, v: Value, bufferSize: nat) returns (stream: Bytes)
    requires bufferSize >= 1
    ensures stream == Write(CodecOf(format), v, 0)
  {
    var buffer := new byte[bufferSize];
    var ctx := new PackContext(buffer, true);
    var pieces := new PieceWriter(format, ctx);
    stream := WriteAll(pieces, v);
  }

  /** The text of the items from `i` on, split after item `i`. */
  lemma NextItem(c: Codec, vs: seq<Value>, i: nat, lay: Layout, s: Bytes)
    requires i < |vs|
    ensures s + WriteList(c, vs[i..], lay, i == 0)
         == s + c.sep(i == 0, lay) + Write(c, vs[i], lay.nest) + WriteList(c, vs[i + 1..], lay, i + 1 == 0)
  {
  }

  lemma NoItemsLeft(c: Codec, lay: Layout)
    ensures WriteList(c, [], lay, true) == [] == WriteList(c, [], lay, false)
  {
  }

  lemma NoEntriesLeft(c: Codec, lay: Layout)
    ensures WriteEntries(c, [], lay, true) == [] == WriteEntries(c, [], lay, false)
  {
  }

  lemma NextEntry(c: Codec, es: seq<Entry>, i: nat, lay: Layout, s: Bytes)
    requires i < |es|
    ensures s + WriteEntries(c, es[i..], lay, i == 0)
         == s + c.sep(i == 0, lay) + c.leaf(KeyBody(es[i].key)) + c.keySep + Write(c, es[i].val, lay.nest)
            + WriteEntries(c, es[i + 1..], lay, i + 1 == 0)
  {
  }
}
