/** How pretty-printed CPON is broken into lines. */
module CponLayout {
  import opened ByteStrings
  import opened RpcValues
  import opened Codecs
  import opened Cpon
  import opened JournalTexts
  import JournalValues

  /** How often a byte occurs. */
  function Count(s: Bytes, b: byte): nat
  {
    if s == [] then 0 else (if s[0] == b then 1 else 0) + Count(s[1..], b)
  }

  lemma {:induction false} CountParts(s: Bytes, t: Bytes, b: byte)
    ensures Count(s + t, b) == Count(s, b) + Count(t, b)
    decreases |s|
  {
    if s == [] {
      assert s + t == t;
    } else {
      assert (s + t)[1..] == s[1..] + t;
      CountParts(s[1..], t, b);
    }
  }

  lemma CountThree(s: Bytes, t: Bytes, u: Bytes, b: byte)
    ensures Count(s + t + u, b) == Count(s, b) + Count(t, b) + Count(u, b)
  {
    CountParts(s + t, u, b);
    CountParts(s, t, b);
  }

  lemma {:induction false} CountClean(s: Bytes, b: byte)
    requires Clean(s) && (b == LINE_END || b == TAB)
    ensures Count(s, b) == 0
  {
    if s != [] {
      CountClean(s[1..], b);
    }
  }

  /** A line break at depth `d` has `w(d)` of these bytes. */
  ghost predicate Weighs(indent: Bytes, b: byte, w: nat -> nat)
  {
    && indent != [] && (b == LINE_END || b == TAB)
    && forall d: nat :: Count([NEW_LINE] + Repeat(UpToNul(indent), d), b) == w(d)
  }

  // ---------------------------------------------------------------- the reference

  /** At most ten items that are no containers stay on one line. */
  predicate ListOnLine(vs: seq<Value>)
  {
    |vs| <= 10 && forall i | 0 <= i < |vs| :: !vs[i].body.List? && !vs[i].body.Map? && !vs[i].body.IMap?
  }

  /** And at most five entries without containers. */
  predicate MapOnLine(es: seq<Entry>)
  {
    |es| <= 5 && forall i | 0 <= i < |es| :: !es[i].val.body.List? && !es[i].val.body.Map? && !es[i].val.body.IMap?
  }

  /** Otherwise there is a break in front of each element, one level deeper, and one in front of the end. */
  function ValueBreaks(v: Value, nest: nat, w: nat -> nat): nat
    decreases v, 2
  {
    (if v.meta == [] then 0
     else EntryBreaks(v.meta, nest + 1, MapOnLine(v.meta), w) + if MapOnLine(v.meta) then 0 else w(nest))
    + BodyBreaks(v.body, nest, w)
  }

  function BodyBreaks(b: Body, nest: nat, w: nat -> nat): nat
    decreases b, 1
  {
    match b
    case List(vs) => ItemBreaks(vs, nest + 1, ListOnLine(vs), w) + if ListOnLine(vs) then 0 else w(nest)
    case Map(es) => EntryBreaks(es, nest + 1, MapOnLine(es), w) + if MapOnLine(es) then 0 else w(nest)
    case IMap(es) => EntryBreaks(es, nest + 1, MapOnLine(es), w) + if MapOnLine(es) then 0 else w(nest)
    case _ => 0
  }

  function ItemBreaks(vs: seq<Value>, depth: nat, onLine: bool, w: nat -> nat): nat
    decreases vs, 0
  {
    if vs == [] then 0
    else (if onLine then 0 else w(depth)) + ValueBreaks(vs[0], depth, w) + ItemBreaks(vs[1..], depth, onLine, w)
  }

  function EntryBreaks(es: seq<Entry>, depth: nat, onLine: bool, w: nat -> nat): nat
    decreases es, 0
  {
    if es == [] then 0
    else
      var e := es[0];
      assert e.val < e;
      (if onLine then 0 else w(depth)) + ValueBreaks(e.val, depth, w) + EntryBreaks(es[1..], depth, onLine, w)
  }

  // ---------------------------------------------------------------- the text

  lemma PieceBreaks(indent: Bytes, first: bool, lay: Layout, b: byte, w: nat -> nat, front: Bytes, back: Bytes)
    requires Weighs(indent, b, w) && Clean(front) && Clean(back)
    ensures Count(front + Indent(indent, first, lay) + back, b) == if lay.oneLine then 0 else w(lay.nest)
  {
    CountThree(front, Indent(indent, first, lay), back, b);
    CountClean(front, b);
    CountClean(back, b);
    if lay.oneLine {
      CountClean(Indent(indent, first, lay), b);
    }
  }

  lemma SeparatorBreaks(indent: Bytes, first: bool, lay: Layout, b: byte, w: nat -> nat)
    requires Weighs(indent, b, w)
    ensures Count((if first then [] else [COMMA]) + Indent(indent, first, lay), b)
         == if lay.oneLine then 0 else w(lay.nest)
  {
    var front: Bytes, back: Bytes := if first then [] else [COMMA], [];
    PieceBreaks(indent, first, lay, b, w, front, back);
    assert front + Indent(indent, first, lay) + back == front + Indent(indent, first, lay);
  }

  lemma EndBreaks(indent: Bytes, k: Kind, lay: Layout, b: byte, w: nat -> nat)
    requires Weighs(indent, b, w)
    ensures Count(Indent(indent, true, lay) + [EndByte(k)], b) == if lay.oneLine then 0 else w(lay.nest)
  {
    var front: Bytes := [];
    PieceBreaks(indent, true, lay, b, w, front, [EndByte(k)]);
    assert front + Indent(indent, true, lay) + [EndByte(k)] == Indent(indent, true, lay) + [EndByte(k)];
  }

  lemma LeafBreaks(x: Body, k: Kind, b: byte)
    requires b == LINE_END || b == TAB
    ensures Count(Leaf(x), b) == 0 && Count(BeginText(k), b) == 0 && Count([COLON], b) == 0
  {
    JournalValues.CleanLeaf(x);
    CountClean(Leaf(x), b);
    CountClean(BeginText(k), b);
    CountClean([COLON], b);
  }

  /** A codec that breaks lines so. */
  ghost predicate BreaksLines(c: Codec, b: byte, w: nat -> nat)
  {
    && (forall x: Body :: Count(c.leaf(x), b) == 0)
    && (forall k: Kind :: Count(c.begin(k), b) == 0)
    && Count(c.keySep, b) == 0
    && (forall first: bool, lay: Layout :: Count(c.sep(first, lay), b) == if lay.oneLine then 0 else w(lay.nest))
    && (forall k: Kind, lay: Layout :: Count(c.end(k, lay), b) == if lay.oneLine then 0 else w(lay.nest))
  }

  lemma CponBreaksLines(indent: Bytes, dateText: Lexer, floatKey: Body -> Option<int>, b: byte, w: nat -> nat)
    requires Weighs(indent, b, w)
    ensures BreaksLines(CponCodec(indent, dateText, floatKey), b, w)
  {
    hide Indent, Leaf, Count, Weighs;
    var c := CponCodec(indent, dateText, floatKey);
    forall x: Body, k: Kind ensures Count(c.leaf(x), b) == 0 && Count(c.begin(k), b) == 0 && Count(c.keySep, b) == 0 {
      Marks(indent, b, w);
      LeafBreaks(x, k, b);
    }
    forall first: bool, lay: Layout ensures Count(c.sep(first, lay), b) == if lay.oneLine then 0 else w(lay.nest) {
      SeparatorBreaks(indent, first, lay, b, w);
    }
    forall k: Kind, lay: Layout ensures Count(c.end(k, lay), b) == if lay.oneLine then 0 else w(lay.nest) {
      EndBreaks(indent, k, lay, b, w);
    }
    assert Count(c.leaf(Null), b) == 0 && Count(c.begin(ListKind), b) == 0 && Count(c.keySep, b) == 0;
  }

  lemma Marks(indent: Bytes, b: byte, w: nat -> nat)
    requires Weighs(indent, b, w)
    ensures b == LINE_END || b == TAB
  {
  }

  lemma {:induction false} TextBreaks(c: Codec, v: Value, nest: nat, b: byte, w: nat -> nat)
    requires BreaksLines(c, b, w)
    ensures Count(Write(c, v, nest), b) == ValueBreaks(v, nest, w)
    decreases v, 2
  {
    hide WriteBody, BodyBreaks, WriteEntries, EntryBreaks;
    BodyTextBreaks(c, v.body, nest, b, w);
    CountParts(WriteMeta(c, v, nest), WriteBody(c, v.body, nest), b);
    if v.meta != [] {
      var lay := Layout(nest + 1, OneLineMap(v.meta));
      EntriesTextBreaks(c, v.meta, lay, true, b, w);
      CountThree(c.begin(MetaKind), WriteEntries(c, v.meta, lay, true), c.end(MetaKind, Layout(nest, lay.oneLine)), b);
    }
  }

  lemma {:induction false} BodyTextBreaks(c: Codec, x: Body, nest: nat, b: byte, w: nat -> nat)
    requires BreaksLines(c, b, w)
    ensures Count(WriteBody(c, x, nest), b) == BodyBreaks(x, nest, w)
    decreases x, 1
  {
    hide Count, WriteList, WriteEntries, ItemBreaks, EntryBreaks;
    match x
    case List(vs) =>
      var lay := Layout(nest + 1, OneLineList(vs));
      ItemsTextBreaks(c, vs, lay, true, b, w);
      CountThree(c.begin(ListKind), WriteList(c, vs, lay, true), c.end(ListKind, Layout(nest, lay.oneLine)), b);
    case Map(es) =>
      var lay := Layout(nest + 1, OneLineMap(es));
      EntriesTextBreaks(c, es, lay, true, b, w);
      CountThree(c.begin(MapKind), WriteEntries(c, es, lay, true), c.end(MapKind, Layout(nest, lay.oneLine)), b);
    case IMap(es) =>
      var lay := Layout(nest + 1, OneLineMap(es));
      EntriesTextBreaks(c, es, lay, true, b, w);
      CountThree(c.begin(IMapKind), WriteEntries(c, es, lay, true), c.end(IMapKind, Layout(nest, lay.oneLine)), b);
    case _ =>
  }

  lemma {:induction false} ItemsTextBreaks(c: Codec, vs: seq<Value>, lay: Layout, first: bool, b: byte, w: nat -> nat)
    requires BreaksLines(c, b, w)
    ensures Count(WriteList(c, vs, lay, first), b) == ItemBreaks(vs, lay.nest, lay.oneLine, w)
    decreases vs, 0
  {
    if vs != [] {
      TextBreaks(c, vs[0], lay.nest, b, w);
      ItemsTextBreaks(c, vs[1..], lay, false, b, w);
      CountThree(c.sep(first, lay), Write(c, vs[0], lay.nest), WriteList(c, vs[1..], lay, false), b);
    }
  }

  lemma {:induction false} EntriesTextBreaks(c: Codec, es: seq<Entry>, lay: Layout, first: bool, b: byte, w: nat -> nat)
    requires BreaksLines(c, b, w)
    ensures Count(WriteEntries(c, es, lay, first), b) == EntryBreaks(es, lay.nest, lay.oneLine, w)
    decreases es, 0
  {
    if es != [] {
      var e := es[0];
      assert e.val < e;
      TextBreaks(c, e.val, lay.nest, b, w);
      EntriesTextBreaks(c, es[1..], lay, false, b, w);
      var front := c.sep(first, lay) + c.leaf(KeyBody(e.key)) + c.keySep;
      CountThree(c.sep(first, lay), c.leaf(KeyBody(e.key)), c.keySep, b);
      CountThree(front, Write(c, e.val, lay.nest), WriteEntries(c, es[1..], lay, false), b);
    }
  }

  // ---------------------------------------------------------------- lines and indentation

  lemma {:induction false} CountRepeated(s: Bytes, n: nat, b: byte)
    ensures Count(Repeat(s, n), b) == n * Count(s, b)
  {
    if n > 0 {
      CountRepeated(s, n - 1, b);
      CountParts(s, Repeat(s, n - 1), b);
      MulDistributes(1, n - 1, Count(s, b));
    }
  }

  /** The number of lines: a container is broken into lines exactly if it is long or holds other containers. */
  lemma LinesAreRight(indent: Bytes, dateText: Lexer, floatKey: Body -> Option<int>, v: Value)
    requires indent != [] && LINE_END !in indent
    ensures Count(Write(CponCodec(indent, dateText, floatKey), v, 0), LINE_END) == ValueBreaks(v, 0, (d: nat) => 1)
  {
    var one := (d: nat) => 1;
    forall d: nat ensures Count([NEW_LINE] + Repeat(UpToNul(indent), d), LINE_END) == one(d) {
      NotIn(UpToNul(indent), LINE_END);
      CountRepeated(UpToNul(indent), d, LINE_END);
      CountParts([NEW_LINE], Repeat(UpToNul(indent), d), LINE_END);
      assert [NEW_LINE][1..] == [];
    }
    CponBreaksLines(indent, dateText, floatKey, LINE_END, one);
    TextBreaks(CponCodec(indent, dateText, floatKey), v, 0, LINE_END, one);
  }

  lemma {:induction false} NotIn(s: Bytes, b: byte)
    requires b !in s
    ensures Count(s, b) == 0
  {
    if s != [] {
      assert s[0] in s && forall x | x in s[1..] :: x in s;
      NotIn(s[1..], b);
    }
  }

  /** Indented by tabs, each line has as many of them as it is deep. */
  lemma IndentIsDepth(dateText: Lexer, floatKey: Body -> Option<int>, v: Value)
    ensures Count(Write(CponCodec([TAB], dateText, floatKey), v, 0), TAB) == ValueBreaks(v, 0, (d: nat) => d)
  {
    var depth := (d: nat) => d;
    assert UpToNul([TAB]) == [TAB] && [TAB][1..] == [] && Count([TAB], TAB) == 1;
    forall d: nat ensures Count([NEW_LINE] + Repeat(UpToNul([TAB]), d), TAB) == depth(d) {
      CountRepeated([TAB], d, TAB);
      CountParts([NEW_LINE], Repeat([TAB], d), TAB);
      assert [NEW_LINE][1..] == [];
    }
    CponBreaksLines([TAB], dateText, floatKey, TAB, depth);
    TextBreaks(CponCodec([TAB], dateText, floatKey), v, 0, TAB, depth);
  }
}
