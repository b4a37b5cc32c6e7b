/** The value column of a journal file is CPON text: which values survive it, and so which entries are faithful. */
module JournalValues {
  import opened ByteStrings
  import opened RpcValues
  import opened Codecs
  import opened CodecRoundTrip
  import opened DecimalDigits
  import opened CponNumbers
  import opened DecimalTexts
  import opened Chunks
  import opened Cpon
  import CponTheorems
  import Journals
  import opened ShvFileJournals
  import opened JournalTexts
  import opened JournalReading
  import opened Calendar
  import opened TimeTexts
  import opened NamedJournals

  // ---------------------------------------------------------------- text without separators

  ghost predicate CleanCodec(c: Codec)
  {
    && (forall b: Body :: Clean(c.leaf(b)))
    && (forall k: Kind :: Clean(c.begin(k)))
    && (forall k: Kind, lay: Layout :: Clean(c.end(k, lay)))
    && (forall first: bool, lay: Layout :: Clean(c.sep(first, lay)))
    && Clean(c.keySep)
  }

  lemma CleanParts(a: Bytes, b: Bytes)
    ensures Clean(a + b) <==> Clean(a) && Clean(b)
  {
    assert forall i | 0 <= i < |a| :: (a + b)[i] == a[i];
    assert forall i | 0 <= i < |b| :: (a + b)[|a| + i] == b[i];
  }

  lemma CleanThree(a: Bytes, b: Bytes, d: Bytes)
    requires Clean(a) && Clean(b) && Clean(d)
    ensures Clean(a + b + d)
  {
    CleanParts(a + b, d);
    CleanParts(a, b);
  }

  lemma {:induction false} CleanWrite(c: Codec, v: Value, nest: nat)
    requires CleanCodec(c)
    ensures Clean(Write(c, v, nest))
    decreases v, 2
  {
    CleanBody(c, v.body, nest);
    if v.meta != [] {
      var lay := Layout(nest + 1, OneLineMap(v.meta));
      CleanEntries(c, v.meta, lay, true);
      CleanThree(c.begin(MetaKind), WriteEntries(c, v.meta, lay, true), c.end(MetaKind, Layout(nest, lay.oneLine)));
    }
    CleanParts(WriteMeta(c, v, nest), WriteBody(c, v.body, nest));
  }

  lemma {:induction false} CleanBody(c: Codec, b: Body, nest: nat)
    requires CleanCodec(c)
    ensures Clean(WriteBody(c, b, nest))
    decreases b, 1
  {
    match b
    case List(vs) =>
      var lay := Layout(nest + 1, OneLineList(vs));
      CleanList(c, vs, lay, true);
      CleanThree(c.begin(ListKind), WriteList(c, vs, lay, true), c.end(ListKind, Layout(nest, lay.oneLine)));
    case Map(es) =>
      var lay := Layout(nest + 1, OneLineMap(es));
      CleanEntries(c, es, lay, true);
      CleanThree(c.begin(MapKind), WriteEntries(c, es, lay, true), c.end(MapKind, Layout(nest, lay.oneLine)));
    case IMap(es) =>
      var lay := Layout(nest + 1, OneLineMap(es));
      CleanEntries(c, es, lay, true);
      CleanThree(c.begin(IMapKind), WriteEntries(c, es, lay, true), c.end(IMapKind, Layout(nest, lay.oneLine)));
    case _ =>
  }

  lemma {:induction false} CleanList(c: Codec, vs: seq<Value>, lay: Layout, first: bool)
    requires CleanCodec(c)
    ensures Clean(WriteList(c, vs, lay, first))
    decreases vs, 0
  {
    if vs != [] {
      CleanWrite(c, vs[0], lay.nest);
      CleanList(c, vs[1..], lay, false);
      CleanThree(c.sep(first, lay), Write(c, vs[0], lay.nest), WriteList(c, vs[1..], lay, false));
    }
  }

  lemma {:induction false} CleanEntries(c: Codec, es: seq<Entry>, lay: Layout, first: bool)
    requires CleanCodec(c)
    ensures Clean(WriteEntries(c, es, lay, first))
    decreases es, 0
  {
    if es != [] {
      var e := es[0];
      assert e.val < e;
      CleanWrite(c, e.val, lay.nest);
      CleanEntries(c, es[1..], lay, false);
      CleanThree(c.sep(first, lay), c.leaf(KeyBody(e.key)), c.keySep);
      CleanThree(c.sep(first, lay) + c.leaf(KeyBody(e.key)) + c.keySep, Write(c, e.val, lay.nest),
        WriteEntries(c, es[1..], lay, false));
    }
  }

  lemma CleanDigits(n: nat)
    ensures Clean(Digits(n))
  {
    forall i | 0 <= i < |Digits(n)| ensures Digits(n)[i] >= 48 {
      assert IsDigit(Digits(n)[i]);
    }
  }

  lemma CleanNumber(i: int)
    ensures Clean(ToString(i))
  {
    CleanDigits(if i < 0 then -i else i);
    CleanParts([MINUS], Digits(if i < 0 then -i else i));
  }

  lemma CleanZeros(n: nat)
    ensures Clean(Zeros(n))
  {
    forall i | 0 <= i < n ensures Zeros(n)[i] >= 48 {
      assert IsDigit(Zeros(n)[i]);
    }
  }

  lemma CleanSlice(s: Bytes, k: nat)
    requires Clean(s) && k <= |s|
    ensures Clean(s[..k]) && Clean(s[k..])
  {
  }

  lemma CleanUnsigned(digs: Bytes, e: int)
    requires Clean(digs)
    ensures Clean(UnsignedText(digs, e))
  {
    var places := if e < 0 then -e else 0;
    CleanNumber(e);
    if 0 < places < |digs| {
      CleanSlice(digs, |digs| - places);
      CleanThree(digs[..|digs| - places], [DOT], digs[|digs| - places..]);
    } else if 0 < places <= 3 {
      CleanZeros(places - |digs|);
      CleanThree([ZERO, DOT], Zeros(places - |digs|), digs);
    } else if e > 0 && |digs| + e <= 9 {
      CleanZeros(e);
      CleanThree(digs, Zeros(e), [DOT]);
    } else if e == 0 {
      CleanParts(digs, [DOT]);
    } else {
      CleanThree(digs, [CHAR_E], ToString(e));
    }
  }

  lemma CleanDecimal(m: int, e: int)
    ensures Clean(DecimalText(m, e))
  {
    CleanDigits(Abs(m));
    CleanUnsigned(Digits(Abs(m)), e);
    CleanParts(if m < 0 then [MINUS] else [], UnsignedText(Digits(Abs(m)), e));
  }

  lemma {:induction false} CleanEscape(a: Alphabet, data: Bytes)
    requires a == CponString || a == CponBlob
    ensures Clean(Escape(a, data))
  {
    if data != [] {
      CleanEscape(a, data[1..]);
      assert Clean(EscapeByte(a, data[0]));
      CleanParts(EscapeByte(a, data[0]), Escape(a, data[1..]));
    }
  }

  lemma CleanLeaf(b: Body)
    ensures Clean(Leaf(b))
  {
    if Accepts(b) {
      match b
      case Null =>
      case Bool(_) =>
      case Int(i) => CleanNumber(i);
      case UInt(u) =>
        CleanDigits(u);
        CleanParts(Digits(u), [CHAR_U]);
      case Decimal(m, e) => CleanDecimal(m, e);
      case String(x) =>
        CleanEscape(CponString, x);
        CleanThree([QUOTE], Escape(CponString, x), [QUOTE]);
      case Blob(x) =>
        CleanEscape(CponBlob, CastLength(x));
        CleanThree([CHAR_B, QUOTE], Escape(CponBlob, CastLength(x)), [QUOTE]);
    }
  }

  lemma CleanFrames(k: Kind, lay: Layout, first: bool)
    ensures Clean(Indent([], true, lay) + [EndByte(k)]) && Clean(BeginText(k))
    ensures Clean((if first then [] else [COMMA]) + Indent([], first, lay))
  {
  }

  lemma CponPiecesAreClean(c: Codec, dateText: Lexer, floatKey: Body -> Option<int>, b: Body, k: Kind, lay: Layout,
                           first: bool)
    requires c == CponCodec([], dateText, floatKey)
    ensures Clean(c.leaf(b)) && Clean(c.begin(k)) && Clean(c.end(k, lay)) && Clean(c.sep(first, lay)) && Clean(c.keySep)
  {
    CleanLeaf(b);
    CleanFrames(k, lay, first);
  }

  /** CPON on one line holds no tab, no line end and no zero byte. */
  lemma CponIsClean(c: Codec, dateText: Lexer, floatKey: Body -> Option<int>)
    requires c == CponCodec([], dateText, floatKey)
    ensures CleanCodec(c)
  {
    var none, line := Null, Layout(0, true);
    forall b: Body ensures Clean(c.leaf(b)) {
      CponPiecesAreClean(c, dateText, floatKey, b, ListKind, line, true);
    }
    forall k: Kind, lay: Layout ensures Clean(c.begin(k)) && Clean(c.end(k, lay)) {
      CponPiecesAreClean(c, dateText, floatKey, none, k, lay, true);
    }
    forall first: bool, lay: Layout ensures Clean(c.sep(first, lay)) {
      CponPiecesAreClean(c, dateText, floatKey, none, ListKind, lay, first);
    }
    CponPiecesAreClean(c, dateText, floatKey, none, ListKind, line, true);
    forall k: Kind ensures Clean(c.begin(k)) {
      CponPiecesAreClean(c, dateText, floatKey, none, k, line, true);
    }
  }

  // ---------------------------------------------------------------- values that survive

  /** No leaf, in the tree or its metadata, is changed by the format. */
  ghost predicate AllKept(c: Codec, v: Value)
    decreases v, 2
  {
    AllKeptEntries(c, v.meta) && AllKeptBody(c, v.body)
  }

  ghost predicate AllKeptBody(c: Codec, b: Body)
    decreases b, 1
  {
    match b
    case Invalid => false
    case List(vs) => forall i | 0 <= i < |vs| :: AllKept(c, vs[i])
    case Map(es) => AllKeptEntries(c, es)
    case IMap(es) => AllKeptEntries(c, es)
    case _ => c.kept(b) == b
  }

  ghost predicate AllKeptEntries(c: Codec, es: seq<Entry>)
    decreases es, 0
  {
    forall i | 0 <= i < |es| :: (assert es[i].val < es[i]; AllKept(c, es[i].val))
  }

  lemma {:induction false} SurvivesIff(c: Codec, v: Value)
    ensures AsRead(c, v) == v <==> AllKept(c, v)
    decreases v, 2
  {
    EntriesSurviveIff(c, v.meta);
    match v.body
    case List(vs) => ListSurvivesIff(c, vs);
    case Map(es) => EntriesSurviveIff(c, es);
    case IMap(es) => EntriesSurviveIff(c, es);
    case _ =>
  }

  lemma {:induction false} ListSurvivesIff(c: Codec, vs: seq<Value>)
    ensures ListAsRead(c, vs) == vs <==> forall i | 0 <= i < |vs| :: AllKept(c, vs[i])
    decreases vs, 0
  {
    if vs != [] {
      SurvivesIff(c, vs[0]);
      ListSurvivesIff(c, vs[1..]);
      assert vs == [vs[0]] + vs[1..];
      assert forall i | 1 <= i < |vs| :: vs[i] == vs[1..][i - 1];
      assert ListAsRead(c, vs)[1..] == ListAsRead(c, vs[1..]);
    }
  }

  lemma {:induction false} EntriesSurviveIff(c: Codec, es: seq<Entry>)
    ensures EntriesAsRead(c, es) == es <==> AllKeptEntries(c, es)
    decreases es, 0
  {
    if es != [] {
      assert es[0].val < es[0];
      SurvivesIff(c, es[0].val);
      EntriesSurviveIff(c, es[1..]);
      assert es == [es[0]] + es[1..];
      assert forall i | 1 <= i < |es| :: es[i] == es[1..][i - 1];
      assert EntriesAsRead(c, es)[1..] == EntriesAsRead(c, es[1..]);
    }
  }

  /** The leaves that CPON changes: large unsigned numbers, large blobs, and decimals that are written out in full. */
  lemma LeafIsKeptIff(b: Body)
    requires Accepts(b)
    ensures Kept(b) == b <==>
      match b
      case UInt(u) => u < TWO_63
      case Decimal(m, e) => !(e > 0 && |Digits(Abs(m))| + e <= 9)
      case Blob(x) => |x| < TWO_32
      case _ => true
  {
  }

  // ---------------------------------------------------------------- the file's own texts

  /** How flags are written and read, and which values are node drops. */
  datatype Marks = Marks(flagsText: (bool, bool) -> Bytes, readFlags: Bytes -> (bool, bool), isDrop: Value -> bool)

  ghost predicate MarksSurvive(m: Marks)
  {
    && (forall a: bool, b: bool :: Clean(m.flagsText(a, b)) && m.readFlags(m.flagsText(a, b)) == (a, b))
    && !m.isDrop(NULL_VALUE)
  }

  function ReadValue(c: Codec, s: Bytes): Option<Value>
  {
    var r := Read(c, s);
    if r.Fail? then None else Some(r.val)
  }

  /** Times are ISO texts; values are written on one line with `toCpon` and read with `fromCpon`. */
  function FileTexts(m: Marks, dateText: Lexer, floatKey: Body -> Option<int>): Texts
  {
    var c := CponCodec([], dateText, floatKey);
    Texts(TimeText, ReadTime, v => Write(c, v, 0), s => ReadValue(c, s), m.flagsText, m.readFlags, m.isDrop)
  }

  lemma WrittenValueReads(dateText: Lexer, floatKey: Body -> Option<int>, v: Value)
    requires Writable(CponCodec([], dateText, floatKey), v)
    ensures var c := CponCodec([], dateText, floatKey); ReadValue(c, Write(c, v, 0)) == Some(AsRead(c, v))
  {
    var text := Write(CponCodec([], dateText, floatKey), v, 0);
    assert text + [] == text;
    CponTheorems.CponRoundTrip([], dateText, floatKey, v, []);
  }

  lemma FileTextsAreLawful(m: Marks, dateText: Lexer, floatKey: Body -> Option<int>)
    requires MarksSurvive(m)
    ensures TextsLawful(FileTexts(m, dateText, floatKey))
  {
    var c := CponCodec([], dateText, floatKey);
    CponIsClean(c, dateText, floatKey);
    forall v: Value ensures Clean(Write(c, v, 0)) {
      CleanWrite(c, v, 0);
    }
    forall x: int ensures Clean(TimeText(x)) && ReadTime(TimeText(x)).Some? {
      TimeColumnIsClean(x);
      TimeReads(x);
    }
    NullIsWritable(dateText, floatKey);
    WrittenValueReads(dateText, floatKey, NULL_VALUE);
  }

  lemma CleanPad(n: nat)
    ensures Clean(Pad2(n))
  {
    forall i | 0 <= i < |Pad2(n)| ensures Pad2(n)[i] >= 48 {
      assert IsDigit(Pad2(n)[i]);
    }
  }

  lemma CleanField(n: nat, sep: byte, rest: Bytes)
    requires Clean([sep]) && Clean(rest)
    ensures Clean(Field(n, sep, rest))
  {
    CleanPad(n);
    CleanParts([sep], rest);
    CleanParts(Pad2(n), [sep] + rest);
  }

  lemma CleanDate(tm: Tm, rest: Bytes)
    requires ValidTm(tm) && Clean(rest)
    ensures Clean(DateText(tm, CLOCK_SEP, CLOCK_SEP, rest))
  {
    var s5 := Pad2(tm.sec) + rest;
    CleanPad(tm.sec);
    CleanParts(Pad2(tm.sec), rest);
    var s4 := Field(tm.min, CLOCK_SEP, s5);
    CleanField(tm.min, CLOCK_SEP, s5);
    var s3 := Field(tm.hour, CLOCK_SEP, s4);
    CleanField(tm.hour, CLOCK_SEP, s4);
    var s2 := Field(tm.mday, TIME_MARK, s3);
    CleanField(tm.mday, TIME_MARK, s3);
    CleanField(tm.month + 1, MINUS, s2);
    CleanField(tm.year % TWO_32, MINUS, Field(tm.month + 1, MINUS, s2));
  }

  lemma CleanMsec(msec: int, second: byte)
    requires IsDigit(second)
    ensures Clean(MsecText(msec, second, false) + [UTC_MARK])
  {
    var n := msec % TWO_32;
    CleanDigits(n);
    CleanParts([ZERO, second], Digits(n));
    CleanParts([ZERO], Digits(n));
    CleanParts([DOT], Pad3(n, second));
    CleanParts(MsecText(msec, second, false), [UTC_MARK]);
  }

  lemma TimeColumnIsClean(x: int)
    ensures Clean(TimeText(x))
  {
    var ms := Held(x);
    TextOf(ms, TmOf(ms));
    CleanMsec(Msec(ms), SecondDigit(TmOf(ms).year));
    CleanDate(TmOf(ms), MsecText(Msec(ms), SecondDigit(TmOf(ms).year), false) + [UTC_MARK]);
  }

  lemma NullIsWritable(dateText: Lexer, floatKey: Body -> Option<int>)
    ensures var c := CponCodec([], dateText, floatKey); Writable(c, NULL_VALUE) && AsRead(c, NULL_VALUE) == NULL_VALUE
  {
  }

  lemma ValueColumn(m: Marks, dateText: Lexer, floatKey: Body -> Option<int>, v: Value)
    requires Writable(CponCodec([], dateText, floatKey), v)
    ensures var t := FileTexts(m, dateText, floatKey);
      t.readValue(t.valueText(v)) == Some(AsRead(CponCodec([], dateText, floatKey), v)) && t.isDrop == m.isDrop
  {
    WrittenValueReads(dateText, floatKey, v);
  }

  /** A value change survives its file, in every run, exactly if its path is there and clean and no leaf is changed. */
  lemma ChangeIsFaithfulIff(m: Marks, dateText: Lexer, floatKey: Body -> Option<int>, e: Journals.Entry)
    requires MarksSurvive(m) && IsChange(e) && !m.isDrop(e.value)
    requires Writable(CponCodec([], dateText, floatKey), e.value)
    ensures Faithful(FileTexts(m, dateText, floatKey), e) <==>
      e.path != [] && Clean(e.path) && AllKept(CponCodec([], dateText, floatKey), e.value)
  {
    ValueColumn(m, dateText, floatKey, e.value);
    SurvivesIff(CponCodec([], dateText, floatKey), e.value);
    FaithfulChangeIff(FileTexts(m, dateText, floatKey), e, AsRead(CponCodec([], dateText, floatKey), e.value));
  }

  lemma LargeNumberReads(dateText: Lexer, floatKey: Body -> Option<int>)
    ensures var c, v := CponCodec([], dateText, floatKey), Value([], UInt(TWO_63));
      Writable(c, v) && AsRead(c, v) == Value([], UInt(INT64_MAX))
  {
  }

  /** One change to 2^63: the file that is read shows the largest signed number in its place. */
  lemma LargeNumberIsLost(m: Marks, dateText: Lexer, floatKey: Body -> Option<int>)
    requires MarksSurvive(m)
    ensures var e := Journals.Entry(1, [97], Value([], UInt(TWO_63)), false, Journals.VAL_CHANGE, false, false);
      var j := NamedRun(ROOMY, [Call(NullAt([98]), 1), Call(e, 1)]);
      !ReplaysAsRead(FileTexts(m, dateText, floatKey), j)
  {
    var value := Value([], UInt(TWO_63));
    var e := Journals.Entry(1, [97], value, false, Journals.VAL_CHANGE, false, false);
    FileTextsAreLawful(m, dateText, floatKey);
    LargeNumberReads(dateText, floatKey);
    ValueColumn(m, dateText, floatKey, value);
    ChangedValueIsLost(FileTexts(m, dateText, floatKey), e, Value([], UInt(INT64_MAX)));
  }

  lemma PlainChangeIff(t: Texts, e: Journals.Entry, value: Value)
    requires IsChange(e) && t.readValue(t.valueText(e.value)) == Some(value) && !t.isDrop(e.value)
    ensures Plain(t, e) <==> e.path != [] && Clean(e.path) && TimeSurvives(t, e.time) && value == e.value
  {
  }

  lemma TimeColumn(m: Marks, dateText: Lexer, floatKey: Body -> Option<int>, time: int)
    ensures TimeSurvives(FileTexts(m, dateText, floatKey), time) <==> TimeKept(time)
  {
    hide TimeText, ReadTime, TimeKept;
    TimeSurvivesIff(time);
  }

  /** A change survives its row exactly if its path is there and clean, its time is kept and no leaf is changed. */
  lemma ChangeReadsBackIff(m: Marks, dateText: Lexer, floatKey: Body -> Option<int>, e: Journals.Entry)
    requires MarksSurvive(m) && IsChange(e) && !m.isDrop(e.value)
    requires Writable(CponCodec([], dateText, floatKey), e.value)
    ensures ReadRow(FileTexts(m, dateText, floatKey), e) == [e] <==>
      && e.path != [] && Clean(e.path) && TimeKept(e.time)
      && AllKept(CponCodec([], dateText, floatKey), e.value)
  {
    hide TimeKept, FileTexts, Plain, ReadRow, AllKept, TimeSurvives;
    var t, c := FileTexts(m, dateText, floatKey), CponCodec([], dateText, floatKey);
    FileTextsAreLawful(m, dateText, floatKey);
    ValueColumn(m, dateText, floatKey, e.value);
    SurvivesIff(c, e.value);
    TimeColumn(m, dateText, floatKey, e.time);
    PlainChangeIff(t, e, AsRead(c, e.value));
    RowReadsBackIff(t, e);
  }
}
