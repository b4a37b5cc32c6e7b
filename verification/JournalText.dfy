/**
 The text of journal files: a line per row and a field per column (libshvcore/src/utils/shvjournalfilewriter.cpp),
 and the reader that splits it again (libshvcore/src/utils/shvjournalfilereader.cpp).
 */
module JournalTexts {
  import opened ByteStrings
  import RpcValues
  import opened Journals

  const NUL: byte := 0
  const TAB: byte := 9
  const LINE_END: byte := 10

  const NULL_VALUE := RpcValues.Value([], RpcValues.Null)

  /** How the columns that are not plain text are written and read; `isDrop` looks at the meta type of a value. */
  datatype Texts = Texts(
    timeText: int -> Bytes, readTime: Bytes -> Option<int>,
    valueText: RpcValues.Value -> Bytes, readValue: Bytes -> Option<RpcValues.Value>,
    flagsText: (bool, bool) -> Bytes, readFlags: Bytes -> (bool, bool),
    isDrop: RpcValues.Value -> bool)

  /** Text without the bytes that end a field or a line, or that the reader leaves out. */
  predicate Clean(s: Bytes) { forall i | 0 <= i < |s| :: s[i] != NUL && s[i] != TAB && s[i] != LINE_END }

  predicate OneLine(s: Bytes) { forall i | 0 <= i < |s| :: s[i] != NUL && s[i] != LINE_END }

  /** Every time is read, as some time; flags survive, all columns are clean, and null is read as null. */
  ghost predicate TextsLawful(t: Texts)
  {
    && (forall m: int :: Clean(t.timeText(m)) && t.readTime(t.timeText(m)).Some?)
    && (forall v: RpcValues.Value :: Clean(t.valueText(v)))
    && (forall a: bool, b: bool :: Clean(t.flagsText(a, b)) && t.readFlags(t.flagsText(a, b)) == (a, b))
    && t.readValue(t.valueText(NULL_VALUE)) == Some(NULL_VALUE) && !t.isDrop(NULL_VALUE)
  }

  // ---------------------------------------------------------------- writing

  /** The columns of a row; the time of entry, the short time and the user are not modelled, and left empty. */
  function Columns(t: Texts, e: Entry): (r: seq<Bytes>)
    ensures |r| == 8
  {
    [t.timeText(e.time), [], e.path, t.valueText(e.value), [], e.domain, t.flagsText(e.isSnapshot, e.isSpontaneous), []]
  }

  function Joined(fields: seq<Bytes>): Bytes
    requires fields != []
  {
    if |fields| == 1 then fields[0] else fields[0] + ([TAB] + Joined(fields[1..]))
  }

  function LineText(t: Texts, e: Entry): Bytes { Joined(Columns(t, e)) + [LINE_END] }

  function FileText(t: Texts, rows: seq<Entry>): Bytes
  {
    if rows == [] then [] else LineText(t, rows[0]) + FileText(t, rows[1..])
  }

  lemma FirstField(x: Bytes, more: seq<Bytes>)
    requires more != []
    ensures Joined([x] + more) == x + ([TAB] + Joined(more))
  {
    assert ([x] + more)[1..] == more;
  }

  lemma TwoTabs(x: Bytes)
    ensures [TAB] + ([] + ([TAB] + x)) == [TAB, TAB] + x
  {
  }

  /** A line: time, time of entry, path, value, short time, domain, flags and user, with tabs between them. */
  lemma LineLooks(t: Texts, e: Entry)
    ensures var end := t.flagsText(e.isSnapshot, e.isSpontaneous) + ([TAB] + []);
      LineText(t, e)
        == t.timeText(e.time) + ([TAB, TAB] + (e.path + ([TAB] + (t.valueText(e.value)
          + ([TAB, TAB] + (e.domain + ([TAB] + end))))))) + [LINE_END]
  {
    var none: Bytes := [];
    var flags, domain, value := t.flagsText(e.isSnapshot, e.isSpontaneous), e.domain, t.valueText(e.value);
    var user: seq<Bytes> := [none];
    var s6 := [flags] + user;
    var s5 := [domain] + s6;
    var s4 := [none] + s5;
    var s3 := [value] + s4;
    var s2 := [e.path] + s3;
    var s1 := [none] + s2;
    assert Columns(t, e) == [t.timeText(e.time)] + s1;
    assert Joined(user) == none;
    hide Joined, Columns;
    FirstField(flags, user);
    FirstField(domain, s6);
    FirstField(none, s5);
    FirstField(value, s4);
    FirstField(e.path, s3);
    FirstField(none, s2);
    FirstField(t.timeText(e.time), s1);
    TwoTabs(Joined(s5));
    TwoTabs(Joined(s2));
  }

  // ---------------------------------------------------------------- reading

  /** The lines of a text; zero bytes are left out. */
  function Lines(s: Bytes): (r: seq<Bytes>)
    ensures r != []
  {
    if s == [] then [[]]
    else
      var more := Lines(s[1..]);
      if s[0] == LINE_END then [[]] + more
      else if s[0] == NUL then more
      else [[s[0]] + more[0]] + more[1..]
  }

  function Fields(line: Bytes): (r: seq<Bytes>)
    ensures r != []
  {
    if line == [] then [[]]
    else
      var more := Fields(line[1..]);
      if line[0] == TAB then [[]] + more else [[line[0]] + more[0]] + more[1..]
  }

  /** One line: without a time, a path or a readable value it is skipped; columns that are missing stay empty. */
  function ReadLine(t: Texts, line: Bytes): Option<Entry>
  {
    var f := Fields(line);
    var time := t.readTime(f[0]);
    if line == [] || |f| < 2 || time.None? then None
    else if |f| >= 3 && f[2] == [] then None
    else
      var value := if |f| >= 4 then t.readValue(f[3]) else Some(RpcValues.Value([], RpcValues.Invalid));
      if value.None? then None
      else
        var domain := if |f| < 6 then [] else if f[5] == [] then VAL_CHANGE else f[5];
        var flags := if |f| < 7 then (false, false) else t.readFlags(f[6]);
        var path := if |f| >= 3 then f[2] else [];
        Some(Entry(time.value, path, value.value, t.isDrop(value.value), domain, flags.0, flags.1))
  }

  function ReadLines(t: Texts, lines: seq<Bytes>): seq<Entry>
  {
    if lines == [] then []
    else
      var first := ReadLine(t, lines[0]);
      (if first.None? then [] else [first.value]) + ReadLines(t, lines[1..])
  }

  function ReadText(t: Texts, s: Bytes): seq<Entry> { ReadLines(t, Lines(s)) }

  /** What is read from the line that an entry was written to. */
  function ReadRow(t: Texts, e: Entry): seq<Entry> { ReadText(t, LineText(t, e)) }

  function ReadRows(t: Texts, rows: seq<Entry>): seq<Entry>
  {
    if rows == [] then [] else ReadRow(t, rows[0]) + ReadRows(t, rows[1..])
  }

  // ---------------------------------------------------------------- lines are read one by one

  lemma {:induction false} LinesAround(a: Bytes, b: Bytes)
    ensures Lines(a + ([LINE_END] + b)) == Lines(a) + Lines(b)
    decreases |a|
  {
    var s := a + ([LINE_END] + b);
    if a == [] {
      assert s[1..] == b;
    } else {
      assert s[1..] == a[1..] + ([LINE_END] + b) && s[0] == a[0];
      LinesAround(a[1..], b);
      InFront(a[0], Lines(a[1..]), Lines(b));
    }
  }

  /** What a byte does to the first of several lines. */
  lemma InFront(b: byte, more: seq<Bytes>, others: seq<Bytes>)
    requires more != []
    ensures [[b] + (more + others)[0]] + (more + others)[1..] == [[b] + more[0]] + more[1..] + others
  {
    assert (more + others)[1..] == more[1..] + others;
  }

  lemma {:induction false} ReadLinesConcat(t: Texts, a: seq<Bytes>, b: seq<Bytes>)
    ensures ReadLines(t, a + b) == ReadLines(t, a) + ReadLines(t, b)
    decreases |a|
  {
    if a == [] {
      assert a + b == b;
    } else {
      assert (a + b)[1..] == a[1..] + b;
      ReadLinesConcat(t, a[1..], b);
    }
  }

  lemma EmptyLine(t: Texts)
    ensures ReadLines(t, Lines([])) == []
  {
    assert Lines([])[1..] == [];
  }

  lemma RowThenRest(t: Texts, e: Entry, rest: Bytes)
    ensures ReadText(t, LineText(t, e) + rest) == ReadRow(t, e) + ReadText(t, rest)
  {
    TextThenRest(t, Joined(Columns(t, e)), rest);
  }

  lemma TextThenRest(t: Texts, line: Bytes, rest: Bytes)
    ensures ReadText(t, line + [LINE_END] + rest) == ReadText(t, line + [LINE_END]) + ReadText(t, rest)
  {
    LineThenRest(t, line, rest);
    LineThenRest(t, line, []);
    EmptyLine(t);
  }

  lemma LineThenRest(t: Texts, line: Bytes, rest: Bytes)
    ensures ReadText(t, line + [LINE_END] + rest) == ReadLines(t, Lines(line)) + ReadText(t, rest)
    ensures line + [LINE_END] + [] == line + [LINE_END]
  {
    assert line + [LINE_END] + rest == line + ([LINE_END] + rest);
    LinesAround(line, rest);
    ReadLinesConcat(t, Lines(line), Lines(rest));
  }

  /** A file is read row by row. */
  lemma {:induction false} FileIsReadByRows(t: Texts, rows: seq<Entry>)
    ensures ReadText(t, FileText(t, rows)) == ReadRows(t, rows)
  {
    if rows == [] {
      EmptyLine(t);
    } else {
      RowThenRest(t, rows[0], FileText(t, rows[1..]));
      FileIsReadByRows(t, rows[1..]);
    }
  }

  lemma {:induction false} ReadRowsConcat(t: Texts, a: seq<Entry>, b: seq<Entry>)
    ensures ReadRows(t, a + b) == ReadRows(t, a) + ReadRows(t, b)
    decreases |a|
  {
    if a == [] {
      assert a + b == b;
    } else {
      assert (a + b)[1..] == a[1..] + b;
      ReadRowsConcat(t, a[1..], b);
    }
  }

  // ---------------------------------------------------------------- what is read is clean

  lemma {:induction false} LinesAreOneLine(s: Bytes)
    ensures forall i | 0 <= i < |Lines(s)| :: OneLine(Lines(s)[i])
  {
    if s != [] {
      LinesAreOneLine(s[1..]);
    }
  }

  lemma {:induction false} FieldsAreClean(line: Bytes)
    requires OneLine(line)
    ensures forall i | 0 <= i < |Fields(line)| :: Clean(Fields(line)[i])
  {
    if line != [] {
      assert OneLine(line[1..]);
      FieldsAreClean(line[1..]);
      var more := Fields(line[1..]);
      assert Clean(more[0]);
      if line[0] != TAB {
        assert Clean([line[0]] + more[0]);
      }
    }
  }

  /** A value change is only read with a path. */
  predicate ReadShape(e: Entry) { Clean(e.path) && Clean(e.domain) && (e.path == [] ==> e.domain == []) }

  lemma LineReadsClean(t: Texts, line: Bytes)
    requires OneLine(line)
    ensures var r := ReadLine(t, line); r.Some? ==> ReadShape(r.value)
  {
    FieldsAreClean(line);
  }

  lemma {:induction false} ReadsClean(t: Texts, lines: seq<Bytes>)
    requires forall i | 0 <= i < |lines| :: OneLine(lines[i])
    ensures forall e | e in ReadLines(t, lines) :: ReadShape(e)
  {
    if lines != [] {
      LineReadsClean(t, lines[0]);
      assert forall i | 0 <= i < |lines[1..]| :: lines[1..][i] == lines[i + 1];
      ReadsClean(t, lines[1..]);
    }
  }

  /** No path or domain that is read holds a separator. */
  lemma RowReadsClean(t: Texts, e: Entry)
    ensures forall x | x in ReadRow(t, e) :: ReadShape(x)
  {
    LinesAreOneLine(LineText(t, e));
    ReadsClean(t, Lines(LineText(t, e)));
  }

  // ---------------------------------------------------------------- rows without separators

  lemma {:induction false} FieldThenMore(x: Bytes, more: Bytes)
    requires Clean(x)
    ensures Fields(x + ([TAB] + more)) == [x] + Fields(more)
    decreases |x|
  {
    var s := x + ([TAB] + more);
    if x == [] {
      assert s[1..] == more;
    } else {
      assert s[1..] == x[1..] + ([TAB] + more) && s[0] == x[0] && Clean(x[1..]);
      FieldThenMore(x[1..], more);
      assert [x[0]] + x[1..] == x;
    }
  }

  lemma {:induction false} OneField(x: Bytes)
    requires Clean(x)
    ensures Fields(x) == [x]
  {
    if x != [] {
      assert Clean(x[1..]);
      OneField(x[1..]);
      assert [x[0]] + x[1..] == x;
    }
  }

  lemma {:induction false} FieldsOfJoined(fields: seq<Bytes>)
    requires fields != [] && forall i | 0 <= i < |fields| :: Clean(fields[i])
    ensures Fields(Joined(fields)) == fields && OneLine(Joined(fields))
  {
    if |fields| == 1 {
      OneField(fields[0]);
    } else {
      assert forall i | 0 <= i < |fields[1..]| :: fields[1..][i] == fields[i + 1];
      FieldsOfJoined(fields[1..]);
      FieldThenMore(fields[0], Joined(fields[1..]));
    }
  }

  lemma {:induction false} OneLineIsLine(x: Bytes)
    requires OneLine(x)
    ensures Lines(x) == [x]
  {
    if x != [] {
      assert OneLine(x[1..]);
      OneLineIsLine(x[1..]);
      assert [x[0]] + x[1..] == x;
    }
  }

  /** The entry that is read from a row without separators. */
  function Reread(t: Texts, e: Entry): Option<Entry>
  {
    var time, value := t.readTime(t.timeText(e.time)), t.readValue(t.valueText(e.value));
    if e.path == [] || time.None? || value.None? then None
    else
      Some(e.(time := time.value, value := value.value, drop := t.isDrop(value.value),
              domain := if e.domain == [] then VAL_CHANGE else e.domain))
  }

  predicate CleanEntry(e: Entry) { Clean(e.path) && Clean(e.domain) }

  lemma CleanLineReads(t: Texts, e: Entry)
    requires TextsLawful(t) && CleanEntry(e)
    ensures var line := Joined(Columns(t, e)); OneLine(line) && ReadLine(t, line) == Reread(t, e)
  {
    var columns := Columns(t, e);
    assert Clean(t.timeText(e.time)) && Clean(t.valueText(e.value));
    assert Clean(t.flagsText(e.isSnapshot, e.isSpontaneous));
    FieldsOfJoined(columns);
    assert |Joined(columns)| >= 1;
  }

  lemma CleanRowReads(t: Texts, e: Entry)
    requires TextsLawful(t) && CleanEntry(e)
    ensures var r := Reread(t, e); ReadRow(t, e) == if r.None? then [] else [r.value]
  {
    var line := Joined(Columns(t, e));
    CleanLineReads(t, e);
    OneLineIsLine(line);
    assert LineText(t, e) == line + ([LINE_END] + []);
    LinesAround(line, []);
    var lines: seq<Bytes> := [line];
    ReadLinesConcat(t, lines, Lines([]));
    EmptyLine(t);
    assert lines[1..] == [];
  }

  // ---------------------------------------------------------------- rows that are read as they were written

  predicate TimeSurvives(t: Texts, time: int) { t.readTime(t.timeText(time)) == Some(time) }

  /** All that is read as it was written, whatever the time. */
  predicate PlainContent(t: Texts, e: Entry)
  {
    && CleanEntry(e) && e.path != [] && e.domain != []
    && t.readValue(t.valueText(e.value)) == Some(e.value) && t.isDrop(e.value) == e.drop
  }

  predicate Plain(t: Texts, e: Entry) { PlainContent(t, e) && TimeSurvives(t, e.time) }

  /**
   A row is read as it was written exactly if its path and domain are there and clean, and its time and its value
   survive.
   */
  lemma RowReadsBackIff(t: Texts, e: Entry)
    requires TextsLawful(t)
    ensures ReadRow(t, e) == [e] <==> Plain(t, e)
  {
    if ReadRow(t, e) == [e] {
      RowReadsClean(t, e);
      assert e in ReadRow(t, e);
    }
    if CleanEntry(e) {
      CleanRowReads(t, e);
    }
  }

  lemma {:induction false} AtMostOneEach(t: Texts, rows: seq<Entry>)
    requires TextsLawful(t) && forall e | e in rows :: CleanEntry(e)
    ensures |ReadRows(t, rows)| <= |rows|
    ensures ReadRows(t, rows) == rows ==> forall e | e in rows :: Plain(t, e)
  {
    if rows != [] {
      var more := rows[1..];
      assert rows == [rows[0]] + more;
      AtMostOneEach(t, more);
      CleanRowReads(t, rows[0]);
      if ReadRows(t, rows) == rows {
        assert |ReadRow(t, rows[0])| == 1;
        assert ReadRows(t, rows)[0] == ReadRow(t, rows[0])[0] && ReadRows(t, rows)[1..] == ReadRows(t, more);
        RowReadsBackIff(t, rows[0]);
      }
    }
  }

  lemma {:induction false} RowsReadClean(t: Texts, rows: seq<Entry>)
    ensures forall e | e in ReadRows(t, rows) :: ReadShape(e)
  {
    if rows != [] {
      RowReadsClean(t, rows[0]);
      RowsReadClean(t, rows[1..]);
    }
  }

  lemma {:induction false} PlainRowsReadBack(t: Texts, rows: seq<Entry>)
    requires TextsLawful(t) && forall e | e in rows :: Plain(t, e)
    ensures ReadRows(t, rows) == rows
  {
    if rows != [] {
      RowReadsBackIff(t, rows[0]);
      PlainRowsReadBack(t, rows[1..]);
      assert rows == [rows[0]] + rows[1..];
    }
  }

  /** A file is read as it was written exactly if all its rows are. */
  lemma ReadAsWrittenIff(t: Texts, rows: seq<Entry>)
    requires TextsLawful(t)
    ensures ReadText(t, FileText(t, rows)) == rows <==> forall e | e in rows :: Plain(t, e)
  {
    FileIsReadByRows(t, rows);
    if ReadRows(t, rows) == rows {
      RowsReadClean(t, rows);
      AtMostOneEach(t, rows);
    } else if forall e | e in rows :: Plain(t, e) {
      PlainRowsReadBack(t, rows);
    }
  }
}
