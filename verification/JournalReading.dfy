/**
 What the files of a journal replay to when they are read: which entries, in any run, leave the newest
 file, as read, showing what the snapshot in memory shows.
 */
module JournalReading {
  import opened ByteStrings
  import RpcValues
  import opened Journals
  import opened FileJournals
  import opened ShvFileJournals
  import opened JournalSizes
  import opened JournalTexts
  import opened TimeTexts
  import opened NamedJournals
  import opened FittingNames

  // ---------------------------------------------------------------- effects

  predicate IsChange(e: Entry) { e.domain == VAL_CHANGE && !e.drop }

  /** For an entry without separators: the entry that is read has the effect that the entry has. */
  predicate SameEffect(t: Texts, e: Entry)
  {
    var value := t.readValue(t.valueText(e.value));
    if e.domain == VAL_CHANGE then
      e.path != [] && value.Some? && t.isDrop(value.value) == e.drop && (e.drop || value.value == e.value)
    else
      e.domain != [] || e.path == [] || value.None?
  }

  /** The entry as a row may hold it. */
  function AsRow(e: Entry, time: int, isSnapshot: bool, isSpontaneous: bool): Entry
  {
    e.(time := time, isSnapshot := isSnapshot, isSpontaneous := isSpontaneous)
  }

  predicate Inert(es: seq<Entry>) { forall i | 0 <= i < |es| :: es[i].domain != VAL_CHANGE }

  /** Whatever the row, nothing that is read from it changes a snapshot. */
  ghost predicate InertText(t: Texts, e: Entry)
  {
    forall time: int, a: bool, b: bool | time > 0 :: Inert(ReadRow(t, AsRow(e, time, a, b)))
  }

  /**
   Entries whose reading has the effect on a snapshot that the entry has.  An entry with a separator in its path or
   domain must be no change, and nothing that is read in its place may be one or drop a node.
   */
  ghost predicate Faithful(t: Texts, e: Entry)
  {
    if CleanEntry(e) then SameEffect(t, e) else !IsChange(e) && InertText(t, e)
  }

  /** Entries that differ at most in what logging decides. */
  predicate SameContent(a: Entry, b: Entry)
  {
    a.path == b.path && a.value == b.value && a.drop == b.drop && a.domain == b.domain
  }

  lemma FaithfulByContent(t: Texts, a: Entry, b: Entry)
    requires SameContent(a, b) && Faithful(t, a)
    ensures Faithful(t, b)
  {
    forall time: int, x: bool, y: bool | time > 0 && !CleanEntry(a) ensures Inert(ReadRow(t, AsRow(b, time, x, y))) {
      assert AsRow(a, time, x, y) == AsRow(b, time, x, y);
    }
  }

  ghost predicate CleanKeys(s: Snapshot) { forall k | k in s :: Clean(k) }

  lemma {:induction false} InertReplay(base: Snapshot, es: seq<Entry>)
    requires Inert(es)
    ensures Replay(base, es) == base
    decreases |es|
  {
    if es != [] {
      assert forall i | 0 <= i < |es[1..]| :: es[1..][i] == es[i + 1];
      InertReplay(base, es[1..]);
    }
  }

  lemma PrefixIsClean(p: Path, k: Path)
    requires Clean(k) && p <= k
    ensures Clean(p)
  {
    assert forall i | 0 <= i < |p| :: p[i] == k[i];
  }

  /** Dropping a path with a separator leaves a snapshot without such keys as it is. */
  lemma NothingBelow(base: Snapshot, e: Entry)
    requires CleanKeys(base) && !CleanEntry(e) && !IsChange(e)
    ensures AddToSnapshot(base, e) == base
  {
    if e.domain == VAL_CHANGE {
      forall k | k in base ensures !InSubtree(e.path, k) {
        if e.path <= k {
          PrefixIsClean(e.path, k);
        }
      }
    }
  }

  lemma ReplayNone(base: Snapshot)
    ensures Replay(base, []) == base
  {
  }

  lemma ReplaySingle(base: Snapshot, e: Entry)
    ensures Replay(base, [e]) == AddToSnapshot(base, e)
  {
    assert [e][1..] == [];
  }

  /** Entries that differ in their time leave the same view. */
  lemma TimeIsNotShown(base: Snapshot, e: Entry, time: int)
    ensures View(AddToSnapshot(base, e.(time := time))) == View(AddToSnapshot(base, e))
  {
    ViewStep(base, e);
    ViewStep(base, e.(time := time));
  }

  /** A faithful row changes what a snapshot shows as read as it does as written. */
  lemma FaithfulRow(t: Texts, base: Snapshot, e: Entry)
    requires TextsLawful(t) && Faithful(t, e) && e.time > 0 && CleanKeys(base)
    ensures View(Replay(base, ReadRow(t, e))) == View(AddToSnapshot(base, e)) && CleanKeys(AddToSnapshot(base, e))
  {
    if CleanEntry(e) {
      CleanRowReads(t, e);
      var r := Reread(t, e);
      if r.None? {
        ReplayNone(base);
      } else {
        ReplaySingle(base, r.value);
        TimeIsNotShown(base, e, r.value.time);
      }
    } else {
      assert AsRow(e, e.time, e.isSnapshot, e.isSpontaneous) == e;
      InertReplay(base, ReadRow(t, e));
      NothingBelow(base, e);
    }
  }

  ghost predicate All(rows: seq<Entry>, good: Entry -> bool) { forall i | 0 <= i < |rows| :: good(rows[i]) }

  lemma AllOfParts(a: seq<Entry>, b: seq<Entry>, good: Entry -> bool)
    ensures All(a + b, good) <==> All(a, good) && All(b, good)
  {
    assert forall i | 0 <= i < |a| :: (a + b)[i] == a[i];
    assert forall i | 0 <= i < |b| :: (a + b)[|a| + i] == b[i];
  }

  ghost predicate AllFaithful(t: Texts, rows: seq<Entry>)
  {
    forall i | 0 <= i < |rows| :: Faithful(t, rows[i]) && rows[i].time > 0
  }

  /** Faithful rows replay as read to what they show as written. */
  lemma {:induction false} FaithfulReplay(t: Texts, base: Snapshot, rows: seq<Entry>)
    requires TextsLawful(t) && AllFaithful(t, rows) && CleanKeys(base)
    ensures View(Replay(base, ReadRows(t, rows))) == View(Replay(base, rows))
    decreases |rows|
  {
    if rows != [] {
      var e, more := rows[0], rows[1..];
      assert forall i | 0 <= i < |more| :: more[i] == rows[i + 1];
      FaithfulRow(t, base, e);
      FaithfulReplay(t, AddToSnapshot(base, e), more);
      ReplayConcat(base, ReadRow(t, e), ReadRows(t, more));
      ViewDecides(Replay(base, ReadRow(t, e)), AddToSnapshot(base, e), ReadRows(t, more));
    }
  }

  // ---------------------------------------------------------------- what the rows of a run are made of

  /** A property of entries that neither their time nor the flags of a snapshot row decide. */
  ghost predicate Timeless(good: Entry -> bool)
  {
    forall e: Entry, time :: good(e) ==> good(Stamped(e, time)) && good(e.(time := time))
  }

  ghost predicate KeepsGood(s: Snapshot, good: Entry -> bool) { forall k | k in s :: good(s[k]) }

  ghost predicate FilesGood(disk: Disk, good: Entry -> bool) { forall i | 0 <= i < |disk| :: All(disk[i].rows, good) }

  lemma {:induction false} SnapshotRowsGood(s: Snapshot, time: int, good: Entry -> bool)
    requires KeepsGood(s, good) && Timeless(good)
    ensures All(SnapshotRows(s, time), good)
    decreases |s|
  {
    if s != map[] {
      var k := LeastKey(s);
      SnapshotRowsGood(s - {k}, time, good);
      assert good(Stamped(s[k], time));
      AllOfParts([Stamped(s[k], time)], SnapshotRows(s - {k}, time), good);
    }
  }

  lemma WithRowsGood(disk: Disk, start: int, rows: seq<Entry>, good: Entry -> bool)
    requires FilesGood(disk, good) && All(rows, good)
    ensures FilesGood(WithRows(disk, start, rows), good)
  {
    if disk != [] && Last(disk).start == start {
      assert All(disk[|disk| - 1].rows, good);
      AllOfParts(Last(disk).rows, rows, good);
    }
  }

  lemma OpenedGood(cfg: Config, j: Journal, msec: int, now: int, good: Entry -> bool)
    requires FilesGood(j.disk, good) && KeepsGood(j.snapshot, good) && Timeless(good)
    ensures var r := Opened(cfg, j, msec, now); FilesGood(r.disk, good) && r.snapshot == j.snapshot
  {
    var at := if msec == 0 then now else msec;
    SnapshotRowsGood(j.snapshot, at, good);
    WithRowsGood(j.disk, at, SnapshotRows(j.snapshot, at), good);
  }

  lemma LoggedGood(cfg: Config, j: Journal, start: int, e: Entry, good: Entry -> bool)
    requires FilesGood(j.disk, good) && KeepsGood(j.snapshot, good) && good(e)
    ensures var r := Logged(cfg, j, start, e); FilesGood(r.disk, good) && KeepsGood(r.snapshot, good) && r.disk != []
  {
    WithRowsGood(j.disk, start, [e], good);
  }

  lemma RotatedGood(cfg: Config, j: Journal, good: Entry -> bool)
    requires FilesGood(j.disk, good) && j.disk != []
    ensures var r := Rotated(cfg, j); FilesGood(r.disk, good) && r.snapshot == j.snapshot
  {
    KeptGood(cfg, j.disk, good);
    RotatedDisk(cfg, j);
  }

  lemma RotatedDisk(cfg: Config, j: Journal)
    ensures var r := Rotated(cfg, j);
      && r.disk == (if j.journalSize > cfg.journalSizeLimit then KeptFiles(cfg, j.disk) else j.disk)
      && r.snapshot == j.snapshot
  {
  }

  lemma KeptGood(cfg: Config, disk: Disk, good: Entry -> bool)
    requires FilesGood(disk, good) && disk != []
    ensures FilesGood(KeptFiles(cfg, disk), good)
  {
    var k :| 0 <= k < |disk| && KeptFiles(cfg, disk) == disk[k..];
    assert forall i | 0 <= i < |disk[k..]| :: disk[k..][i] == disk[k + i];
  }

  lemma AppendedGood(cfg: Config, j: Journal, entry: Entry, now: int, good: Entry -> bool)
    requires FilesGood(j.disk, good) && KeepsGood(j.snapshot, good) && Timeless(good) && good(entry)
    ensures var r := Appended(cfg, j, entry, now).after; FilesGood(r.disk, good) && KeepsGood(r.snapshot, good)
  {
    var msec := LogTime(entry, now, j.recent);
    var e, start := entry.(time := msec), FiledUnder(cfg, j, msec);
    OpenedGood(cfg, j, msec, now, good);
    var ready := Opened(cfg, j, msec, now);
    assert good(e);
    LoggedGood(cfg, ready, start, e, good);
    RotatedGood(cfg, Logged(cfg, ready, start, e), good);
  }

  /** In every run, a timeless property of all entries appended holds of all rows and of the snapshot. */
  lemma {:induction false} RunIsMadeOf(cfg: Config, calls: seq<Call>, good: Entry -> bool)
    requires Timeless(good) && forall i | 0 <= i < |calls| :: good(calls[i].entry)
    ensures var j := Run(cfg, calls); FilesGood(j.disk, good) && KeepsGood(j.snapshot, good)
  {
    if calls != [] {
      var before, last := calls[..|calls| - 1], calls[|calls| - 1];
      RunIsMadeOf(cfg, before, good);
      var j := Run(cfg, before);
      AppendedGood(cfg, j, last.entry, last.now, good);
      AppendedGood(cfg, Settled(cfg, j, last.entry, last.now), last.entry, last.now, good);
    }
  }

  lemma {:induction false} RowsGood(disk: Disk, good: Entry -> bool)
    requires FilesGood(disk, good)
    ensures All(Rows(disk), good)
  {
    if disk != [] {
      assert forall i | 0 <= i < |disk[1..]| :: disk[1..][i] == disk[i + 1];
      RowsGood(disk[1..], good);
      AllOfParts(disk[0].rows, Rows(disk[1..]), good);
    }
  }

  // ---------------------------------------------------------------- runs of faithful entries

  /** The newest file, and all files, as they are read, show what the snapshot in memory shows. */
  ghost predicate ReplaysAsRead(t: Texts, n: Journal)
  {
    n.files != [] ==>
      && View(Replay(map[], ReadText(t, FileText(t, NewestRows(n))))) == View(n.snapshot)
      && View(Replay(map[], ReadRows(t, ListedRows(n)))) == View(n.snapshot)
  }

  lemma {:induction false} RowTimesOf(disk: Disk, ok: int -> bool)
    requires TimesOf(disk, ok)
    ensures RowTimes(Rows(disk), ok)
  {
    if disk != [] {
      assert forall i | 0 <= i < |disk[1..]| :: disk[1..][i] == disk[i + 1];
      RowTimesOf(disk[1..], ok);
      assert RowTimes(disk[0].rows, ok);
    }
  }

  ghost function SurvivesIn(t: Texts): int -> bool { (ms: int) => TimeSurvives(t, ms) }

  lemma RunRowsPlain(t: Texts, cfg: Config, calls: seq<Call>)
    requires Timed(calls) && CallTimes(calls, SurvivesIn(t))
    requires forall i | 0 <= i < |calls| :: PlainContent(t, calls[i].entry)
    ensures forall e | e in Rows(Run(cfg, calls).disk) :: Plain(t, e)
  {
    var plain, rows := (e: Entry) => PlainContent(t, e), Rows(Run(cfg, calls).disk);
    RunIsMadeOf(cfg, calls, plain);
    RowsGood(Run(cfg, calls).disk, plain);
    RunTimes(cfg, calls, SurvivesIn(t));
    RowTimesOf(Run(cfg, calls).disk, SurvivesIn(t));
    forall i | 0 <= i < |rows| ensures Plain(t, rows[i]) {
      assert plain(rows[i]) && SurvivesIn(t)(rows[i].time);
    }
  }

  /** In every run of plain entries at times that survive, every row is read as it was written. */
  lemma PlainRunsReadBack(t: Texts, cfg: Config, calls: seq<Call>)
    requires TextsLawful(t) && Timed(calls) && NamesFit(cfg, calls)
    requires CallTimes(calls, SurvivesIn(t)) && forall i | 0 <= i < |calls| :: PlainContent(t, calls[i].entry)
    ensures ReadRows(t, ListedRows(NamedRun(cfg, calls))) == ListedRows(NamedRun(cfg, calls))
  {
    hide NamedTime, ListedRows;
    FittingRows(cfg, calls);
    RunRowsPlain(t, cfg, calls);
    PlainRowsReadBack(t, Rows(Run(cfg, calls).disk));
  }

  lemma {:induction false} RowsArePositive(disk: Disk)
    requires InTime(disk)
    ensures forall i | 0 <= i < |Rows(disk)| :: Rows(disk)[i].time > 0
  {
    if disk != [] {
      assert InTimeAt(disk, 0);
      forall i | 0 <= i < |Rows(disk)| ensures Rows(disk)[i].time > 0 {
        RowsBound(disk, i);
      }
    }
  }

  ghost function FaithfulTo(t: Texts): Entry -> bool { (e: Entry) => Faithful(t, e) }

  lemma FaithfulIsTimeless(t: Texts)
    ensures Timeless(FaithfulTo(t))
  {
    forall e: Entry, time | FaithfulTo(t)(e)
      ensures FaithfulTo(t)(Stamped(e, time)) && FaithfulTo(t)(e.(time := time))
    {
      FaithfulByContent(t, e, Stamped(e, time));
      FaithfulByContent(t, e, e.(time := time));
    }
  }

  lemma GoodRows(t: Texts, rows: seq<Entry>)
    requires All(rows, FaithfulTo(t)) && forall i | 0 <= i < |rows| :: rows[i].time > 0
    ensures AllFaithful(t, rows)
  {
    forall i | 0 <= i < |rows| ensures Faithful(t, rows[i]) {
      assert FaithfulTo(t)(rows[i]);
    }
  }

  lemma RunRowsFaithful(t: Texts, cfg: Config, calls: seq<Call>)
    requires Timed(calls) && forall i | 0 <= i < |calls| :: Faithful(t, calls[i].entry)
    ensures var j := Run(cfg, calls);
      AllFaithful(t, Rows(j.disk)) && (j.disk != [] ==> AllFaithful(t, Last(j.disk).rows))
  {
    var j := Run(cfg, calls);
    RunIsGood(cfg, calls);
    FaithfulIsTimeless(t);
    RunIsMadeOf(cfg, calls, FaithfulTo(t));
    RowsGood(j.disk, FaithfulTo(t));
    RowsArePositive(j.disk);
    GoodRows(t, Rows(j.disk));
    if j.disk != [] {
      assert InTimeAt(j.disk, |j.disk| - 1) && All(j.disk[|j.disk| - 1].rows, FaithfulTo(t));
      GoodRows(t, Last(j.disk).rows);
    }
  }

  /** In every run of faithful entries whose names fit, the files as read replay to the snapshot. */
  lemma FaithfulRunsReplay(t: Texts, cfg: Config, calls: seq<Call>)
    requires TextsLawful(t) && Timed(calls) && NamesFit(cfg, calls)
    requires forall i | 0 <= i < |calls| :: Faithful(t, calls[i].entry)
    ensures ReplaysAsRead(t, NamedRun(cfg, calls))
  {
    hide NamedTime, ListedRows, NewestRows;
    var j := Run(cfg, calls);
    RunRowsFaithful(t, cfg, calls);
    EveryRun(cfg, calls);
    FittingRows(cfg, calls);
    if j.disk != [] {
      FileIsReadByRows(t, Last(j.disk).rows);
      FaithfulReplay(t, map[], Last(j.disk).rows);
      FaithfulReplay(t, map[], Rows(j.disk));
    }
  }

  // ---------------------------------------------------------------- entries that no run can bear

  /** A run of two entries in one file. */
  const ROOMY := Config(100, 100, (x: Entry) => 1)

  lemma FirstOfTwo(c: Entry)
    requires c.time == 1 && IsChange(c)
    ensures Run(ROOMY, [Call(c, 1)]) == Journal([LogFile(1, [c])], [1], 1, 1, 1, map[c.path := c])
  {
    var none: seq<Entry> := [];
    RunStep(ROOMY, [], Call(c, 1));
    assert [] + [Call(c, 1)] == [Call(c, 1)];
    AppendToNew(ROOMY, EMPTY, c, 1);
    assert SnapshotRows(map[], 1) == none && none + [c] == [c];
    OneRowSize(ROOMY.rowSize, c);
  }

  lemma TwoInOneFile(c: Entry, e: Entry)
    requires c.time == 1 && IsChange(c) && e.time >= 1
    ensures var j := Run(ROOMY, [Call(c, 1), Call(e, 1)]);
      j.disk == [LogFile(1, [c, e])] && j.snapshot == AddToSnapshot(map[c.path := c], e)
  {
    var j := Run(ROOMY, [Call(c, 1)]);
    FirstOfTwo(c);
    RunStep(ROOMY, [Call(c, 1)], Call(e, 1));
    assert [Call(c, 1)] + [Call(e, 1)] == [Call(c, 1), Call(e, 1)];
    AppendToLast(ROOMY, j, e, 1);
    SecondInFile(c, e, j);
  }

  lemma SecondInFile(c: Entry, e: Entry, j: Journal)
    requires j.disk == [LogFile(1, [c])]
    ensures ShvFileJournals.Logged(ROOMY, j, 1, e).disk == [LogFile(1, [c, e])]
  {
    assert [c] + [e] == [c, e];
  }

  lemma TwoFit(c: Entry, e: Entry)
    requires c.time == 1 && IsChange(c) && e.time >= 1
    ensures Timed([Call(c, 1), Call(e, 1)]) && NamesFit(ROOMY, [Call(c, 1), Call(e, 1)])
  {
    hide NamedTime;
    var none: seq<Call> := [];
    FirstOfTwo(c);
    FitsApart(ROOMY, EMPTY, c);
    FitsMore(ROOMY, none, Call(c, 1));
    assert none + [Call(c, 1)] == [Call(c, 1)];
    FitsMore(ROOMY, [Call(c, 1)], Call(e, 1));
    assert [Call(c, 1)] + [Call(e, 1)] == [Call(c, 1), Call(e, 1)];
  }

  /** A null at a clean path is read as written, but for its time. */
  function NullAt(path: Path): Entry { Entry(1, path, NULL_VALUE, false, VAL_CHANGE, false, false) }

  lemma NullIsFaithful(t: Texts, path: Path)
    requires TextsLawful(t) && Clean(path) && path != []
    ensures var time := t.readTime(t.timeText(1));
      Faithful(t, NullAt(path)) && time.Some? && ReadRow(t, NullAt(path)) == [NullAt(path).(time := time.value)]
  {
    assert t.readTime(t.timeText(1)).Some?;
    CleanRowReads(t, NullAt(path));
  }

  lemma TwoRowsAsRead(t: Texts, path: Path, e: Entry)
    requires TextsLawful(t) && Clean(path) && path != []
    ensures var c := NullAt(path);
      View(Replay(map[], ReadRows(t, [c, e]))) == View(Replay(map[path := c], ReadRow(t, e)))
  {
    var c, none: Snapshot := NullAt(path), map[];
    var rows: seq<Entry>, last: seq<Entry> := [c, e], [e];
    NullIsFaithful(t, path);
    var first: seq<Entry> := ReadRow(t, c);
    assert rows[1..] == last && last[1..] == [];
    assert ReadRows(t, last) == ReadRow(t, e) + [];
    assert ReadRows(t, rows) == first + ReadRow(t, e);
    ReplayConcat(none, first, ReadRow(t, e));
    ReplaySingle(none, first[0]);
    TimeIsNotShown(none, c, first[0].time);
    ViewDecides(Replay(none, first), map[path := c], ReadRow(t, e));
  }

  lemma OneFileAsRead(t: Texts, calls: seq<Call>, rows: seq<Entry>)
    requires Timed(calls) && NamesFit(ROOMY, calls) && ReplaysAsRead(t, NamedRun(ROOMY, calls))
    requires Run(ROOMY, calls).disk == [LogFile(1, rows)]
    ensures View(Replay(map[], ReadRows(t, rows))) == View(Run(ROOMY, calls).snapshot)
  {
    hide NamedTime, ListedRows, NewestRows;
    FittingRows(ROOMY, calls);
    FileIsReadByRows(t, rows);
  }

  /** What the file of the two entries shows when it is read. */
  lemma TwoAsRead(t: Texts, path: Path, e: Entry)
    requires TextsLawful(t) && Clean(path) && path != [] && e.time >= 1
    ensures var c := NullAt(path);
      ReplaysAsRead(t, NamedRun(ROOMY, [Call(c, 1), Call(e, 1)])) ==>
        View(Replay(map[path := c], ReadRow(t, e))) == View(AddToSnapshot(map[path := c], e))
  {
    hide NamedTime, ListedRows, NewestRows;
    var c := NullAt(path);
    var calls := [Call(c, 1), Call(e, 1)];
    TwoInOneFile(c, e);
    TwoFit(c, e);
    TwoRowsAsRead(t, path, e);
    if ReplaysAsRead(t, NamedRun(ROOMY, calls)) {
      OneFileAsRead(t, calls, [c, e]);
    }
  }

  /** Runs that hold this entry, logged in any way, and otherwise faithful ones. */
  ghost predicate OnlyWith(t: Texts, e: Entry, calls: seq<Call>)
  {
    forall i | 0 <= i < |calls| :: SameContent(calls[i].entry, e) || Faithful(t, calls[i].entry)
  }

  ghost predicate Harmless(t: Texts, e: Entry)
  {
    forall cfg, calls: seq<Call> | Timed(calls) && NamesFit(cfg, calls) && OnlyWith(t, e, calls) ::
      ReplaysAsRead(t, NamedRun(cfg, calls))
  }

  lemma FaithfulIsHarmless(t: Texts, e: Entry)
    requires TextsLawful(t) && Faithful(t, e)
    ensures Harmless(t, e)
  {
    hide NamedTime, ListedRows, NewestRows;
    forall cfg, calls: seq<Call> | Timed(calls) && NamesFit(cfg, calls) && OnlyWith(t, e, calls)
      ensures ReplaysAsRead(t, NamedRun(cfg, calls))
    {
      forall i | 0 <= i < |calls| ensures Faithful(t, calls[i].entry) {
        if SameContent(calls[i].entry, e) {
          FaithfulByContent(t, e, calls[i].entry);
        }
      }
      FaithfulRunsReplay(t, cfg, calls);
    }
  }

  /** A harmless entry, after a null at any path, reads to what it is. */
  lemma HarmlessAfterNull(t: Texts, e: Entry, row: Entry, path: Path)
    requires TextsLawful(t) && Harmless(t, e) && SameContent(row, e) && row.time >= 1 && Clean(path) && path != []
    ensures var base := map[path := NullAt(path)];
      View(Replay(base, ReadRow(t, row))) == View(AddToSnapshot(base, row))
  {
    hide NamedTime, ListedRows, NewestRows, ReplaysAsRead, NamedRun, NamesFit, Replay, ReadRow, View, TextsLawful;
    var c := NullAt(path);
    var calls := [Call(c, 1), Call(row, 1)];
    NullIsFaithful(t, path);
    TwoFit(c, row);
    assert OnlyWith(t, e, calls);
    TwoAsRead(t, path, row);
  }

  lemma SameViewSameKeys(a: Snapshot, b: Snapshot, k: Path)
    requires View(a) == View(b)
    ensures k in a <==> k in b
    ensures k in a && k in b ==> a[k].value == b[k].value
  {
    assert k in View(a) <==> k in View(b);
    if k in a && k in b {
      assert View(a)[k] == View(b)[k];
    }
  }

  /** Without separators: whatever differs in effect shows after a null at the right path. */
  lemma CleanHarmlessIsFaithful(t: Texts, e: Entry)
    requires TextsLawful(t) && Harmless(t, e) && CleanEntry(e)
    ensures Faithful(t, e)
  {
    var row := e.(time := 1);
    var r := Reread(t, row);
    var path := if e.path == [] then [PATH_DELIM] else e.path;
    var beside := path + [97];
    CleanRowReads(t, row);
    forall p | p == path || p == beside
      ensures var base := map[p := NullAt(p)];
        View(if r.None? then base else AddToSnapshot(base, r.value)) == View(AddToSnapshot(base, row))
    {
      HarmlessAfterNull(t, e, row, p);
      var base := map[p := NullAt(p)];
      if r.None? {
        ReplayNone(base);
      } else {
        ReplaySingle(base, r.value);
      }
    }
    EffectsAreSame(t, e, row, r, path, beside);
  }

  lemma EffectsAreSame(t: Texts, e: Entry, row: Entry, r: Option<Entry>, path: Path, beside: Path)
    requires TextsLawful(t) && CleanEntry(e) && row == e.(time := 1) && r == Reread(t, row)
    requires path == (if e.path == [] then [PATH_DELIM] else e.path) && beside == path + [97]
    requires var base := map[path := NullAt(path)];
      View(if r.None? then base else AddToSnapshot(base, r.value)) == View(AddToSnapshot(base, row))
    requires var base := map[beside := NullAt(beside)];
      View(if r.None? then base else AddToSnapshot(base, r.value)) == View(AddToSnapshot(base, row))
    ensures SameEffect(t, e)
  {
    var a, b := map[path := NullAt(path)], map[beside := NullAt(beside)];
    assert t.readTime(t.timeText(row.time)).Some?;
    SameViewSameKeys(if r.None? then a else AddToSnapshot(a, r.value), AddToSnapshot(a, row), path);
    SameViewSameKeys(if r.None? then a else AddToSnapshot(a, r.value), AddToSnapshot(a, row), e.path);
    SameViewSameKeys(if r.None? then b else AddToSnapshot(b, r.value), AddToSnapshot(b, row), e.path);
  }

  lemma {:induction false} ReplayedPaths(base: Snapshot, es: seq<Entry>, k: Path)
    requires k in Replay(base, es) && k !in base
    ensures exists i | 0 <= i < |es| :: es[i].path == k
    decreases |es|
  {
    if es != [] {
      var next := AddToSnapshot(base, es[0]);
      if k !in next {
        ReplayedPaths(next, es[1..], k);
        var i :| 0 <= i < |es[1..]| && es[1..][i].path == k;
        assert es[i + 1].path == k;
      } else {
        assert es[0].path == k;
      }
    }
  }

  /** A change at a path with a separator is never read at that path. */
  lemma BrokenPathHarms(t: Texts, e: Entry)
    requires TextsLawful(t) && IsChange(e) && !Clean(e.path)
    ensures !Harmless(t, e)
  {
    if Harmless(t, e) {
      var row, path := e.(time := 1), [97];
      var base := map[path := NullAt(path)];
      HarmlessAfterNull(t, e, row, path);
      SameViewSameKeys(Replay(base, ReadRow(t, row)), AddToSnapshot(base, row), e.path);
      ReplayedPaths(base, ReadRow(t, row), e.path);
      var i :| 0 <= i < |ReadRow(t, row)| && ReadRow(t, row)[i].path == e.path;
      assert ReadRow(t, row)[i] in ReadRow(t, row);
      RowReadsClean(t, row);
    }
  }

  /** The last entry of a sequence that changes anything. */
  function LastEffective(es: seq<Entry>): (i: nat)
    requires !Inert(es)
    ensures i < |es| && es[i].domain == VAL_CHANGE
  {
    var older, n := es[..|es| - 1], |es| - 1;
    if es[n].domain == VAL_CHANGE then n
    else
      assert !Inert(older) by {
        var k :| 0 <= k < |es| && es[k].domain == VAL_CHANGE;
        assert older[k] == es[k];
      }
      LastEffective(older)
  }

  /** It decides about its path. */
  lemma {:induction false} LastEffectShows(base: Snapshot, es: seq<Entry>)
    requires !Inert(es)
    ensures var e := es[LastEffective(es)]; e.path in Replay(base, es) <==> !e.drop
    decreases |es|
  {
    var older, last := es[..|es| - 1], es[|es| - 1];
    assert es == older + [last];
    ReplayOne(base, older, last);
    if last.domain != VAL_CHANGE {
      assert !Inert(older) by {
        var k :| 0 <= k < |es| && es[k].domain == VAL_CHANGE;
        assert older[k] == es[k];
      }
      LastEffectShows(base, older);
    }
  }

  /** With separators and no change: nothing effective may be read from any row of it. */
  lemma BrokenHarmlessIsInert(t: Texts, e: Entry)
    requires TextsLawful(t) && Harmless(t, e) && !CleanEntry(e) && !IsChange(e)
    ensures InertText(t, e)
  {
    forall time: int, a: bool, b: bool | time > 0 ensures Inert(ReadRow(t, AsRow(e, time, a, b))) {
      if !Inert(ReadRow(t, AsRow(e, time, a, b))) {
        EffectiveRowHarms(t, e, AsRow(e, time, a, b));
      }
    }
  }

  lemma EffectiveRowHarms(t: Texts, e: Entry, row: Entry)
    requires TextsLawful(t) && !CleanEntry(e) && !IsChange(e)
    requires SameContent(row, e) && row.time >= 1 && !Inert(ReadRow(t, row))
    ensures !Harmless(t, e)
  {
    hide Harmless, TextsLawful, Replay, ReadRow;
    var es := ReadRow(t, row);
    var x := es[LastEffective(es)];
    RowReadsClean(t, row);
    assert x in es && x.path != [];
    var path := if x.drop then x.path else x.path + [97];
    var base := map[path := NullAt(path)];
    NothingBelow(base, row);
    LastEffectShows(base, es);
    if Harmless(t, e) {
      HarmlessAfterNull(t, e, row, path);
      SameViewSameKeys(Replay(base, es), base, x.path);
    }
  }

  /** A change is faithful exactly if its path is there and clean and its value is read as it was written. */
  lemma FaithfulChangeIff(t: Texts, e: Entry, value: RpcValues.Value)
    requires IsChange(e) && t.readValue(t.valueText(e.value)) == Some(value) && !t.isDrop(e.value)
    ensures Faithful(t, e) <==> e.path != [] && Clean(e.path) && value == e.value
  {
  }

  /** A run of two entries whose file shows another value than the snapshot. */
  lemma ChangedValueIsLost(t: Texts, e: Entry, value: RpcValues.Value)
    requires TextsLawful(t) && IsChange(e) && e.path == [97] && e.time == 1
    requires t.readValue(t.valueText(e.value)) == Some(value) != Some(e.value)
    ensures !ReplaysAsRead(t, NamedRun(ROOMY, [Call(NullAt([98]), 1), Call(e, 1)]))
  {
    var path: Path, base := [98], map[[98] := NullAt([98])];
    CleanRowReads(t, e);
    var r := Reread(t, e).value;
    ReplaySingle(base, r);
    var s, x := AddToSnapshot(base, e), AddToSnapshot(base, r);
    TwoAsRead(t, path, e);
    assert e.path in s && s[e.path].value == e.value && (e.path in x ==> x[e.path].value == value);
    if View(x) == View(s) {
      SameViewSameKeys(x, s, e.path);
    }
  }

  /** An entry is harmless, in every run with other faithful ones, exactly if it is faithful. */
  lemma HarmlessIff(t: Texts, e: Entry)
    requires TextsLawful(t)
    ensures Faithful(t, e) <==> Harmless(t, e)
  {
    if Faithful(t, e) {
      FaithfulIsHarmless(t, e);
    } else if Harmless(t, e) {
      if CleanEntry(e) {
        CleanHarmlessIsFaithful(t, e);
      } else if IsChange(e) {
        assert !Clean(e.path);
        BrokenPathHarms(t, e);
      } else {
        BrokenHarmlessIsInert(t, e);
      }
    }
  }
}
