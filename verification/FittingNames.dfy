/**
 Runs whose file names fit: the directory then holds the files of a journal that tells them apart by their start
 times, and what such a journal keeps is kept.
 */
module FittingNames {
  import opened ByteStrings
  import opened Journals
  import opened FileJournals
  import opened ShvFileJournals
  import opened JournalSizes
  import opened TimeTexts
  import opened NamedJournals
  import opened FileLists

  /** No other file has the name of this start time. */
  ghost predicate KeepsName(disk: Disk, start: int)
  {
    forall i | 0 <= i < |disk| :: disk[i].start != start ==> NamedTime(disk[i].start) != NamedTime(start)
  }

  /** All files show their start times. */
  ghost predicate AllShown(disk: Disk) { forall i | 0 <= i < |disk| :: NamedTime(disk[i].start) == disk[i].start }

  /** A file begun for a row takes no name of another one; when the row makes it rotate, all files show their times. */
  ghost predicate RowFits(cfg: Config, j: Journal, e: Entry)
  {
    && (NeedsFile(cfg, j) ==> KeepsName(j.disk, e.time))
    && (Rotates(cfg, j, e) ==> AllShown(j.disk) && (NeedsFile(cfg, j) ==> NamedTime(e.time) == e.time))
  }

  /** The same for an append, and for the file that a negative time leaves in an empty journal. */
  ghost predicate StepFits(cfg: Config, j: Journal, entry: Entry, now: int)
  {
    var s, e := Settled(cfg, j, entry, now), Stored(cfg, j, entry, now);
    (s != j ==> NamedTime(now) == now) && RowFits(cfg, s, e)
  }

  ghost predicate NamesFit(cfg: Config, calls: seq<Call>)
  {
    calls != [] ==>
      var before, last := calls[..|calls| - 1], calls[|calls| - 1];
      NamesFit(cfg, before) && StepFits(cfg, Run(cfg, before), last.entry, last.now)
  }

  // ---------------------------------------------------------------- the same files

  ghost predicate NamesApart(disk: Disk)
  {
    forall i, k | 0 <= i < k < |disk| :: NamedTime(disk[i].start) != NamedTime(disk[k].start)
  }

  ghost predicate SameRows(disk: Disk, named: Disk)
  {
    forall i | 0 <= i < |disk| :: FileRows(named, NamedTime(disk[i].start)) == disk[i].rows
  }

  /** Under their names, the same files. */
  ghost predicate SameFiles(disk: Disk, named: Disk)
  {
    && Sorted(named) && NamesApart(disk) && SameRows(disk, named) && NamesAll(Starts(disk), named)
    && (AllShown(disk) ==> named == disk)
  }

  ghost predicate Corresponds(j: Journal, n: Journal)
  {
    && n.files == j.files && n.journalSize == j.journalSize && n.lastFileSize == j.lastFileSize
    && n.recent == j.recent && n.snapshot == j.snapshot && SameFiles(j.disk, n.disk)
  }

  lemma StartsOfMore(disk: Disk, f: LogFile)
    ensures Starts(disk + [f]) == Starts(disk) + [f.start]
  {
  }

  lemma NamedGrows(disk: Disk, named: Disk, start: int, rows: seq<Entry>)
    requires NamesAll(Starts(disk), named) && Sorted(named)
    ensures NamesAll(Starts(disk) + [start], Filed(named, NamedTime(start), rows))
  {
    hide NamedTime;
    forall x ensures Lists(Starts(disk) + [start], x) <==> HasFile(Filed(named, NamedTime(start), rows), x) {
      ListedExtends(Starts(disk), start, x);
      FiledAt(named, NamedTime(start), rows, x);
    }
  }

  lemma NamedStays(disk: Disk, named: Disk, start: int, rows: seq<Entry>)
    requires NamesAll(Starts(disk), named) && Sorted(named) && HasFile(named, NamedTime(start))
    ensures NamesAll(Starts(disk), Filed(named, NamedTime(start), rows))
  {
    hide NamedTime;
    forall x ensures HasFile(Filed(named, NamedTime(start), rows), x) <==> HasFile(named, x) {
      FiledAt(named, NamedTime(start), rows, x);
    }
  }

  lemma GrownRows(disk: Disk, named: Disk, start: int, rows: seq<Entry>)
    requires SameFiles(disk, named) && disk != [] && start == Last(disk).start
    ensures SameRows(WithRows(disk, start, rows), Filed(named, NamedTime(start), rows))
  {
    hide NamedTime, Filed, FileRows;
    var r, more := Filed(named, NamedTime(start), rows), WithRows(disk, start, rows);
    forall i | 0 <= i < |more| ensures FileRows(r, NamedTime(more[i].start)) == more[i].rows {
      FiledAt(named, NamedTime(start), rows, NamedTime(disk[i].start));
      assert FileRows(named, NamedTime(disk[i].start)) == disk[i].rows;
    }
  }

  lemma GrownShown(disk: Disk, named: Disk, start: int, rows: seq<Entry>)
    requires SameFiles(disk, named) && disk != [] && start == Last(disk).start
    requires AllShown(WithRows(disk, start, rows))
    ensures Filed(named, NamedTime(start), rows) == WithRows(disk, start, rows)
  {
    hide NamedTime, FileRows;
    assert forall i | 0 <= i < |disk| :: disk[i].start == WithRows(disk, start, rows)[i].start;
    assert AllShown(disk) && NamedTime(disk[|disk| - 1].start) == start;
  }

  lemma GrownNames(disk: Disk, named: Disk, start: int, rows: seq<Entry>)
    requires SameFiles(disk, named) && disk != [] && start == Last(disk).start
    ensures var more := WithRows(disk, start, rows);
      NamesApart(more) && NamesAll(Starts(more), Filed(named, NamedTime(start), rows))
  {
    hide NamedTime, Filed, FileRows;
    var more := WithRows(disk, start, rows);
    assert Starts(more) == Starts(disk);
    assert forall i | 0 <= i < |disk| :: more[i].start == disk[i].start;
    assert Lists(Starts(disk), NamedTime(start)) by { assert Starts(disk)[|disk| - 1] == start; }
    NamedStays(disk, named, start, rows);
  }

  /** Rows for the last file. */
  lemma SameFilesGrow(disk: Disk, named: Disk, rows: seq<Entry>)
    requires SameFiles(disk, named) && disk != []
    ensures SameFiles(WithRows(disk, Last(disk).start, rows), Filed(named, NamedTime(Last(disk).start), rows))
  {
    hide NamedTime, Filed, WithRows, SameRows, NamesApart, NamesAll, AllShown, FileRows;
    var start := Last(disk).start;
    GrownNames(disk, named, start, rows);
    FiledIsSorted(named, NamedTime(start), rows);
    GrownRows(disk, named, start, rows);
    if AllShown(WithRows(disk, start, rows)) {
      GrownShown(disk, named, start, rows);
    }
  }

  lemma NewNameIsFree(disk: Disk, named: Disk, start: int)
    requires SameFiles(disk, named) && KeepsName(disk, start)
    requires forall i | 0 <= i < |disk| :: disk[i].start < start
    ensures !HasFile(named, NamedTime(start)) && FileRows(named, NamedTime(start)) == []
  {
    hide NamedTime;
    NoFileNoRows(named, NamedTime(start));
  }

  lemma BegunRows(disk: Disk, named: Disk, start: int, rows: seq<Entry>)
    requires SameFiles(disk, named) && KeepsName(disk, start)
    requires forall i | 0 <= i < |disk| :: disk[i].start < start
    ensures SameRows(disk + [LogFile(start, rows)], Filed(named, NamedTime(start), rows))
  {
    hide NamedTime, Filed;
    var name, r, more := NamedTime(start), Filed(named, NamedTime(start), rows), disk + [LogFile(start, rows)];
    NewNameIsFree(disk, named, start);
    forall i | 0 <= i < |more| ensures FileRows(r, NamedTime(more[i].start)) == more[i].rows {
      FiledAt(named, name, rows, NamedTime(more[i].start));
      if i < |disk| {
        assert more[i] == disk[i] && FileRows(named, NamedTime(disk[i].start)) == disk[i].rows;
      }
    }
  }

  lemma BegunShown(disk: Disk, named: Disk, start: int, rows: seq<Entry>)
    requires SameFiles(disk, named) && AllShown(disk + [LogFile(start, rows)])
    requires forall i | 0 <= i < |disk| :: disk[i].start < start
    ensures Filed(named, NamedTime(start), rows) == disk + [LogFile(start, rows)]
  {
    hide NamedTime;
    var more := disk + [LogFile(start, rows)];
    assert forall i | 0 <= i < |disk| :: disk[i].start == more[i].start;
    assert AllShown(disk) && NamedTime(more[|disk|].start) == start;
  }

  /** A new last file under a name of its own. */
  lemma SameFilesBegin(disk: Disk, named: Disk, start: int, rows: seq<Entry>)
    requires SameFiles(disk, named) && KeepsName(disk, start)
    requires forall i | 0 <= i < |disk| :: disk[i].start < start
    ensures SameFiles(disk + [LogFile(start, rows)], Filed(named, NamedTime(start), rows))
  {
    hide NamedTime, Filed;
    var more := disk + [LogFile(start, rows)];
    StartsOfMore(disk, LogFile(start, rows));
    NamedGrows(disk, named, start, rows);
    FiledIsSorted(named, NamedTime(start), rows);
    BegunRows(disk, named, start, rows);
    if AllShown(more) {
      BegunShown(disk, named, start, rows);
    }
  }

  lemma StartsUpToLast(disk: Disk, start: int)
    requires InTime(disk) && disk != [] && Last(disk).start < start
    ensures forall i | 0 <= i < |disk| :: disk[i].start < start
  {
    InTimeIsSorted(disk);
  }

  // ---------------------------------------------------------------- the same steps

  lemma OpenedFits(cfg: Config, j: Journal, n: Journal, msec: int, now: int)
    requires Corresponds(j, n) && InTime(j.disk) && msec > 0 && (NeedsFile(cfg, j) ==> KeepsName(j.disk, msec))
    requires j.disk != [] ==> Last(j.disk).start <= msec
    ensures Corresponds(Opened(cfg, j, msec, now), Readied(cfg, n, msec, now))
  {
    hide NamedTime;
    if NeedsFile(cfg, j) {
      var rows := SnapshotRows(j.snapshot, msec);
      if j.disk != [] && Last(j.disk).start == msec {
        SameFilesGrow(j.disk, n.disk, rows);
      } else {
        if j.disk != [] {
          StartsUpToLast(j.disk, msec);
        }
        SameFilesBegin(j.disk, n.disk, msec, rows);
      }
    }
  }

  lemma LoggedFits(cfg: Config, j: Journal, n: Journal, e: Entry)
    requires Corresponds(j, n) && j.disk != []
    ensures var start := Last(j.disk).start; Corresponds(Logged(cfg, j, start, e), Written(cfg, n, start, e))
  {
    hide NamedTime;
    var start := Last(j.disk).start;
    SameFilesGrow(j.disk, n.disk, [e]);
    GrowsByRow(cfg, n, start, e);
    var more := WithRows(j.disk, start, [e]);
    assert FileRows(Filed(n.disk, NamedTime(start), [e]), NamedTime(more[|more| - 1].start)) == Last(more).rows;
  }

  lemma ShownIsSame(j: Journal, n: Journal)
    requires Corresponds(j, n) && AllShown(j.disk)
    ensures n.disk == j.disk
  {
    hide NamedTime, NamesAll, SameRows, NamesApart, AllShown;
  }

  lemma RotatedFits(cfg: Config, j: Journal, n: Journal)
    requires Corresponds(j, n) && InTime(j.disk) && j.disk != []
    requires j.journalSize > cfg.journalSizeLimit ==> AllShown(j.disk)
    ensures Corresponds(Rotated(cfg, j), Rotated(cfg, n))
  {
    hide NamedTime, KeptFiles, TotalSize, LastSize, SameFiles, AllShown, InTime;
    if j.journalSize > cfg.journalSizeLimit {
      ShownIsSame(j, n);
      var k :| 0 <= k < |j.disk| && KeptFiles(cfg, j.disk) == j.disk[k..];
      SelfSame(j.disk[k..], j.disk, k);
    }
  }

  /** Files that show their start times are told apart by them. */
  lemma SelfSame(disk: Disk, all: Disk, k: nat)
    requires InTime(all) && k <= |all| && disk == all[k..] && AllShown(all)
    ensures SameFiles(disk, disk)
  {
    hide NamedTime;
    InTimeSuffix(all, k);
    InTimeIsSorted(disk);
    assert forall i | 0 <= i < |disk| :: disk[i] == all[k + i];
    forall i | 0 <= i < |disk| ensures FileRows(disk, NamedTime(disk[i].start)) == disk[i].rows {
      FileRowsAt(disk, i);
    }
    ShownNamesAll(disk);
  }

  lemma ShownNamesAll(disk: Disk)
    requires AllShown(disk)
    ensures NamesAll(Starts(disk), disk)
  {
    hide NamedTime;
    forall x ensures Lists(Starts(disk), x) <==> HasFile(disk, x) {
      if HasFile(disk, x) {
        var i :| 0 <= i < |disk| && disk[i].start == x;
        assert NamedTime(Starts(disk)[i]) == x;
      }
      if Lists(Starts(disk), x) {
        var i :| 0 <= i < |disk| && NamedTime(Starts(disk)[i]) == x;
        assert disk[i].start == x;
      }
    }
  }

  lemma FiledFits(cfg: Config, j: Journal, n: Journal, e: Entry)
    requires Corresponds(j, n) && j.disk != [] && InTime(WithRows(j.disk, Last(j.disk).start, [e]))
    requires Rotates(cfg, j, e) ==> AllShown(j.disk)
    ensures var start := Last(j.disk).start;
      Corresponds(Rotated(cfg, Logged(cfg, j, start, e)), Rotated(cfg, Written(cfg, n, start, e)))
  {
    hide NamedTime, Corresponds, Written, Rotated, InTime;
    var start := Last(j.disk).start;
    LoggedFits(cfg, j, n, e);
    var more := WithRows(j.disk, start, [e]);
    assert forall i | 0 <= i < |more| :: more[i].start == j.disk[i].start;
    RotatedFits(cfg, Logged(cfg, j, start, e), Written(cfg, n, start, e));
  }

  lemma SameDecisions(cfg: Config, j: Journal, n: Journal, msec: int, now: int)
    requires Corresponds(j, n) && msec > 0
    ensures n.recent == j.recent && n.files == j.files && (NeedsFile(cfg, n) <==> NeedsFile(cfg, j))
    ensures FiledUnder(cfg, n, msec) == FiledUnder(cfg, j, msec)
    ensures var r := Readied(cfg, n, msec, now);
      r.files != [] && r.files[|r.files| - 1] == FiledUnder(cfg, n, msec)
  {
    hide NamedTime, SameFiles;
  }

  lemma OpenedInTime(cfg: Config, j: Journal, history: seq<Entry>, e: Entry, now: int)
    requires Good(cfg, j, history) && now > 0 && 0 < e.time && j.recent <= e.time
    ensures var ready := Opened(cfg, j, e.time, now);
      && ready.disk != [] && InTime(WithRows(ready.disk, Last(ready.disk).start, [e]))
      && FiledUnder(cfg, j, e.time) == Last(ready.disk).start && InTime(j.disk)
      && (j.disk != [] ==> Last(j.disk).start <= e.time)
  {
    var ready := Opened(cfg, j, e.time, now);
    OpenedIsGood(cfg, j, history, e.time, now);
    RowAdded(ready.disk, ready.files, ready.snapshot, ready.recent, e);
    if j.disk != [] {
      assert InTimeAt(j.disk, |j.disk| - 1);
    }
  }

  lemma RowIsFiled(cfg: Config, j: Journal, n: Journal, history: seq<Entry>, e: Entry, now: int)
    requires Good(cfg, j, history) && now > 0 && 0 < e.time && j.recent <= e.time
    requires Corresponds(j, n) && RowFits(cfg, j, e)
    ensures var start := FiledUnder(cfg, j, e.time);
      Corresponds(Rotated(cfg, Logged(cfg, Opened(cfg, j, e.time, now), start, e)),
                  Rotated(cfg, Written(cfg, Readied(cfg, n, e.time, now), start, e)))
  {
    hide NamedTime, SameFiles, WithRows, Filed;
    OpenedInTime(cfg, j, history, e, now);
    OpenedFits(cfg, j, n, e.time, now);
    OpenedShown(cfg, j, e.time, now);
    FiledFits(cfg, Opened(cfg, j, e.time, now), Readied(cfg, n, e.time, now), e);
  }

  lemma AppendedFits(cfg: Config, j: Journal, n: Journal, history: seq<Entry>, entry: Entry, now: int)
    requires Good(cfg, j, history) && now > 0 && LogTime(entry, now, j.recent) > 0 && Corresponds(j, n)
    requires RowFits(cfg, j, entry.(time := LogTime(entry, now, j.recent)))
    ensures Attempted(cfg, n, entry, now).Done?
    ensures Corresponds(Appended(cfg, j, entry, now).after, Attempted(cfg, n, entry, now).after)
  {
    hide NamedTime, SameFiles, Corresponds, Rotated, Logged, Written;
    var msec := LogTime(entry, now, j.recent);
    AppendDone(cfg, j, history, entry, now);
    SameDecisions(cfg, j, n, msec, now);
    RowIsFiled(cfg, j, n, history, entry.(time := msec), now);
  }

  lemma OpenedShown(cfg: Config, j: Journal, msec: int, now: int)
    requires msec > 0
    ensures Opened(cfg, j, msec, now).journalSize == j.journalSize
    ensures AllShown(j.disk) && (NeedsFile(cfg, j) ==> NamedTime(msec) == msec) ==>
      AllShown(Opened(cfg, j, msec, now).disk)
  {
    hide NamedTime;
  }

  lemma NoFiles(j: Journal, n: Journal)
    requires Corresponds(j, n) && j.disk == []
    ensures n.disk == []
  {
    hide NamedTime;
  }

  lemma RefusedFits(cfg: Config, j: Journal, n: Journal, now: int)
    requires Corresponds(j, n) && j.disk == [] && j.snapshot == map[] && NamedTime(now) == now > 0
    ensures Corresponds(Rechecked(cfg, Created(j, now)), Reexamined(cfg, Begun(n, now)))
  {
    hide NamedTime;
    NoFiles(j, n);
    FirstFileIsEmpty(j, now);
    var disk := [LogFile(now, [])];
    assert Begun(n, now).disk == disk;
    assert InTimeAt(disk, 0) && disk[0..] == disk;
    SelfSame(disk, disk, 0);
  }

  lemma SettledFits(cfg: Config, j: Journal, n: Journal, history: seq<Entry>, entry: Entry, now: int)
    requires Good(cfg, j, history) && now > 0 && Corresponds(j, n) && StepFits(cfg, j, entry, now)
    ensures Corresponds(Settled(cfg, j, entry, now), Checked(cfg, n, entry, now))
  {
    hide NamedTime;
    SettledIsGood(cfg, j, history, entry, now);
    LogTimeIsPositive(cfg, j, history, entry, now);
    if LogTime(entry, now, j.recent) > 0 {
      AppendDone(cfg, j, history, entry, now);
      AppendedFits(cfg, j, n, history, entry, now);
    } else {
      AppendThrown(cfg, j, history, entry, now);
      LastName(j.files, j.disk);
      assert Attempted(cfg, n, entry, now) == Thrown(Begun(n, now));
      assert NamedTime(now) == now by { assert Settled(cfg, j, entry, now).disk != j.disk; }
      RefusedFits(cfg, j, n, now);
    }
  }

  /** In every run whose names fit, the journal is, under those names, one that tells files apart by start time. */
  lemma {:induction false} RunFits(cfg: Config, calls: seq<Call>)
    requires Timed(calls) && NamesFit(cfg, calls)
    ensures Corresponds(Run(cfg, calls), NamedRun(cfg, calls))
  {
    hide NamedTime;
    if calls == [] {
      EmptyFits();
    } else {
      var before, last := calls[..|calls| - 1], calls[|calls| - 1];
      var j, n := Run(cfg, before), NamedRun(cfg, before);
      RunFits(cfg, before);
      RunIsGood(cfg, before);
      SettledIsGood(cfg, j, History(cfg, before), last.entry, last.now);
      SettledFits(cfg, j, n, History(cfg, before), last.entry, last.now);
      AppendedFits(cfg, Settled(cfg, j, last.entry, last.now), Checked(cfg, n, last.entry, last.now),
        History(cfg, before), last.entry, last.now);
    }
  }

  lemma EmptyFits()
    ensures Corresponds(EMPTY, EMPTY)
  {
    hide NamedTime;
    ShownNamesAll([]);
  }

  // ---------------------------------------------------------------- times that survive

  ghost function Survives(): int -> bool { (ms: int) => NamedTime(ms) == ms }

  lemma SurvivingDisk(disk: Disk, start: int)
    requires TimesOf(disk, Survives())
    ensures AllShown(disk) && (NamedTime(start) == start ==> KeepsName(disk, start))
  {
    hide NamedTime;
    forall i | 0 <= i < |disk| ensures NamedTime(disk[i].start) == disk[i].start {
      assert Survives()(disk[i].start);
    }
  }

  lemma SurvivingStep(cfg: Config, j: Journal, history: seq<Entry>, entry: Entry, now: int)
    requires Good(cfg, j, history) && now > 0 && TimesOf(j.disk, Survives())
    requires j.recent == 0 || NamedTime(j.recent) == j.recent
    requires NamedTime(now) == now && (entry.time > 0 ==> NamedTime(entry.time) == entry.time)
    ensures StepFits(cfg, j, entry, now)
  {
    hide NamedTime, Good, TimesOf, Settled, AllShown, KeepsName;
    var s, e := Settled(cfg, j, entry, now), Stored(cfg, j, entry, now);
    SettledTimes(cfg, j, history, entry, now, Survives());
    assert Survives()(e.time);
    SurvivingDisk(s.disk, e.time);
  }

  /** Names fit in every run whose clocks and entry times their names show as they are. */
  lemma {:induction false} SurvivingTimesFit(cfg: Config, calls: seq<Call>)
    requires Timed(calls) && CallTimes(calls, Survives())
    ensures NamesFit(cfg, calls)
  {
    hide NamedTime;
    if calls != [] {
      var before, last := calls[..|calls| - 1], calls[|calls| - 1];
      assert Survives()(calls[|calls| - 1].now);
      SurvivingTimesFit(cfg, before);
      RunIsGood(cfg, before);
      RunTimes(cfg, before, Survives());
      SurvivingStep(cfg, Run(cfg, before), History(cfg, before), last.entry, last.now);
    }
  }

  // ---------------------------------------------------------------- what is read

  /** The rows of the file that was begun last. */
  function NewestRows(n: Journal): seq<Entry>
  {
    if n.files == [] then [] else FileRows(n.disk, NamedTime(n.files[|n.files| - 1]))
  }

  /** The rows of all listed files, of a file that is listed twice in a row once. */
  function ListedRows(n: Journal): seq<Entry> { ReadNamed(n.disk, Distinct(n.files)) }

  lemma StartsParts(disk: Disk)
    requires disk != []
    ensures Starts(disk) == Starts(disk[..|disk| - 1]) + [Last(disk).start]
  {
  }

  lemma {:induction false} ReadAll(disk: Disk, named: Disk)
    requires SameRows(disk, named)
    ensures ReadNamed(named, Starts(disk)) == Rows(disk)
  {
    hide NamedTime, FileRows, ReadNamed, Rows;
    if disk == [] {
      NothingListed(named, disk);
    } else {
      var older := disk[..|disk| - 1];
      assert SameRows(older, named) by { assert forall i | 0 <= i < |older| :: older[i] == disk[i]; }
      ReadAll(older, named);
      StartsParts(disk);
      ReadOneMore(named, Starts(older), Last(disk).start);
      assert FileRows(named, NamedTime(disk[|disk| - 1].start)) == Last(disk).rows;
      RowsOfPrefix(disk);
    }
  }

  lemma NothingListed(named: Disk, disk: Disk)
    requires disk == []
    ensures ReadNamed(named, Starts(disk)) == Rows(disk)
  {
  }

  /** The files from one on, read under their names. */
  lemma ReadFrom(disk: Disk, named: Disk, k: nat)
    requires SameFiles(disk, named) && k <= |disk|
    ensures ReadNamed(named, Starts(disk)[k..]) == Rows(disk[k..])
  {
    hide NamedTime, FileRows;
    assert SameRows(disk[k..], named) by { assert forall i | 0 <= i < |disk| - k :: disk[k..][i] == disk[k + i]; }
    ReadAll(disk[k..], named);
    assert Starts(disk)[k..] == Starts(disk[k..]);
  }

  lemma FittingRows(cfg: Config, calls: seq<Call>)
    requires Timed(calls) && NamesFit(cfg, calls)
    ensures var j, n := Run(cfg, calls), NamedRun(cfg, calls);
      && n.files == j.files && n.snapshot == j.snapshot && (n.files == [] <==> j.disk == [])
      && ListedRows(n) == Rows(j.disk) && (j.disk != [] ==> NewestRows(n) == Last(j.disk).rows)
  {
    hide NamedTime, FileRows;
    var j, n := Run(cfg, calls), NamedRun(cfg, calls);
    RunFits(cfg, calls);
    RunIsGood(cfg, calls);
    LastName(j.files, j.disk);
    ReadFrom(j.disk, n.disk, 0);
    assert Starts(j.disk)[0..] == Starts(j.disk) && j.disk[0..] == j.disk;
    if j.disk != [] {
      assert FileRows(n.disk, NamedTime(j.disk[|j.disk| - 1].start)) == Last(j.disk).rows;
    }
  }

  /**
   In every run whose names fit: times never decrease across the listed files, the newest file alone replays to the
   snapshot in memory, which is the replay of everything appended, and so do all files.
   */
  lemma EveryFittingRun(cfg: Config, calls: seq<Call>)
    requires Timed(calls) && NamesFit(cfg, calls)
    ensures var n := NamedRun(cfg, calls);
      && Ordered(ListedRows(n))
      && n.snapshot == Replay(map[], History(cfg, calls))
      && (calls != [] ==>
            View(n.snapshot) == View(Replay(map[], NewestRows(n))) == View(Replay(map[], ListedRows(n))))
  {
    hide NamedTime, FileRows, ListedRows, NewestRows;
    FittingRows(cfg, calls);
    NamedRunIsListed(cfg, calls);
    EveryRun(cfg, calls);
  }

  // ---------------------------------------------------------------- runs step by step

  /** One more entry, newer than all others. */
  lemma FitsMore(cfg: Config, calls: seq<Call>, c: Call)
    requires Timed(calls) && c.now > 0 && NamesFit(cfg, calls)
    requires c.entry.time > 0 && c.entry.time >= Run(cfg, calls).recent && RowFits(cfg, Run(cfg, calls), c.entry)
    ensures NamesFit(cfg, calls + [c])
  {
    hide NamedTime;
    var j := Run(cfg, calls);
    RunIsGood(cfg, calls);
    SettledIsGood(cfg, j, History(cfg, calls), c.entry, c.now);
    assert (calls + [c])[..|calls|] == calls;
    assert Stored(cfg, j, c.entry, c.now) == c.entry;
  }

  /** A new file under a name of its own, without rotation. */
  lemma FitsApart(cfg: Config, j: Journal, e: Entry)
    requires j.journalSize + cfg.rowSize(e) <= cfg.journalSizeLimit
    requires forall i | 0 <= i < |j.disk| :: 0 < j.disk[i].start < e.time < j.disk[i].start + 10
    ensures RowFits(cfg, j, e)
  {
    hide NamedTime;
    forall i | 0 <= i < |j.disk| ensures NamedTime(j.disk[i].start) != NamedTime(e.time) {
      if NamedTime(j.disk[i].start) == NamedTime(e.time) {
        NamesakesAreApart(j.disk[i].start, e.time);
      }
    }
  }

  lemma {:induction false} OnceIsDistinct(files: seq<int>)
    requires NamedOnce(files)
    ensures Distinct(files) == files
  {
    hide NamedTime;
    if files != [] {
      var older, m := files[..|files| - 1], |files| - 1;
      assert forall i, k | 0 <= i < k < m :: SameFile(older, i, k) <==> SameFile(files, i, k);
      OnceIsDistinct(older);
      assert m > 0 ==> !SameFile(files, m - 1, m);
    }
  }

  /** Where no name is listed twice, the list is that of the files by start time. */
  lemma ListedOnce(cfg: Config, calls: seq<Call>)
    requires Timed(calls) && NamesFit(cfg, calls) && NamedOnce(NamedRun(cfg, calls).files)
    ensures NamedRun(cfg, calls).files == Starts(Run(cfg, calls).disk)
  {
    hide NamedTime;
    RunFits(cfg, calls);
    RunIsGood(cfg, calls);
    OnceIsDistinct(NamedRun(cfg, calls).files);
  }
}
