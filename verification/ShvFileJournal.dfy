/**
 `appendThrow`, `createNewLogFile` and `rotateJournal` over a directory whose files are told apart by their start
 times.  `NamedJournals` has the directory as it is, whose files are told apart by their names.
 */
module ShvFileJournals {
  import opened ByteStrings
  import opened Journals
  import opened FileJournals

  /** A list without immediate repetitions. */
  function Distinct(files: seq<int>): (r: seq<int>)
    ensures (files == [] <==> r == []) && (files != [] ==> r[|r| - 1] == files[|files| - 1])
  {
    if files == [] then []
    else
      var older, last := files[..|files| - 1], files[|files| - 1];
      if older != [] && older[|older| - 1] == last then Distinct(older) else Distinct(older) + [last]
  }

  /** The file list names exactly the files on disk, oldest first; a file may be named twice in a row. */
  ghost predicate Names(files: seq<int>, disk: Disk)
  {
    Distinct(files) == Starts(disk)
  }

  lemma {:induction false} IncreasingIsDistinct(files: seq<int>)
    requires forall i, j | 0 <= i < j < |files| :: files[i] < files[j]
    ensures Distinct(files) == files
  {
    if files != [] {
      IncreasingIsDistinct(files[..|files| - 1]);
    }
  }

  lemma StartsName(disk: Disk)
    requires InTime(disk)
    ensures Names(Starts(disk), disk)
  {
    InTimeIsSorted(disk);
    IncreasingIsDistinct(Starts(disk));
  }

  lemma LastName(files: seq<int>, disk: Disk)
    requires Names(files, disk)
    ensures files == [] <==> disk == []
    ensures disk != [] ==> files[|files| - 1] == Last(disk).start
  {
  }

  lemma NamesGrow(files: seq<int>, disk: Disk, start: int, rows: seq<Entry>)
    requires Names(files, disk)
    ensures Names(files + [start], WithRows(disk, start, rows))
  {
  }

  lemma NamesKept(files: seq<int>, disk: Disk, rows: seq<Entry>)
    requires Names(files, disk) && disk != []
    ensures Names(files, WithRows(disk, Last(disk).start, rows))
  {
  }

  lemma {:induction false} SizeConcat(rowSize: Entry -> nat, xs: seq<Entry>, ys: seq<Entry>)
    ensures Size(rowSize, xs + ys) == Size(rowSize, xs) + Size(rowSize, ys)
    decreases |ys|
  {
    if ys == [] {
      assert xs + ys == xs;
    } else {
      assert (xs + ys)[..|xs + ys| - 1] == xs + ys[..|ys| - 1];
      SizeConcat(rowSize, xs, ys[..|ys| - 1]);
    }
  }

  lemma WithRowsTail(disk: Disk, start: int, rows: seq<Entry>)
    requires |disk| > 1
    ensures WithRows(disk, start, rows)[1..] == WithRows(disk[1..], start, rows)
    ensures WithRows(disk, start, rows)[0] == disk[0]
  {
    var n := |disk| - 1;
    assert Last(disk[1..]) == Last(disk) && disk[..n][1..] == disk[1..][..n - 1];
    if Last(disk).start == start {
      var last := [LogFile(start, Last(disk).rows + rows)];
      assert (disk[..n] + last)[1..] == disk[..n][1..] + last;
    } else {
      assert (disk + [LogFile(start, rows)])[1..] == disk[1..] + [LogFile(start, rows)];
    }
  }

  lemma {:induction false} TotalSizeGrows(rowSize: Entry -> nat, disk: Disk, start: int, rows: seq<Entry>)
    ensures TotalSize(rowSize, WithRows(disk, start, rows)) == TotalSize(rowSize, disk) + Size(rowSize, rows)
    decreases |disk|
  {
    if disk == [] {
      assert WithRows(disk, start, rows)[1..] == [];
    } else if |disk| == 1 {
      SizeConcat(rowSize, disk[0].rows, rows);
      assert disk[1..] == [];
      if disk[0].start == start {
        assert WithRows(disk, start, rows)[1..] == [];
      } else {
        assert WithRows(disk, start, rows)[1..] == [LogFile(start, rows)] && [LogFile(start, rows)][1..] == [];
      }
    } else {
      TotalSizeGrows(rowSize, disk[1..], start, rows);
      WithRowsTail(disk, start, rows);
    }
  }

  function Max(a: int, b: int): int { if a < b then b else a }

  /** The time an entry is logged with. */
  function LogTime(e: Entry, now: int, recent: int): int { Max(if e.time == 0 then now else e.time, recent) }

  // ---------------------------------------------------------------- the journal as a value

  datatype Config = Config(fileSizeLimit: int, journalSizeLimit: int, rowSize: Entry -> nat)

  datatype Journal = Journal(disk: Disk, files: seq<int>, journalSize: int, lastFileSize: int,
                             recent: int, snapshot: Snapshot)

  const EMPTY := Journal([], [], 0, 0, 0, map[])

  function LastSize(cfg: Config, disk: Disk): int
  {
    if disk == [] then 0 else Size(cfg.rowSize, Last(disk).rows)
  }

  predicate NeedsFile(cfg: Config, j: Journal) { j.files == [] || j.lastFileSize > cfg.fileSizeLimit }

  ghost function Created(j: Journal, start: int): Journal
  {
    j.(disk := WithRows(j.disk, start, SnapshotRows(j.snapshot, start)), files := j.files + [start], recent := start)
  }

  /** With a file for the next row; a start time of 0 stands for the present time. */
  ghost function Opened(cfg: Config, j: Journal, msec: int, now: int): Journal
  {
    if NeedsFile(cfg, j) then Created(j, if msec == 0 then now else msec) else j
  }

  /** The start time under which the next row is filed. */
  function FiledUnder(cfg: Config, j: Journal, msec: int): int
  {
    if NeedsFile(cfg, j) then msec else j.files[|j.files| - 1]
  }

  function Logged(cfg: Config, j: Journal, start: int, e: Entry): Journal
  {
    var disk := WithRows(j.disk, start, [e]);
    j.(disk := disk, snapshot := AddToSnapshot(j.snapshot, e), recent := e.time,
       journalSize := j.journalSize + cfg.rowSize(e), lastFileSize := LastSize(cfg, disk))
  }

  /** The files that rotation keeps: it deletes from the oldest on, and never the last file. */
  function KeptFiles(cfg: Config, disk: Disk): (r: Disk)
    ensures disk != [] ==> exists k | 0 <= k < |disk| :: r == disk[k..]
    ensures disk != [] ==> TotalSize(cfg.rowSize, r) < cfg.journalSizeLimit || |r| == 1
  {
    if |disk| <= 1 || TotalSize(cfg.rowSize, disk) < cfg.journalSizeLimit then
      assert disk[0..] == disk;
      disk
    else
      var r := KeptFiles(cfg, disk[1..]);
      assert exists k | 0 <= k < |disk| :: r == disk[k..] by {
        var k :| 0 <= k < |disk[1..]| && r == disk[1..][k..];
        assert r == disk[k + 1..];
      }
      r
  }

  function Rescanned(cfg: Config, j: Journal): Journal
  {
    j.(files := Starts(j.disk), journalSize := TotalSize(cfg.rowSize, j.disk), lastFileSize := LastSize(cfg, j.disk))
  }

  function Rotated(cfg: Config, j: Journal): Journal
  {
    if j.journalSize > cfg.journalSizeLimit then Rescanned(cfg, j.(disk := KeptFiles(cfg, j.disk))) else j
  }

  datatype Outcome = Thrown(after: Journal) | Done(after: Journal)

  ghost function Appended(cfg: Config, j: Journal, entry: Entry, now: int): Outcome
  {
    var msec := LogTime(entry, now, j.recent);
    var ready := Opened(cfg, j, msec, now);
    var start := FiledUnder(cfg, j, msec);
    if start < ready.files[|ready.files| - 1] then Thrown(ready)
    else Done(Rotated(cfg, Logged(cfg, ready, start, entry.(time := msec))))
  }

  /** After a forced check: the directory is read again, and the time of its newest row. */
  function Rechecked(cfg: Config, j: Journal): Journal
  {
    Rescanned(cfg, j).(recent := if j.disk == [] then 0 else NewestOf(Last(j.disk)))
  }

  /** The journal from which an entry is logged: after a throw, the directory is checked before the second attempt. */
  ghost function Settled(cfg: Config, j: Journal, entry: Entry, now: int): Journal
  {
    var r := Appended(cfg, j, entry, now);
    if r.Thrown? then Rechecked(cfg, r.after) else j
  }

  /** `append`: the attempt that counts. */
  ghost function Append(cfg: Config, j: Journal, entry: Entry, now: int): Outcome
  {
    Appended(cfg, Settled(cfg, j, entry, now), entry, now)
  }

  /** The entry as `append` logs it. */
  ghost function Stored(cfg: Config, j: Journal, entry: Entry, now: int): Entry
  {
    entry.(time := LogTime(entry, now, Settled(cfg, j, entry, now).recent))
  }

  // ---------------------------------------------------------------- what every run keeps

  /** The snapshot in memory is the replay of everything appended, in the order of the times it was logged with. */
  ghost predicate Records(history: seq<Entry>, snapshot: Snapshot, recent: int)
  {
    snapshot == Replay(map[], history) && Ordered(history) && (history != [] ==> history[|history| - 1].time <= recent)
  }

  /** What holds between appends. */
  ghost predicate Good(cfg: Config, j: Journal, history: seq<Entry>)
  {
    && Sound(j.disk, j.snapshot, j.recent)
    && Names(j.files, j.disk)
    && 0 <= j.journalSize
    && j.lastFileSize == LastSize(cfg, j.disk)
    && Records(history, j.snapshot, j.recent)
  }

  lemma RollOver(disk: Disk, files: seq<int>, snapshot: Snapshot, recent: int, start: int)
    requires WellKeyed(snapshot) && Sound(disk, snapshot, recent) && Names(files, disk) && recent <= start && 0 < start
    ensures var more := WithRows(disk, start, SnapshotRows(snapshot, start));
      && Sound(more, snapshot, start) && Names(files + [start], more)
  {
    if disk == [] || Last(disk).start < start {
      SoundNewFile(disk, snapshot, recent, start);
    } else {
      SoundSameFile(disk, snapshot, recent, start);
    }
    NamesGrow(files, disk, start, SnapshotRows(snapshot, start));
  }

  lemma RowAdded(disk: Disk, files: seq<int>, snapshot: Snapshot, recent: int, e: Entry)
    requires Sound(disk, snapshot, recent) && Names(files, disk) && disk != [] && recent <= e.time
    ensures var more := WithRows(disk, Last(disk).start, [e]);
      Sound(more, AddToSnapshot(snapshot, e), e.time) && Names(files, more)
  {
    SoundAppend(disk, snapshot, recent, e);
    NamesKept(files, disk, [e]);
  }

  lemma HistoryGrows(history: seq<Entry>, snapshot: Snapshot, recent: int, e: Entry)
    requires Records(history, snapshot, recent) && recent <= e.time
    ensures Records(history + [e], AddToSnapshot(snapshot, e), e.time)
  {
    ReplayOne(map[], history, e);
  }

  lemma RescannedIsGood(cfg: Config, j: Journal, history: seq<Entry>, disk: Disk)
    requires Sound(disk, j.snapshot, j.recent) && Records(history, j.snapshot, j.recent)
    ensures Good(cfg, Rescanned(cfg, j.(disk := disk)), history)
  {
    StartsName(disk);
  }

  lemma KeptIsSound(cfg: Config, j: Journal)
    requires Sound(j.disk, j.snapshot, j.recent) && j.disk != []
    ensures var r := KeptFiles(cfg, j.disk); Sound(r, j.snapshot, j.recent) && r != [] && Last(r) == Last(j.disk)
  {
    var k :| 0 <= k < |j.disk| && KeptFiles(cfg, j.disk) == j.disk[k..];
    SoundSuffix(j.disk, j.snapshot, j.recent, k);
  }

  /** Rotation keeps the newest file and ends below the limit or with that file alone. */
  lemma RotatedIsGood(cfg: Config, j: Journal, history: seq<Entry>)
    requires Good(cfg, j, history) && j.disk != []
    ensures var r := Rotated(cfg, j);
      && Good(cfg, r, history) && r.disk != [] && Last(r.disk) == Last(j.disk)
      && (r.journalSize <= cfg.journalSizeLimit || |r.disk| == 1)
  {
    if j.journalSize > cfg.journalSizeLimit {
      KeptIsSound(cfg, j);
      RescannedIsGood(cfg, j, history, KeptFiles(cfg, j.disk));
    }
  }

  lemma LoggedIsGood(cfg: Config, j: Journal, history: seq<Entry>, e: Entry)
    requires Sound(j.disk, j.snapshot, j.recent) && Names(j.files, j.disk) && Records(history, j.snapshot, j.recent)
    requires 0 <= j.journalSize && j.disk != [] && j.recent <= e.time
    ensures var r := Logged(cfg, j, Last(j.disk).start, e);
      Good(cfg, r, history + [e]) && r.disk != [] && Last(r.disk).rows == Last(j.disk).rows + [e]
  {
    RowAdded(j.disk, j.files, j.snapshot, j.recent, e);
    HistoryGrows(history, j.snapshot, j.recent, e);
  }

  lemma OpenedIsGood(cfg: Config, j: Journal, history: seq<Entry>, msec: int, now: int)
    requires Good(cfg, j, history) && now > 0 && j.recent <= msec
    ensures var r := Opened(cfg, j, msec, now);
      && Sound(r.disk, r.snapshot, r.recent) && Names(r.files, r.disk) && Records(history, r.snapshot, r.recent)
      && 0 <= r.journalSize && r.disk != [] && r.snapshot == j.snapshot
      && (msec > 0 ==> r.recent <= msec && FiledUnder(cfg, j, msec) == Last(r.disk).start)
      && (msec <= 0 ==> j.disk == [] && FiledUnder(cfg, j, msec) == 0 && r == Created(j, now))
  {
    LastName(j.files, j.disk);
    if j.disk != [] {
      assert InTimeAt(j.disk, |j.disk| - 1);
    }
    if NeedsFile(cfg, j) {
      ReplayWellKeyed(map[], history);
      RollOver(j.disk, j.files, j.snapshot, j.recent, if msec == 0 then now else msec);
    }
  }

  lemma FiledIsGood(cfg: Config, ready: Journal, history: seq<Entry>, e: Entry)
    requires Sound(ready.disk, ready.snapshot, ready.recent) && Names(ready.files, ready.disk)
    requires Records(history, ready.snapshot, ready.recent)
    requires 0 <= ready.journalSize && ready.disk != [] && ready.recent <= e.time
    ensures var r := Rotated(cfg, Logged(cfg, ready, Last(ready.disk).start, e));
      Good(cfg, r, history + [e]) && (r.journalSize <= cfg.journalSizeLimit || |r.disk| == 1)
  {
    LoggedIsGood(cfg, ready, history, e);
    RotatedIsGood(cfg, Logged(cfg, ready, Last(ready.disk).start, e), history + [e]);
  }

  lemma EmptyFileIsGood(cfg: Config, j: Journal, history: seq<Entry>, now: int)
    requires Good(cfg, j, history) && j.disk == [] && now > 0
    ensures Created(j, now).lastFileSize == LastSize(cfg, Created(j, now).disk)
  {
  }

  lemma AppendDone(cfg: Config, j: Journal, history: seq<Entry>, entry: Entry, now: int)
    requires Good(cfg, j, history) && now > 0 && LogTime(entry, now, j.recent) > 0
    ensures var r := Appended(cfg, j, entry, now);
      && r.Done? && Good(cfg, r.after, history + [entry.(time := LogTime(entry, now, j.recent))])
      && (r.after.journalSize <= cfg.journalSizeLimit || |r.after.disk| == 1)
  {
    var msec := LogTime(entry, now, j.recent);
    OpenedIsGood(cfg, j, history, msec, now);
    var ready := Opened(cfg, j, msec, now);
    LastName(ready.files, ready.disk);
    FiledIsGood(cfg, ready, history, entry.(time := msec));
  }

  lemma FirstFileIsEmpty(j: Journal, now: int)
    requires j.disk == [] && j.snapshot == map[]
    ensures Created(j, now).disk == [LogFile(now, [])] && Created(j, now).recent == now
  {
    assert SnapshotRows(map[], now) == [];
  }

  /** The empty file that is left when an entry is refused. */
  lemma CreatedIsGood(cfg: Config, j: Journal, history: seq<Entry>, now: int)
    requires Good(cfg, j, history) && now > 0 && j.disk == []
    ensures var r := Created(j, now); Good(cfg, r, history) && r.recent == now && r.disk == [LogFile(now, [])]
  {
    OpenedIsGood(cfg, j, history, 0, now);
    EmptyFileIsGood(cfg, j, history, now);
    FirstFileIsEmpty(j, now);
  }

  lemma AppendThrown(cfg: Config, j: Journal, history: seq<Entry>, entry: Entry, now: int)
    requires Good(cfg, j, history) && now > 0 && LogTime(entry, now, j.recent) <= 0
    ensures Appended(cfg, j, entry, now) == Thrown(Created(j, now)) && j.disk == []
  {
    OpenedIsGood(cfg, j, history, LogTime(entry, now, j.recent), now);
  }

  lemma LogTimeIsPositive(cfg: Config, j: Journal, history: seq<Entry>, entry: Entry, now: int)
    requires Good(cfg, j, history) && now > 0
    ensures LogTime(entry, now, j.recent) <= 0 <==> j.disk == [] && entry.time < 0
  {
    if j.disk != [] {
      assert InTimeAt(j.disk, |j.disk| - 1);
    }
  }

  /**
   `appendThrow` fails exactly for a negative time in an empty journal: then a file named by the clock
   exists already when time 0 is compared with it.  Either way the journal stays good.
   */
  lemma AppendedIsGood(cfg: Config, j: Journal, history: seq<Entry>, entry: Entry, now: int)
    requires Good(cfg, j, history) && now > 0
    ensures var r := Appended(cfg, j, entry, now);
      && (r.Thrown? <==> j.disk == [] && entry.time < 0)
      && (r.Thrown? ==> Good(cfg, r.after, history))
      && (r.Done? ==> Good(cfg, r.after, history + [entry.(time := LogTime(entry, now, j.recent))]))
      && (r.Done? ==> r.after.journalSize <= cfg.journalSizeLimit || |r.after.disk| == 1)
  {
    LogTimeIsPositive(cfg, j, history, entry, now);
    if LogTime(entry, now, j.recent) > 0 {
      AppendDone(cfg, j, history, entry, now);
    } else {
      AppendThrown(cfg, j, history, entry, now);
      CreatedIsGood(cfg, j, history, now);
    }
  }

  /** What the entry is logged from is good, and gives it a time that will not be refused. */
  lemma SettledIsGood(cfg: Config, j: Journal, history: seq<Entry>, entry: Entry, now: int)
    requires Good(cfg, j, history) && now > 0
    ensures var s := Settled(cfg, j, entry, now);
      && Good(cfg, s, history) && LogTime(entry, now, s.recent) > 0
      && (j.disk != [] || entry.time >= 0 ==> s == j)
      && (j.disk == [] && entry.time < 0 ==> s.recent == now && s.disk == [LogFile(now, [])] && s.journalSize == 0)
  {
    LogTimeIsPositive(cfg, j, history, entry, now);
    if LogTime(entry, now, j.recent) > 0 {
      AppendDone(cfg, j, history, entry, now);
    } else {
      AppendThrown(cfg, j, history, entry, now);
      CreatedIsGood(cfg, j, history, now);
      var r := Created(j, now);
      RescannedIsGood(cfg, r, history, r.disk);
      EmptyDirectorySize(cfg, now);
    }
  }

  lemma EmptyDirectorySize(cfg: Config, start: int)
    ensures TotalSize(cfg.rowSize, [LogFile(start, [])]) == 0
  {
    assert [LogFile(start, [])][1..] == [];
  }

  /** `append` logs every entry, and leaves a size within the limit or one file. */
  lemma AppendLogs(cfg: Config, j: Journal, history: seq<Entry>, entry: Entry, now: int)
    requires Good(cfg, j, history) && now > 0
    ensures var r := Append(cfg, j, entry, now);
      && r.Done? && Good(cfg, r.after, history + [Stored(cfg, j, entry, now)])
      && (r.after.journalSize <= cfg.journalSizeLimit || |r.after.disk| == 1)
  {
    SettledIsGood(cfg, j, history, entry, now);
    AppendDone(cfg, Settled(cfg, j, entry, now), history, entry, now);
  }

  // ---------------------------------------------------------------- whole runs

  datatype Call = Call(entry: Entry, now: int)

  /** The journal after any sequence of appends, starting with an empty directory. */
  ghost function Run(cfg: Config, calls: seq<Call>): Journal
  {
    if calls == [] then EMPTY
    else
      var last := calls[|calls| - 1];
      Append(cfg, Run(cfg, calls[..|calls| - 1]), last.entry, last.now).after
  }

  /** What was appended in a run, each entry with the time it was logged with. */
  ghost function History(cfg: Config, calls: seq<Call>): (r: seq<Entry>)
    ensures |r| == |calls|
  {
    if calls == [] then []
    else
      var before, last := calls[..|calls| - 1], calls[|calls| - 1];
      History(cfg, before) + [Stored(cfg, Run(cfg, before), last.entry, last.now)]
  }

  ghost predicate Timed(calls: seq<Call>) { forall i | 0 <= i < |calls| :: calls[i].now > 0 }

  lemma EmptyIsGood(cfg: Config)
    ensures Good(cfg, EMPTY, [])
  {
  }

  lemma {:induction false} RunIsGood(cfg: Config, calls: seq<Call>)
    requires Timed(calls)
    ensures Good(cfg, Run(cfg, calls), History(cfg, calls))
  {
    if calls == [] {
      EmptyIsGood(cfg);
    } else {
      var before, last := calls[..|calls| - 1], calls[|calls| - 1];
      RunIsGood(cfg, before);
      AppendLogs(cfg, Run(cfg, before), History(cfg, before), last.entry, last.now);
    }
  }

  /**
   In every run: entry times never decrease across files, the newest file alone replays to the
   snapshot in memory, which is the replay of everything appended, and so does the whole directory.
   */
  lemma EveryRun(cfg: Config, calls: seq<Call>)
    requires Timed(calls)
    ensures var j := Run(cfg, calls);
      && Ordered(Rows(j.disk))
      && j.snapshot == Replay(map[], History(cfg, calls))
      && (j.disk != [] ==>
            View(j.snapshot) == View(Replay(map[], Last(j.disk).rows)) == View(Replay(map[], Rows(j.disk))))
  {
    RunIsGood(cfg, calls);
    var j := Run(cfg, calls);
    RowsAreOrdered(j.disk);
    if j.disk != [] {
      NewestFileIsEnough(j.disk);
    }
  }

  // ---------------------------------------------------------------- the times of a run

  ghost predicate RowTimes(rows: seq<Entry>, ok: int -> bool) { forall i | 0 <= i < |rows| :: ok(rows[i].time) }

  /** All files and rows have times of a kind. */
  ghost predicate TimesOf(disk: Disk, ok: int -> bool)
  {
    forall i | 0 <= i < |disk| :: ok(disk[i].start) && RowTimes(disk[i].rows, ok)
  }

  lemma WithRowsTimes(disk: Disk, start: int, rows: seq<Entry>, ok: int -> bool)
    requires TimesOf(disk, ok) && ok(start) && RowTimes(rows, ok)
    ensures TimesOf(WithRows(disk, start, rows), ok)
  {
    if disk != [] && Last(disk).start == start {
      var all := Last(disk).rows + rows;
      assert RowTimes(disk[|disk| - 1].rows, ok);
      assert RowTimes(all, ok);
    }
  }

  lemma OpenedTimes(cfg: Config, j: Journal, msec: int, now: int, ok: int -> bool)
    requires TimesOf(j.disk, ok) && ok(if msec == 0 then now else msec)
    ensures TimesOf(Opened(cfg, j, msec, now).disk, ok)
  {
    var at := if msec == 0 then now else msec;
    WithRowsTimes(j.disk, at, SnapshotRows(j.snapshot, at), ok);
  }

  lemma GrowsToSome(disk: Disk, start: int, rows: seq<Entry>)
    ensures WithRows(disk, start, rows) != []
  {
  }

  lemma FiledTimes(cfg: Config, ready: Journal, e: Entry, ok: int -> bool)
    requires TimesOf(ready.disk, ok) && ready.disk != [] && ok(e.time)
    ensures var r := Rotated(cfg, Logged(cfg, ready, Last(ready.disk).start, e));
      TimesOf(r.disk, ok) && r.recent == e.time
  {
    hide TotalSize, LastSize, AddToSnapshot, WithRows, KeptFiles;
    var disk := WithRows(ready.disk, Last(ready.disk).start, [e]);
    assert disk != [] by { GrowsToSome(ready.disk, Last(ready.disk).start, [e]); }
    assert ok(ready.disk[|ready.disk| - 1].start);
    WithRowsTimes(ready.disk, Last(ready.disk).start, [e], ok);
    var k :| 0 <= k < |disk| && KeptFiles(cfg, disk) == disk[k..];
  }

  lemma AppendedTimes(cfg: Config, j: Journal, history: seq<Entry>, entry: Entry, now: int, ok: int -> bool)
    requires Good(cfg, j, history) && now > 0 && LogTime(entry, now, j.recent) > 0
    requires TimesOf(j.disk, ok) && ok(LogTime(entry, now, j.recent))
    ensures var r := Appended(cfg, j, entry, now).after; TimesOf(r.disk, ok) && ok(r.recent)
  {
    var msec := LogTime(entry, now, j.recent);
    OpenedIsGood(cfg, j, history, msec, now);
    var ready := Opened(cfg, j, msec, now);
    LastName(ready.files, ready.disk);
    OpenedTimes(cfg, j, msec, now, ok);
    FiledTimes(cfg, ready, entry.(time := msec), ok);
  }

  /** Clocks and positive entry times of a kind. */
  ghost predicate CallTimes(calls: seq<Call>, ok: int -> bool)
  {
    forall i | 0 <= i < |calls| :: ok(calls[i].now) && (calls[i].entry.time > 0 ==> ok(calls[i].entry.time))
  }

  lemma NoTimes(ok: int -> bool)
    ensures TimesOf(EMPTY.disk, ok)
  {
  }

  lemma SettledTimes(cfg: Config, j: Journal, history: seq<Entry>, entry: Entry, now: int, ok: int -> bool)
    requires Good(cfg, j, history) && now > 0 && TimesOf(j.disk, ok) && (j.recent == 0 || ok(j.recent))
    requires ok(now) && (entry.time > 0 ==> ok(entry.time))
    ensures var s := Settled(cfg, j, entry, now); TimesOf(s.disk, ok) && ok(LogTime(entry, now, s.recent))
  {
    hide Good, Settled;
    SettledIsGood(cfg, j, history, entry, now);
  }

  /** In every run, all times on disk come from the clocks and the entries. */
  lemma {:induction false} RunTimes(cfg: Config, calls: seq<Call>, ok: int -> bool)
    requires Timed(calls) && CallTimes(calls, ok)
    ensures var j := Run(cfg, calls); TimesOf(j.disk, ok) && (j.recent == 0 || ok(j.recent))
  {
    hide Good, TimesOf, Appended;
    if calls == [] {
      NoTimes(ok);
    } else {
      var before, last := calls[..|calls| - 1], calls[|calls| - 1];
      var j := Run(cfg, before);
      assert ok(calls[|calls| - 1].now);
      RunTimes(cfg, before, ok);
      RunIsGood(cfg, before);
      SettledIsGood(cfg, j, History(cfg, before), last.entry, last.now);
      SettledTimes(cfg, j, History(cfg, before), last.entry, last.now, ok);
      AppendedTimes(cfg, Settled(cfg, j, last.entry, last.now), History(cfg, before), last.entry, last.now, ok);
    }
  }

  // ---------------------------------------------------------------- runs step by step

  lemma RunStep(cfg: Config, calls: seq<Call>, c: Call)
    ensures Run(cfg, calls + [c]) == Append(cfg, Run(cfg, calls), c.entry, c.now).after
  {
    assert (calls + [c])[..|calls|] == calls;
  }

  /** An entry that is newer than all others, in a file that has room. */
  lemma AppendToLast(cfg: Config, j: Journal, e: Entry, now: int)
    requires j.disk != [] && j.files != [] && j.files[|j.files| - 1] == Last(j.disk).start
    requires j.lastFileSize <= cfg.fileSizeLimit && j.journalSize + cfg.rowSize(e) <= cfg.journalSizeLimit
    requires e.time > 0 && e.time >= j.recent
    ensures Append(cfg, j, e, now) == Done(Logged(cfg, j, Last(j.disk).start, e))
  {
    assert Opened(cfg, j, e.time, now) == j && FiledUnder(cfg, j, e.time) == Last(j.disk).start;
    assert Appended(cfg, j, e, now).Done?;
  }

  /** An entry that is newer than all others, in a new file. */
  lemma AppendToNew(cfg: Config, j: Journal, e: Entry, now: int)
    requires NeedsFile(cfg, j) && j.journalSize + cfg.rowSize(e) <= cfg.journalSizeLimit
    requires e.time > 0 && e.time >= j.recent
    ensures Append(cfg, j, e, now) == Done(Logged(cfg, Created(j, e.time), e.time, e))
  {
    assert Opened(cfg, j, e.time, now) == Created(j, e.time) && FiledUnder(cfg, j, e.time) == e.time;
    assert Appended(cfg, j, e, now).Done?;
  }
}
