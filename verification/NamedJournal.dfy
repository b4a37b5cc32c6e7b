/**
 The journal object over the directory as it is: a file is found by its name, which shows its start time with the
 milliseconds that the text of a time gets, and its start time is read from that name again.
 */
module NamedJournals {
  import opened ByteStrings
  import opened Journals
  import opened FileJournals
  import opened ShvFileJournals
  import opened TimeTexts

  // ---------------------------------------------------------------- the directory

  /** Rows appended to the file with a name, begun if it is not there; files are listed by the time they show. */
  function Filed(disk: Disk, name: int, rows: seq<Entry>): Disk
  {
    if disk == [] || Last(disk).start < name then disk + [LogFile(name, rows)]
    else
      var older := disk[..|disk| - 1];
      if Last(disk).start == name then older + [LogFile(name, Last(disk).rows + rows)]
      else Filed(older, name, rows) + [Last(disk)]
  }

  ghost predicate HasFile(disk: Disk, name: int) { exists i | 0 <= i < |disk| :: disk[i].start == name }

  lemma HasFileByParts(disk: Disk, name: int)
    requires disk != []
    ensures HasFile(disk, name) <==> Last(disk).start == name || HasFile(disk[..|disk| - 1], name)
  {
    var older := disk[..|disk| - 1];
    if HasFile(disk, name) && Last(disk).start != name {
      var i :| 0 <= i < |disk| && disk[i].start == name;
      assert older[i].start == name;
    }
    if HasFile(older, name) {
      var i :| 0 <= i < |older| && older[i].start == name;
      assert disk[i].start == name;
    }
  }

  lemma AddedFile(disk: Disk, f: LogFile, x: int)
    ensures HasFile(disk + [f], x) <==> f.start == x || HasFile(disk, x)
    ensures FileRows(disk + [f], x) == if f.start == x then f.rows else FileRows(disk, x)
  {
    var more := disk + [f];
    assert more[..|more| - 1] == disk;
    HasFileByParts(more, x);
  }

  lemma {:induction false} NoFileNoRows(disk: Disk, name: int)
    requires !HasFile(disk, name)
    ensures FileRows(disk, name) == []
  {
    if disk != [] {
      HasFileByParts(disk, name);
      NoFileNoRows(disk[..|disk| - 1], name);
    }
  }

  /** What filing rows does to each file. */
  lemma {:induction false} FiledAt(disk: Disk, name: int, rows: seq<Entry>, x: int)
    requires Sorted(disk)
    ensures var r := Filed(disk, name, rows);
      && (HasFile(r, x) <==> x == name || HasFile(disk, x))
      && FileRows(r, x) == FileRows(disk, x) + if x == name then rows else []
  {
    if disk == [] || Last(disk).start < name {
      assert forall i | 0 <= i < |disk| :: disk[i].start <= Last(disk).start;
      NoFileNoRows(disk, name);
      AddedFile(disk, LogFile(name, rows), x);
    } else {
      var older := disk[..|disk| - 1];
      HasFileByParts(disk, x);
      if Last(disk).start == name {
        AddedFile(older, LogFile(name, Last(disk).rows + rows), x);
      } else {
        FiledAt(older, name, rows, x);
        AddedFile(Filed(older, name, rows), Last(disk), x);
      }
    }
  }

  lemma {:induction false} FiledIsSorted(disk: Disk, name: int, rows: seq<Entry>)
    requires Sorted(disk)
    ensures var r := Filed(disk, name, rows);
      Sorted(r) && r != [] && Last(r).start == if disk == [] then name else Max(name, Last(disk).start)
  {
    if disk != [] && Last(disk).start >= name {
      var older := disk[..|disk| - 1];
      assert Sorted(older) && forall i | 0 <= i < |older| :: older[i].start < Last(disk).start;
      if Last(disk).start == name {
        SortedWithLast(older, LogFile(name, Last(disk).rows + rows));
      } else {
        FiledIsSorted(older, name, rows);
        SortedWithLast(Filed(older, name, rows), Last(disk));
      }
    } else {
      SortedWithLast(disk, LogFile(name, rows));
    }
  }

  lemma SortedWithLast(disk: Disk, f: LogFile)
    requires Sorted(disk) && (disk != [] ==> Last(disk).start < f.start)
    ensures Sorted(disk + [f]) && Last(disk + [f]) == f
  {
  }

  // ---------------------------------------------------------------- the journal as a value

  ghost function Begun(j: Journal, start: int): Journal
  {
    j.(disk := Filed(j.disk, NamedTime(start), SnapshotRows(j.snapshot, start)),
       files := j.files + [start], recent := start)
  }

  /** With a file for the next row; a start time of 0 stands for the present time. */
  ghost function Readied(cfg: Config, j: Journal, msec: int, now: int): Journal
  {
    if NeedsFile(cfg, j) then Begun(j, if msec == 0 then now else msec) else j
  }

  function FileSize(cfg: Config, disk: Disk, start: int): int { Size(cfg.rowSize, FileRows(disk, NamedTime(start))) }

  /** The size counted is what the file grew by. */
  function Written(cfg: Config, j: Journal, start: int, e: Entry): Journal
  {
    var disk := Filed(j.disk, NamedTime(start), [e]);
    j.(disk := disk, snapshot := AddToSnapshot(j.snapshot, e), recent := e.time,
       journalSize := j.journalSize + (FileSize(cfg, disk, start) - FileSize(cfg, j.disk, start)),
       lastFileSize := FileSize(cfg, disk, start))
  }

  /** `appendThrow` */
  ghost function Attempted(cfg: Config, j: Journal, entry: Entry, now: int): Outcome
  {
    var msec := LogTime(entry, now, j.recent);
    var ready := Readied(cfg, j, msec, now);
    var start := FiledUnder(cfg, j, msec);
    if start < ready.files[|ready.files| - 1] then Thrown(ready)
    else Done(Rotated(cfg, Written(cfg, ready, start, entry.(time := msec))))
  }

  /** `findLastEntryDateTime`: the time of the newest row as its text shows it, or the start of an empty file. */
  function NewestShown(f: LogFile): int
  {
    if f.rows == [] then f.start
    else match ReadTime(TimeText(f.rows[|f.rows| - 1].time))
      case Some(time) => time
      case None => 0
  }

  /** After a forced check: start times are read from the names, and the newest time from a row. */
  function Reexamined(cfg: Config, j: Journal): Journal
  {
    Rescanned(cfg, j).(recent := if j.disk == [] then 0 else NewestShown(Last(j.disk)))
  }

  /** The journal from which an entry is logged: after a throw, the directory is checked before the second attempt. */
  ghost function Checked(cfg: Config, j: Journal, entry: Entry, now: int): Journal
  {
    var r := Attempted(cfg, j, entry, now);
    if r.Thrown? then Reexamined(cfg, r.after) else j
  }

  /** `append`: the attempt that counts. */
  ghost function NamedAppend(cfg: Config, j: Journal, entry: Entry, now: int): Outcome
  {
    Attempted(cfg, Checked(cfg, j, entry, now), entry, now)
  }

  /** The journal after any sequence of appends, starting with an empty directory. */
  ghost function NamedRun(cfg: Config, calls: seq<Call>): Journal
  {
    if calls == [] then EMPTY
    else
      var last := calls[|calls| - 1];
      NamedAppend(cfg, NamedRun(cfg, calls[..|calls| - 1]), last.entry, last.now).after
  }

  lemma DeletesOldest(cfg: Config, disk: Disk)
    requires |disk| > 1 && TotalSize(cfg.rowSize, disk) >= cfg.journalSizeLimit
    ensures KeptFiles(cfg, disk) == KeptFiles(cfg, disk[1..])
    ensures TotalSize(cfg.rowSize, disk) == Size(cfg.rowSize, disk[0].rows) + TotalSize(cfg.rowSize, disk[1..])
  {
  }

  lemma KeepsRest(cfg: Config, disk: Disk)
    requires |disk| <= 1 || TotalSize(cfg.rowSize, disk) < cfg.journalSizeLimit
    ensures KeptFiles(cfg, disk) == disk
  {
  }

  // ---------------------------------------------------------------- the journal as an object

  class ShvFileJournal {
    const cfg: Config
    var disk: Disk
    var files: seq<int>
    var journalSize: int
    var lastFileSize: int
    var recentTimeStamp: int
    var snapshot: Snapshot

    function State(): Journal
      reads this
    {
      Journal(disk, files, journalSize, lastFileSize, recentTimeStamp, snapshot)
    }

    constructor (cfg: Config)
      ensures this.cfg == cfg && State() == EMPTY
    {
      this.cfg := cfg;
      disk, files, journalSize, lastFileSize, recentTimeStamp, snapshot := [], [], 0, 0, 0, map[];
    }

    /** Opens the file for a start time, which may exist already, and begins it with the snapshot. */
    method CreateNewLogFile(start: int, now: int)
      modifies this
      ensures State() == Begun(old(State()), if start == 0 then now else start)
    {
      var at := if start == 0 then now else start;
      var rows := StampSnapshot(snapshot, at);
      disk := Filed(disk, NamedTime(at), rows);
      files := files + [at];
      recentTimeStamp := at;
    }

    method UpdateJournalStatus()
      modifies this
      ensures State() == Rescanned(cfg, old(State()))
    {
      files, journalSize, lastFileSize := Starts(disk), TotalSize(cfg.rowSize, disk), LastSize(cfg, disk);
    }

    /** Deletes files from the oldest on until the size is below the limit or one file is left. */
    method RotateJournal()
      modifies this
      ensures State() == Rescanned(cfg, old(State()).(disk := KeptFiles(cfg, old(disk))))
    {
      UpdateJournalStatus();
      DeleteOldest();
      UpdateJournalStatus();
    }

    method DeleteOldest()
      requires |files| == |disk| && journalSize == TotalSize(cfg.rowSize, disk)
      modifies `disk, `journalSize
      ensures disk == KeptFiles(cfg, old(disk))
    {
      hide KeptFiles, TotalSize, Size;
      var fileCount := |files|;
      var i := 0;
      while i < |files| && fileCount != 1 && journalSize >= cfg.journalSizeLimit
        invariant 0 <= i <= |files| && fileCount == |disk| == |files| - i
        invariant journalSize == TotalSize(cfg.rowSize, disk) && KeptFiles(cfg, disk) == KeptFiles(cfg, old(disk))
      {
        DeletesOldest(cfg, disk);
        journalSize := journalSize - Size(cfg.rowSize, disk[0].rows);
        disk := disk[1..];
        fileCount := fileCount - 1;
        i := i + 1;
      }
      KeepsRest(cfg, disk);
    }

    /** Makes sure that there is a file with room, and returns the start time to file the row under. */
    method OpenFile(msec: int, now: int) returns (start: int)
      modifies this
      ensures State() == Readied(cfg, old(State()), msec, now) && start == FiledUnder(cfg, old(State()), msec)
      ensures files != []
    {
      if files == [] || lastFileSize > cfg.fileSizeLimit {
        start := msec;
        CreateNewLogFile(start, now);
      } else {
        start := files[|files| - 1];
      }
    }

    method RotateIfTooLarge()
      modifies this
      ensures State() == Rotated(cfg, old(State()))
    {
      if journalSize > cfg.journalSizeLimit {
        RotateJournal();
      }
    }

    method AppendThrow(entry: Entry, now: int) returns (ok: bool)
      modifies this
      ensures Attempted(cfg, old(State()), entry, now) == if ok then Done(State()) else Thrown(State())
    {
      var msec := LogTime(entry, now, recentTimeStamp);
      var start := OpenFile(msec, now);
      ghost var ready := State();
      if start < files[|files| - 1] {
        return false;
      }
      AppendMonotonic(start, entry.(time := msec));
      ghost var logged := State();
      RotateIfTooLarge();
      ok := true;
    }

    /** Tries once more after reading the directory again; a second failure is only reported. */
    method AppendEntry(entry: Entry, now: int) returns (ok: bool)
      modifies this
      ensures NamedAppend(cfg, old(State()), entry, now) == if ok then Done(State()) else Thrown(State())
    {
      ok := AppendThrow(entry, now);
      if !ok {
        CheckJournalContext();
        ok := AppendThrow(entry, now);
      }
    }

    /** Reads the directory again, the start times from the names and the newest time from the last row. */
    method CheckJournalContext()
      modifies this
      ensures State() == Reexamined(cfg, old(State()))
    {
      UpdateJournalStatus();
      recentTimeStamp := if files == [] then 0 else NewestShown(Last(disk));
    }

    /** Adds the entry to the snapshot and to its file, whose size is taken over. */
    method AppendMonotonic(start: int, e: Entry)
      modifies this
      ensures State() == Written(cfg, old(State()), start, e)
    {
      snapshot := AddToSnapshot(snapshot, e);
      var before := FileSize(cfg, disk, start);
      disk := Filed(disk, NamedTime(start), [e]);
      recentTimeStamp := e.time;
      lastFileSize := FileSize(cfg, disk, start);
      journalSize := journalSize + (lastFileSize - before);
    }
  }

  // ---------------------------------------------------------------- what every run keeps

  ghost predicate Lists(files: seq<int>, name: int) { exists k | 0 <= k < |files| :: NamedTime(files[k]) == name }

  /** Every listed file is there, and every file that is there is listed, under its name. */
  ghost predicate Covers(files: seq<int>, disk: Disk)
  {
    && (forall k | 0 <= k < |files| :: HasFile(disk, NamedTime(files[k])))
    && (forall i | 0 <= i < |disk| :: Lists(files, disk[i].start))
  }

  /** Files stand under the times that their names show. */
  ghost predicate ByName(disk: Disk)
  {
    Sorted(disk) && forall i | 0 <= i < |disk| :: disk[i].start > 0 && NamedTime(disk[i].start) == disk[i].start
  }

  ghost predicate Listed(j: Journal)
  {
    && ByName(j.disk) && Covers(j.files, j.disk)
    && (forall k | 0 <= k < |j.files| :: j.files[k] > 0)
    && (if j.files == [] then j.recent == 0 && j.snapshot == map[] else j.recent > 0)
  }

  lemma ListedExtends(files: seq<int>, start: int, name: int)
    ensures Lists(files + [start], name) <==> Lists(files, name) || NamedTime(start) == name
  {
    hide NamedTime;
    var more := files + [start];
    if Lists(files, name) {
      var k :| 0 <= k < |files| && NamedTime(files[k]) == name;
      assert NamedTime(more[k]) == name;
    }
    assert more[|files|] == start;
  }

  lemma ListedFileIsThere(files: seq<int>, disk: Disk, name: int)
    requires Covers(files, disk)
    ensures Lists(files, name) <==> HasFile(disk, name)
  {
    hide NamedTime;
  }

  lemma FiledByName(disk: Disk, start: int, rows: seq<Entry>)
    requires ByName(disk) && start > 0
    ensures ByName(Filed(disk, NamedTime(start), rows))
  {
    hide NamedTime;
    var name, r := NamedTime(start), Filed(disk, NamedTime(start), rows);
    NamedTimeShows(start);
    FiledIsSorted(disk, name, rows);
    forall i | 0 <= i < |r| ensures r[i].start > 0 && NamedTime(r[i].start) == r[i].start {
      assert HasFile(r, r[i].start);
      FiledAt(disk, name, rows, r[i].start);
    }
  }

  lemma BegunCovers(files: seq<int>, disk: Disk, start: int, rows: seq<Entry>)
    requires Covers(files, disk) && Sorted(disk)
    ensures Covers(files + [start], Filed(disk, NamedTime(start), rows))
  {
    hide NamedTime, Filed, FileRows;
    var r, more := Filed(disk, NamedTime(start), rows), files + [start];
    forall k | 0 <= k < |more| ensures HasFile(r, NamedTime(more[k])) {
      FiledAt(disk, NamedTime(start), rows, NamedTime(more[k]));
    }
    forall i | 0 <= i < |r| ensures Lists(more, r[i].start) {
      assert HasFile(r, r[i].start);
      FiledAt(disk, NamedTime(start), rows, r[i].start);
      ListedFileIsThere(files, disk, r[i].start);
      ListedExtends(files, start, r[i].start);
    }
  }

  lemma FiledCovers(files: seq<int>, disk: Disk, start: int, rows: seq<Entry>)
    requires Covers(files, disk) && Sorted(disk) && HasFile(disk, NamedTime(start))
    ensures Covers(files, Filed(disk, NamedTime(start), rows))
  {
    hide NamedTime;
    var r := Filed(disk, NamedTime(start), rows);
    forall k | 0 <= k < |files| ensures HasFile(r, NamedTime(files[k])) {
      FiledAt(disk, NamedTime(start), rows, NamedTime(files[k]));
    }
    forall i | 0 <= i < |r| ensures Lists(files, r[i].start) {
      assert HasFile(r, r[i].start);
      FiledAt(disk, NamedTime(start), rows, r[i].start);
      ListedFileIsThere(files, disk, r[i].start);
    }
  }

  /** Reading the directory lists every file under the time that its name shows. */
  lemma StartsCover(disk: Disk)
    requires ByName(disk)
    ensures Covers(Starts(disk), disk)
  {
    hide NamedTime;
    forall i | 0 <= i < |disk| ensures HasFile(disk, NamedTime(Starts(disk)[i])) && Lists(Starts(disk), disk[i].start) {
      assert disk[i].start == NamedTime(Starts(disk)[i]);
    }
  }

  lemma BegunIsListed(j: Journal, start: int)
    requires Listed(j) && start > 0
    ensures Listed(Begun(j, start)) && HasFile(Begun(j, start).disk, NamedTime(start))
  {
    hide NamedTime, Filed, FileRows, SnapshotRows, Covers;
    var rows := SnapshotRows(j.snapshot, start);
    FiledByName(j.disk, start, rows);
    BegunCovers(j.files, j.disk, start, rows);
    FiledAt(j.disk, NamedTime(start), rows, NamedTime(start));
  }

  /** Files other than one have rows. */
  ghost predicate FilledBut(disk: Disk, name: int)
  {
    forall i | 0 <= i < |disk| :: disk[i].start != name ==> disk[i].rows != []
  }

  lemma FiledFills(disk: Disk, name: int, rows: seq<Entry>)
    requires Sorted(disk) && FilledBut(disk, name)
    ensures var r := Filed(disk, name, rows); FilledBut(r, name) && (rows != [] ==> Filled(r))
  {
    hide NamedTime;
    var r := Filed(disk, name, rows);
    FiledIsSorted(disk, name, rows);
    forall i | 0 <= i < |r| ensures r[i].start != name || rows != [] ==> r[i].rows != [] {
      var x := r[i].start;
      FileRowsAt(r, i);
      assert HasFile(r, x);
      FiledAt(disk, name, rows, x);
      if x != name {
        var k :| 0 <= k < |disk| && disk[k].start == x;
        FileRowsAt(disk, k);
      }
    }
  }

  lemma SuffixByName(disk: Disk, k: nat)
    requires ByName(disk) && Filled(disk) && k <= |disk|
    ensures ByName(disk[k..]) && Filled(disk[k..])
  {
    hide NamedTime;
    assert forall i | 0 <= i < |disk[k..]| :: disk[k..][i] == disk[k + i];
  }

  lemma KeptByName(cfg: Config, disk: Disk)
    requires ByName(disk) && Filled(disk) && disk != []
    ensures var r := KeptFiles(cfg, disk);
      ByName(r) && Filled(r) && r != [] && Covers(Starts(r), r) && forall k | 0 <= k < |r| :: Starts(r)[k] > 0
  {
    hide NamedTime, KeptFiles, TotalSize;
    var k :| 0 <= k < |disk| && KeptFiles(cfg, disk) == disk[k..];
    SuffixByName(disk, k);
    StartsCover(disk[k..]);
  }

  lemma ListedHasDisk(j: Journal)
    requires Listed(j) && j.files != []
    ensures j.disk != []
  {
    hide NamedTime;
    assert HasFile(j.disk, NamedTime(j.files[0]));
  }

  lemma KeptIsSmall(cfg: Config, disk: Disk)
    requires disk != []
    ensures var r := KeptFiles(cfg, disk); TotalSize(cfg.rowSize, r) < cfg.journalSizeLimit || |r| == 1
  {
  }

  /** Rotation lists the files it keeps, and ends within the limit or with one file. */
  lemma RotatedIsListed(cfg: Config, j: Journal)
    requires Listed(j) && j.files != [] && Filled(j.disk)
    ensures var r := Rotated(cfg, j);
      && Listed(r) && r.files != [] && Filled(r.disk) && (r.journalSize <= cfg.journalSizeLimit || |r.disk| == 1)
      && (j.journalSize > cfg.journalSizeLimit ==> r.files == Starts(r.disk))
  {
    hide NamedTime, ByName, Covers, KeptFiles, TotalSize, LastSize;
    ListedHasDisk(j);
    KeptByName(cfg, j.disk);
    KeptIsSmall(cfg, j.disk);
    if j.journalSize > cfg.journalSizeLimit {
      var kept := KeptFiles(cfg, j.disk);
      assert Rotated(cfg, j) == Rescanned(cfg, j.(disk := kept));
    }
  }

  lemma GrowsByRow(cfg: Config, j: Journal, start: int, e: Entry)
    requires Sorted(j.disk)
    ensures Written(cfg, j, start, e).journalSize == j.journalSize + cfg.rowSize(e)
  {
    hide NamedTime;
    var name := NamedTime(start);
    FiledAt(j.disk, name, [e], name);
    SizeConcat(cfg.rowSize, FileRows(j.disk, name), [e]);
    assert [e][..0] == [];
  }

  lemma WrittenIsListed(cfg: Config, j: Journal, start: int, e: Entry)
    requires Listed(j) && j.files != [] && start > 0 && e.time > 0
    requires HasFile(j.disk, NamedTime(start)) && FilledBut(j.disk, NamedTime(start))
    ensures var r := Written(cfg, j, start, e); Listed(r) && r.files == j.files && Filled(r.disk)
  {
    hide NamedTime;
    FiledByName(j.disk, start, [e]);
    FiledCovers(j.files, j.disk, start, [e]);
    FiledFills(j.disk, NamedTime(start), [e]);
  }

  lemma ReadiedIsListed(cfg: Config, j: Journal, msec: int, now: int)
    requires Listed(j) && msec > 0 && FilledBut(j.disk, NamedTime(FiledUnder(cfg, j, msec)))
    ensures var r, start := Readied(cfg, j, msec, now), FiledUnder(cfg, j, msec);
      && Listed(r) && r.files != [] && r.files[|r.files| - 1] == start > 0 && r.journalSize == j.journalSize
      && HasFile(r.disk, NamedTime(start)) && FilledBut(r.disk, NamedTime(start))
  {
    hide NamedTime;
    if NeedsFile(cfg, j) {
      BegunIsListed(j, msec);
      FiledFills(j.disk, NamedTime(msec), SnapshotRows(j.snapshot, msec));
    } else {
      assert HasFile(j.disk, NamedTime(j.files[|j.files| - 1]));
    }
  }

  /** An attempt at a positive time succeeds, whatever the names. */
  lemma AttemptSucceeds(cfg: Config, j: Journal, entry: Entry, now: int)
    requires Listed(j) && LogTime(entry, now, j.recent) > 0
    requires FilledBut(j.disk, NamedTime(FiledUnder(cfg, j, LogTime(entry, now, j.recent))))
    ensures var r := Attempted(cfg, j, entry, now);
      && r.Done? && Listed(r.after) && r.after.files != [] && Filled(r.after.disk)
      && (r.after.journalSize <= cfg.journalSizeLimit || |r.after.disk| == 1)
  {
    hide NamedTime, Listed, FilledBut, HasFile, Written, Rotated, Readied, FiledUnder, Filled;
    var msec := LogTime(entry, now, j.recent);
    var start, ready := FiledUnder(cfg, j, msec), Readied(cfg, j, msec, now);
    ReadiedIsListed(cfg, j, msec, now);
    WrittenIsListed(cfg, ready, start, entry.(time := msec));
    RotatedIsListed(cfg, Written(cfg, ready, start, entry.(time := msec)));
  }

  lemma NothingCarriedOver(time: int)
    ensures SnapshotRows(map[], time) == []
  {
  }

  lemma RefusedDisk(j: Journal, now: int)
    requires Listed(j) && j.files == []
    ensures Begun(j, now).disk == [LogFile(NamedTime(now), [])]
  {
    hide NamedTime, SnapshotRows, Covers, ByName;
    ListedIsEmpty(j);
    assert SnapshotRows(map[], now) == [] by { NothingCarriedOver(now); }
  }

  lemma EmptyFileIsRead(f: LogFile)
    requires f.rows == []
    ensures NewestShown(f) == f.start
  {
  }

  lemma RefusedFile(cfg: Config, j: Journal, now: int)
    requires Listed(j) && j.files == [] && now > 0
    ensures var c := Reexamined(cfg, Begun(j, now));
      && c.disk == [LogFile(NamedTime(now), [])] && c.files == [NamedTime(now)] && c.recent == NamedTime(now)
      && c.journalSize == 0 && Listed(c) && NamedTime(NamedTime(now)) == NamedTime(now) > 0
  {
    hide NamedTime, TotalSize, Covers, Begun, NewestShown;
    var disk := [LogFile(NamedTime(now), [])];
    NamedTimeShows(now);
    RefusedDisk(j, now);
    EmptyFileIsRead(disk[0]);
    EmptyDirectorySize(cfg, NamedTime(now));
    assert Starts(disk) == [NamedTime(now)];
    StartsCover(disk);
  }

  lemma ListedIsEmpty(j: Journal)
    requires Listed(j) && j.files == []
    ensures j.disk == []
  {
    hide NamedTime;
    assert j.disk != [] ==> Lists(j.files, j.disk[0].start);
  }

  lemma RefusedAttempt(cfg: Config, j: Journal, entry: Entry, now: int)
    requires Listed(j) && now > 0 && LogTime(entry, now, j.recent) <= 0
    ensures j.files == [] && entry.time < 0 && Attempted(cfg, j, entry, now) == Thrown(Begun(j, now))
  {
    hide NamedTime, Covers, ByName;
  }

  lemma FilledIsFilledBut(disk: Disk, name: int)
    requires Filled(disk)
    ensures FilledBut(disk, name)
  {
  }

  /** What an entry is logged from: the journal, or a journal with the empty file that a negative time left. */
  lemma CheckedIsListed(cfg: Config, j: Journal, entry: Entry, now: int)
    requires Listed(j) && Filled(j.disk) && now > 0
    ensures var c := Checked(cfg, j, entry, now);
      && Listed(c) && LogTime(entry, now, c.recent) > 0
      && FilledBut(c.disk, NamedTime(FiledUnder(cfg, c, LogTime(entry, now, c.recent))))
      && (c != j ==> j.files == [] && entry.time < 0 && c.disk == [LogFile(NamedTime(now), [])]
                     && c.files == [NamedTime(now)] && c.recent == NamedTime(now))
  {
    hide NamedTime, Attempted, Begun, Reexamined, Covers, ByName;
    if LogTime(entry, now, j.recent) > 0 {
      FilledIsFilledBut(j.disk, NamedTime(FiledUnder(cfg, j, LogTime(entry, now, j.recent))));
      AttemptSucceeds(cfg, j, entry, now);
    } else {
      RefusedAttempt(cfg, j, entry, now);
      RefusedFile(cfg, j, now);
    }
  }

  lemma {:induction false} NamedRunIsListed(cfg: Config, calls: seq<Call>)
    requires Timed(calls)
    ensures var n := NamedRun(cfg, calls); Listed(n) && Filled(n.disk) && (n.files == [] <==> calls == [])
  {
    hide NamedTime;
    if calls != [] {
      var before, last := calls[..|calls| - 1], calls[|calls| - 1];
      NamedRunIsListed(cfg, before);
      CheckedIsListed(cfg, NamedRun(cfg, before), last.entry, last.now);
      AttemptSucceeds(cfg, Checked(cfg, NamedRun(cfg, before), last.entry, last.now), last.entry, last.now);
    }
  }

  /** In every run, `append` logs every entry and leaves a size within the limit, or one file. */
  lemma EveryAppendLogs(cfg: Config, calls: seq<Call>, c: Call)
    requires Timed(calls) && c.now > 0
    ensures var r := NamedAppend(cfg, NamedRun(cfg, calls), c.entry, c.now);
      r.Done? && (r.after.journalSize <= cfg.journalSizeLimit || |r.after.disk| == 1)
  {
    hide NamedTime;
    NamedRunIsListed(cfg, calls);
    CheckedIsListed(cfg, NamedRun(cfg, calls), c.entry, c.now);
    AttemptSucceeds(cfg, Checked(cfg, NamedRun(cfg, calls), c.entry, c.now), c.entry, c.now);
  }

  lemma NamedStep(cfg: Config, calls: seq<Call>, c: Call)
    ensures NamedRun(cfg, calls + [c]) == NamedAppend(cfg, NamedRun(cfg, calls), c.entry, c.now).after
  {
    assert (calls + [c])[..|calls|] == calls;
  }

  /** An entry that is newer than all others, in a new file. */
  lemma NamedToNew(cfg: Config, n: Journal, e: Entry, now: int)
    requires NeedsFile(cfg, n) && Sorted(n.disk) && n.journalSize + cfg.rowSize(e) <= cfg.journalSizeLimit
    requires e.time > 0 && e.time >= n.recent
    ensures NamedAppend(cfg, n, e, now) == Done(Written(cfg, Begun(n, e.time), e.time, e))
  {
    hide NamedTime, Filed, FileRows, Written, SnapshotRows, KeptFiles, TotalSize, LastSize;
    FiledIsSorted(n.disk, NamedTime(e.time), SnapshotRows(n.snapshot, e.time));
    GrowsByRow(cfg, Begun(n, e.time), e.time, e);
    assert Attempted(cfg, n, e, now).Done?;
  }

  /** A file begun for an entry: the rows of its name, the snapshot, the entry. */
  lemma BegunAndWritten(cfg: Config, n: Journal, e: Entry)
    requires Sorted(n.disk)
    ensures var r, name := Written(cfg, Begun(n, e.time), e.time, e), NamedTime(e.time);
      && r.files == n.files + [e.time] && r.recent == e.time && r.snapshot == AddToSnapshot(n.snapshot, e)
      && r.journalSize == n.journalSize + cfg.rowSize(e) && Sorted(r.disk)
      && FileRows(r.disk, name) == FileRows(n.disk, name) + SnapshotRows(n.snapshot, e.time) + [e]
      && r.lastFileSize == Size(cfg.rowSize, FileRows(r.disk, name))
      && forall x | x != name :: FileRows(r.disk, x) == FileRows(n.disk, x)
  {
    hide NamedTime;
    var name, head := NamedTime(e.time), SnapshotRows(n.snapshot, e.time);
    var b := Begun(n, e.time);
    FiledIsSorted(n.disk, name, head);
    FiledIsSorted(b.disk, name, [e]);
    GrowsByRow(cfg, b, e.time, e);
    forall x ensures FileRows(Written(cfg, b, e.time, e).disk, x)
      == FileRows(n.disk, x) + (if x == name then head else []) + if x == name then [e] else []
    {
      FiledAt(n.disk, name, head, x);
      FiledAt(b.disk, name, [e], x);
    }
  }
}
