/** The row that an append leaves on disk: its time, the file it stands in, and the files that go. */
module LoggedRows {
  import opened ByteStrings
  import opened Journals
  import opened FileJournals
  import opened ShvFileJournals

  /** The time of the newest row on disk, 0 where there is none. */
  function NewestTime(disk: Disk): int { if disk == [] then 0 else NewestOf(Last(disk)) }

  /**
   The time that an entry is logged with: the clock's if it has none, its own otherwise, but never one before the
   newest row.  A negative time in an empty journal is refused at first, and then gets that of the file left behind.
   */
  ghost predicate IsLogTime(entry: Entry, now: int, newest: int, leftBehind: int, t: int)
  {
    if entry.time == 0 then if now >= newest then t == now else t == newest
    else if newest == 0 && entry.time < 0 then t == leftBehind
    else if entry.time >= newest then t == entry.time
    else t == newest
  }

  /** The directory with a row added: behind the last rows while their file has room, and else in a file of its own. */
  ghost function WithRow(cfg: Config, disk: Disk, snapshot: Snapshot, e: Entry): Disk
  {
    if disk == [] then [LogFile(e.time, [e])]
    else
      var older, f := disk[..|disk| - 1], Last(disk);
      if Size(cfg.rowSize, f.rows) <= cfg.fileSizeLimit then older + [LogFile(f.start, f.rows + [e])]
      else if f.start == e.time then older + [LogFile(f.start, f.rows + SnapshotRows(snapshot, e.time) + [e])]
      else disk + [LogFile(e.time, SnapshotRows(snapshot, e.time) + [e])]
  }

  /** No more files go, from the oldest on, than the limit asks for, and never the newest one. */
  ghost predicate IsCut(cfg: Config, disk: Disk, counted: int, k: nat)
    requires k < |disk|
  {
    if counted <= cfg.journalSizeLimit then k == 0
    else
      && (forall i | 0 <= i < k :: TotalSize(cfg.rowSize, disk[i..]) >= cfg.journalSizeLimit)
      && (TotalSize(cfg.rowSize, disk[k..]) < cfg.journalSizeLimit || k == |disk| - 1)
  }

  // ---------------------------------------------------------------- rotation

  lemma CutLater(cfg: Config, disk: Disk, k: nat)
    requires |disk| > 1 && TotalSize(cfg.rowSize, disk) >= cfg.journalSizeLimit && k < |disk| - 1
    requires IsCut(cfg, disk[1..], cfg.journalSizeLimit + 1, k)
    ensures IsCut(cfg, disk, cfg.journalSizeLimit + 1, k + 1)
  {
    forall i | 0 <= i < k + 1 ensures TotalSize(cfg.rowSize, disk[i..]) >= cfg.journalSizeLimit {
      if i > 0 {
        assert disk[1..][i - 1..] == disk[i..];
      } else {
        assert disk[0..] == disk;
      }
    }
    assert disk[1..][k..] == disk[k + 1..];
  }

  lemma {:induction false} KeptIsCut(cfg: Config, disk: Disk) returns (k: nat)
    requires disk != []
    ensures k < |disk| && KeptFiles(cfg, disk) == disk[k..] && IsCut(cfg, disk, cfg.journalSizeLimit + 1, k)
  {
    if |disk| <= 1 || TotalSize(cfg.rowSize, disk) < cfg.journalSizeLimit {
      k := 0;
      assert disk[0..] == disk;
    } else {
      var i := KeptIsCut(cfg, disk[1..]);
      CutLater(cfg, disk, i);
      assert disk[1..][i..] == disk[i + 1..];
      k := i + 1;
    }
  }

  lemma SameCut(cfg: Config, disk: Disk, a: int, b: int, k: nat)
    requires k < |disk| && a > cfg.journalSizeLimit && b > cfg.journalSizeLimit && IsCut(cfg, disk, a, k)
    ensures IsCut(cfg, disk, b, k)
  {
    hide TotalSize;
  }

  lemma NoCut(cfg: Config, disk: Disk, counted: int)
    requires disk != [] && counted <= cfg.journalSizeLimit
    ensures IsCut(cfg, disk, counted, 0)
  {
  }

  /** Rotation deletes the oldest files, and only as many as it must. */
  lemma RotationDeletesNoMore(cfg: Config, j: Journal) returns (k: nat)
    requires j.disk != []
    ensures k < |j.disk| && Rotated(cfg, j).disk == j.disk[k..] && IsCut(cfg, j.disk, j.journalSize, k)
    ensures Rotated(cfg, j).recent == j.recent && Last(Rotated(cfg, j).disk) == Last(j.disk)
  {
    hide KeptFiles, TotalSize, IsCut;
    if j.journalSize > cfg.journalSizeLimit {
      k := KeptIsCut(cfg, j.disk);
      SameCut(cfg, j.disk, cfg.journalSizeLimit + 1, j.journalSize, k);
    } else {
      k := 0;
      assert j.disk[0..] == j.disk;
      NoCut(cfg, j.disk, j.journalSize);
    }
  }

  // ---------------------------------------------------------------- one append

  lemma LoggedDisk(cfg: Config, j: Journal, history: seq<Entry>, e: Entry, now: int)
    requires Good(cfg, j, history) && e.time > 0 && j.recent <= e.time && (j.disk == [] ==> j.snapshot == map[])
    requires j.disk != [] ==> Last(j.disk).rows != []
    ensures Logged(cfg, Opened(cfg, j, e.time, now), FiledUnder(cfg, j, e.time), e).disk
         == WithRow(cfg, j.disk, j.snapshot, e)
    ensures Logged(cfg, Opened(cfg, j, e.time, now), FiledUnder(cfg, j, e.time), e).journalSize
         == j.journalSize + cfg.rowSize(e)
  {
    var head := SnapshotRows(j.snapshot, e.time);
    LastName(j.files, j.disk);
    if j.disk == [] {
      assert head == [];
      assert WithRows(j.disk, e.time, head) == [LogFile(e.time, [])];
      assert [LogFile(e.time, [])][..0] == [];
      var none: seq<Entry> := [];
      assert none + [e] == [e];
    } else if NeedsFile(cfg, j) {
      RolledDisk(j.disk, head, e);
    }
  }

  lemma RolledDisk(disk: Disk, head: seq<Entry>, e: Entry)
    requires disk != []
    ensures WithRows(WithRows(disk, e.time, head), e.time, [e])
         == if Last(disk).start == e.time then disk[..|disk| - 1] + [LogFile(e.time, Last(disk).rows + head + [e])]
            else disk + [LogFile(e.time, head + [e])]
  {
    var once := WithRows(disk, e.time, head);
    assert once[..|once| - 1] == if Last(disk).start == e.time then disk[..|disk| - 1] else disk;
  }

  /** Between appends, the time in memory is that of the newest row, and an empty directory has left nothing behind. */
  ghost predicate UpToDate(j: Journal)
  {
    && j.recent == NewestTime(j.disk)
    && (if j.disk == [] then j.journalSize == 0 && j.snapshot == map[] else Last(j.disk).rows != [])
  }

  /** The row `e` is logged for an entry, in a directory from which the `k` oldest files are deleted. */
  ghost predicate LogsRow(cfg: Config, j: Journal, entry: Entry, now: int, after: Journal, e: Entry, k: nat)
  {
    var disk := WithRow(cfg, j.disk, j.snapshot, e);
    && e == entry.(time := e.time) && IsLogTime(entry, now, NewestTime(j.disk), now, e.time)
    && k < |disk| && after.disk == disk[k..] && IsCut(cfg, disk, j.journalSize + cfg.rowSize(e), k)
  }

  ghost predicate Logs(cfg: Config, j: Journal, entry: Entry, now: int, after: Journal)
  {
    exists e, k :: LogsRow(cfg, j, entry, now, after, e, k)
  }

  lemma WithRowEnds(cfg: Config, disk: Disk, snapshot: Snapshot, e: Entry)
    ensures var r := WithRow(cfg, disk, snapshot, e);
      r != [] && Last(r).rows != [] && Last(r).rows[|Last(r).rows| - 1] == e
  {
  }

  lemma FiledRow(cfg: Config, j: Journal, logged: Journal, entry: Entry, now: int, e: Entry)
    requires e == entry.(time := e.time) && IsLogTime(entry, now, NewestTime(j.disk), now, e.time)
    requires logged.disk == WithRow(cfg, j.disk, j.snapshot, e) && logged.journalSize == j.journalSize + cfg.rowSize(e)
    requires logged.recent == e.time
    ensures Logs(cfg, j, entry, now, Rotated(cfg, logged)) && UpToDate(Rotated(cfg, logged))
  {
    hide TotalSize, IsLogTime, WithRow, IsCut, Rotated;
    WithRowEnds(cfg, j.disk, j.snapshot, e);
    var k := RotationDeletesNoMore(cfg, logged);
    assert LogsRow(cfg, j, entry, now, Rotated(cfg, logged), e, k);
  }

  lemma AcceptedRow(cfg: Config, j: Journal, history: seq<Entry>, entry: Entry, now: int)
    requires Good(cfg, j, history) && UpToDate(j) && now > 0 && LogTime(entry, now, j.recent) > 0
    ensures var r := Append(cfg, j, entry, now); r.Done? && Logs(cfg, j, entry, now, r.after) && UpToDate(r.after)
  {
    var e := entry.(time := LogTime(entry, now, j.recent));
    AppendDone(cfg, j, history, entry, now);
    LoggedDisk(cfg, j, history, e, now);
    FiledRow(cfg, j, Logged(cfg, Opened(cfg, j, e.time, now), FiledUnder(cfg, j, e.time), e), entry, now, e);
  }

  /** The row that is logged at the second attempt, behind the empty file of the first. */
  lemma RefusedRow(cfg: Config, j: Journal, history: seq<Entry>, entry: Entry, now: int)
    requires Good(cfg, j, history) && UpToDate(j) && now > 0 && j.disk == [] && entry.time < 0
    ensures var r := Append(cfg, j, entry, now); r.Done? && Logs(cfg, j, entry, now, r.after) && UpToDate(r.after)
  {
    var s, e := Settled(cfg, j, entry, now), entry.(time := now);
    SettledIsGood(cfg, j, history, entry, now);
    AppendThrown(cfg, j, history, entry, now);
    AppendDone(cfg, s, history, entry, now);
    LastName(s.files, s.disk);
    RefusedDisk(cfg, s, e, now);
    FiledRow(cfg, j, Logged(cfg, Opened(cfg, s, now, now), FiledUnder(cfg, s, now), e), entry, now, e);
  }

  lemma RefusedDisk(cfg: Config, s: Journal, e: Entry, now: int)
    requires s.disk == [LogFile(now, [])] && s.snapshot == map[] && e.time == now && FiledUnder(cfg, s, now) == now
    ensures Logged(cfg, Opened(cfg, s, now, now), now, e).disk == [LogFile(now, [e])]
  {
    var none: seq<Entry> := [];
    assert SnapshotRows(map[], now) == none && none + none == none && none + [e] == [e];
    assert Opened(cfg, s, now, now).disk == s.disk;
  }

  /** `append`: the row, its time, its place, and what is deleted. */
  lemma RowIsLogged(cfg: Config, j: Journal, history: seq<Entry>, entry: Entry, now: int)
    requires Good(cfg, j, history) && UpToDate(j) && now > 0
    ensures var r := Append(cfg, j, entry, now); r.Done? && Logs(cfg, j, entry, now, r.after) && UpToDate(r.after)
  {
    LogTimeIsPositive(cfg, j, history, entry, now);
    if LogTime(entry, now, j.recent) > 0 {
      AcceptedRow(cfg, j, history, entry, now);
    } else {
      RefusedRow(cfg, j, history, entry, now);
    }
  }

  // ---------------------------------------------------------------- whole runs

  lemma {:induction false} RunIsUpToDate(cfg: Config, calls: seq<Call>)
    requires Timed(calls)
    ensures UpToDate(Run(cfg, calls))
  {
    if calls != [] {
      var before, last := calls[..|calls| - 1], calls[|calls| - 1];
      RunIsUpToDate(cfg, before);
      RunIsGood(cfg, before);
      RowIsLogged(cfg, Run(cfg, before), History(cfg, before), last.entry, last.now);
    }
  }

  /** In every run, the next entry is logged so. */
  lemma EveryRowIsLogged(cfg: Config, calls: seq<Call>, c: Call)
    requires Timed(calls) && c.now > 0
    ensures Logs(cfg, Run(cfg, calls), c.entry, c.now, Run(cfg, calls + [c]))
  {
    assert (calls + [c])[..|calls|] == calls;
    RunIsUpToDate(cfg, calls);
    RunIsGood(cfg, calls);
    RowIsLogged(cfg, Run(cfg, calls), History(cfg, calls), c.entry, c.now);
  }
}
