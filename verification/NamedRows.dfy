/** The row that an append leaves in the directory as it is, whatever the names of its files. */
module NamedRows {
  import opened ByteStrings
  import RpcValues
  import opened Journals
  import opened FileJournals
  import opened ShvFileJournals
  import opened LoggedRows
  import opened TimeTexts
  import opened NamedJournals
  import opened FittingNames
  import opened FileLists

  /** The time of the newest row of the file begun last, 0 where there is none. */
  function NewestRowTime(n: Journal): int
  {
    if NewestRows(n) == [] then 0 else NewestRows(n)[|NewestRows(n)| - 1].time
  }

  /** The newest row of the file begun last is this entry, with a time as it should be. */
  ghost predicate EndsWithRow(entry: Entry, now: int, newest: int, after: Journal)
  {
    var rows := NewestRows(after);
    && rows != [] && rows[|rows| - 1] == entry.(time := after.recent)
    && IsLogTime(entry, now, newest, NamedTime(now), after.recent)
  }

  lemma AttemptedRow(cfg: Config, n: Journal, entry: Entry, now: int)
    requires Listed(n) && LogTime(entry, now, n.recent) > 0
    requires FilledBut(n.disk, NamedTime(FiledUnder(cfg, n, LogTime(entry, now, n.recent))))
    ensures var r := Attempted(cfg, n, entry, now);
      && r.Done? && r.after.recent == LogTime(entry, now, n.recent)
      && (n.journalSize + cfg.rowSize(entry.(time := r.after.recent)) <= cfg.journalSizeLimit ==>
            var rows := NewestRows(r.after); rows != [] && rows[|rows| - 1] == entry.(time := r.after.recent))
  {
    hide NamedTime, Rotated, FileRows, FilledBut;
    var msec := LogTime(entry, now, n.recent);
    var e, start, ready := entry.(time := msec), FiledUnder(cfg, n, msec), Readied(cfg, n, msec, now);
    AttemptSucceeds(cfg, n, entry, now);
    ReadiedIsListed(cfg, n, msec, now);
    GrowsByRow(cfg, ready, start, e);
    FiledAt(ready.disk, NamedTime(start), [e], NamedTime(start));
    RotatedMemory(cfg, Written(cfg, ready, start, e));
  }

  lemma RotatedMemory(cfg: Config, j: Journal)
    ensures Rotated(cfg, j).recent == j.recent && (j.journalSize <= cfg.journalSizeLimit ==> Rotated(cfg, j) == j)
  {
  }

  /** What an entry is logged from, and the time it gets there. */
  lemma CheckedTime(cfg: Config, n: Journal, entry: Entry, now: int)
    requires Listed(n) && Filled(n.disk) && now > 0
    ensures IsLogTime(entry, now, n.recent, NamedTime(now), LogTime(entry, now, Checked(cfg, n, entry, now).recent))
    ensures n.files != [] ==> Checked(cfg, n, entry, now) == n
    ensures Checked(cfg, n, entry, now) == n || Checked(cfg, n, entry, now).journalSize == 0
  {
    hide NamedTime, Attempted, Begun, Covers, ByName, FilledBut, Reexamined;
    CheckedIsListed(cfg, n, entry, now);
    NamedTimeShows(now);
    if LogTime(entry, now, n.recent) > 0 {
      FilledIsFilledBut(n.disk, NamedTime(FiledUnder(cfg, n, LogTime(entry, now, n.recent))));
      AttemptSucceeds(cfg, n, entry, now);
    } else {
      RefusedAttempt(cfg, n, entry, now);
      RefusedFile(cfg, n, now);
    }
  }

  /**
   In every run, whatever the names: the time in memory is that of the entry logged last, and until the directory is
   read again, the file begun last ends with its row.
   */
  lemma EveryNamedRow(cfg: Config, calls: seq<Call>, c: Call)
    requires Timed(calls) && c.now > 0
    ensures var n, r := NamedRun(cfg, calls), NamedRun(cfg, calls + [c]);
      && IsLogTime(c.entry, c.now, n.recent, NamedTime(c.now), r.recent)
      && (n.journalSize + cfg.rowSize(c.entry.(time := r.recent)) <= cfg.journalSizeLimit ==>
            EndsWithRow(c.entry, c.now, n.recent, r))
  {
    hide NamedTime, Attempted, Begun, NewestRows, Covers, ByName, FilledBut, Reexamined, IsLogTime;
    var n := NamedRun(cfg, calls);
    NamedStep(cfg, calls, c);
    NamedRunIsListed(cfg, calls);
    CheckedIsListed(cfg, n, c.entry, c.now);
    CheckedTime(cfg, n, c.entry, c.now);
    if calls == [] {
      assert n.journalSize == 0;
    }
    AttemptedRow(cfg, Checked(cfg, n, c.entry, c.now), c.entry, c.now);
  }

  /** Where names fit, the newest time is that of the newest row on disk. */
  lemma FittingRowIsLogged(cfg: Config, calls: seq<Call>, c: Call)
    requires Timed(calls) && c.now > 0 && NamesFit(cfg, calls + [c])
    ensures var n, r := NamedRun(cfg, calls), NamedRun(cfg, calls + [c]);
      EndsWithRow(c.entry, c.now, NewestRowTime(n), r)
  {
    hide NamesFit, NewestRows, NamedRun, IsLogTime, NewestRowTime;
    assert NamesFit(cfg, calls) by { FitsBefore(cfg, calls, c); }
    EveryNamedRow(cfg, calls, c);
    NewestIsRecent(cfg, calls);
    NewestIsLogged(cfg, calls, c);
  }

  lemma FitsBefore(cfg: Config, calls: seq<Call>, c: Call)
    requires NamesFit(cfg, calls + [c])
    ensures NamesFit(cfg, calls)
  {
    assert (calls + [c])[..|calls|] == calls;
  }

  lemma NewestIsRecent(cfg: Config, calls: seq<Call>)
    requires Timed(calls) && NamesFit(cfg, calls)
    ensures NewestRowTime(NamedRun(cfg, calls)) == NamedRun(cfg, calls).recent
  {
    hide NamesFit, NewestRows, NamedRun, Run, SameFiles;
    FittingRows(cfg, calls);
    RunFits(cfg, calls);
    RunIsUpToDate(cfg, calls);
    if Run(cfg, calls).disk == [] {
      assert NewestRows(NamedRun(cfg, calls)) == [] by { NoFilesNoRows(NamedRun(cfg, calls)); }
    }
  }

  lemma NoFilesNoRows(n: Journal)
    requires n.files == []
    ensures NewestRows(n) == []
  {
  }

  lemma NewestIsLogged(cfg: Config, calls: seq<Call>, c: Call)
    requires Timed(calls) && c.now > 0 && NamesFit(cfg, calls + [c])
    ensures var r := NamedRun(cfg, calls + [c]); var rows := NewestRows(r);
      rows != [] && rows[|rows| - 1] == c.entry.(time := r.recent)
  {
    hide NamesFit, NewestRows, NamedRun, Run, SameFiles, Logs;
    FittingRows(cfg, calls + [c]);
    RunFits(cfg, calls + [c]);
    RunIsUpToDate(cfg, calls + [c]);
    EveryRowIsLogged(cfg, calls, c);
    LastRowLogged(cfg, Run(cfg, calls), c.entry, c.now, Run(cfg, calls + [c]));
  }

  lemma LastRowLogged(cfg: Config, j: Journal, entry: Entry, now: int, after: Journal)
    requires Logs(cfg, j, entry, now, after) && UpToDate(after)
    ensures after.disk != [] && Last(after.disk).rows != []
    ensures Last(after.disk).rows[|Last(after.disk).rows| - 1] == entry.(time := after.recent)
  {
    hide WithRow, IsCut, IsLogTime;
    var e, k :| LogsRow(cfg, j, entry, now, after, e, k);
    WithRowEnds(cfg, j.disk, j.snapshot, e);
    assert Last(after.disk) == Last(WithRow(cfg, j.disk, j.snapshot, e));
  }

  // ---------------------------------------------------------------- a row that is deleted when it is written

  /** Every row begins a file, and two rows are too many. */
  const TINY := Config(0, 1, (x: Entry) => 1)

  /** A file begun for an entry in an empty journal, and the entry written to it. */
  lemma FirstWritten(e: Entry)
    requires e.time > 0 && e.domain == VAL_CHANGE && !e.drop
    ensures Written(TINY, Begun(EMPTY, e.time), e.time, e)
         == Journal([LogFile(NamedTime(e.time), [e])], [e.time], 1, 1, e.time, map[e.path := e])
  {
    hide NamedTime, SnapshotRows;
    var name, none: seq<Entry> := NamedTime(e.time), [];
    NothingCarriedOver(e.time);
    assert Begun(EMPTY, e.time).disk == [LogFile(name, none)];
    FiledOnce(name, e);
  }

  lemma FiledOnce(name: int, e: Entry)
    ensures Filed([LogFile(name, [])], name, [e]) == [LogFile(name, [e])]
    ensures FileRows([LogFile(name, [])], name) == [] && FileRows([LogFile(name, [e])], name) == [e]
    ensures Size(TINY.rowSize, []) == 0 && Size(TINY.rowSize, [e]) == 1
  {
    var none: seq<Entry> := [];
    assert [LogFile(name, none)][..0] == [] && none + [e] == [e] && [e][..0] == none;
  }

  lemma FirstFiled(a: int)
    requires a > 0
    ensures var n := NamedRun(TINY, [Call(ChangeAt(a), 1)]);
      n == Journal([LogFile(NamedTime(a), [ChangeAt(a)])], [a], 1, 1, a, map[[97] := ChangeAt(a)])
  {
    var none: seq<Call>, e := [], ChangeAt(a);
    assert none + [Call(e, 1)] == [Call(e, 1)];
    assert NamedRun(TINY, none) == EMPTY;
    hide NamedTime, Written, Begun, NamedRun, NamedAppend;
    NamedStep(TINY, none, Call(e, 1));
    NamedToNew(TINY, EMPTY, e, 1);
    FirstWritten(e);
  }

  lemma BehindName(a: int, b: int, e: Entry, rows: seq<Entry>, more: seq<Entry>)
    requires a < b
    ensures Filed([LogFile(b, [e])], a, rows) == [LogFile(a, rows), LogFile(b, [e])]
    ensures Filed([LogFile(a, rows), LogFile(b, [e])], a, more) == [LogFile(a, rows + more), LogFile(b, [e])]
  {
    assert [LogFile(b, [e])][..0] == [] && [LogFile(a, rows), LogFile(b, [e])][..1] == [LogFile(a, rows)];
    assert [LogFile(a, rows)][..0] == [];
  }

  lemma KeepsSecond(f: LogFile, g: LogFile)
    requires |f.rows| == 2 && |g.rows| == 1
    ensures KeptFiles(TINY, [f, g]) == [g] && TotalSize(TINY.rowSize, [g]) == 1
  {
    var both: Disk, last: Disk := [f, g], [g];
    assert both[1..] == last && last[1..] == [];
    assert Size(TINY.rowSize, g.rows) == 1 by { assert g.rows[..0] == []; }
    assert TotalSize(TINY.rowSize, last) == 1;
    assert TotalSize(TINY.rowSize, both) >= 1;
    assert KeptFiles(TINY, last) == last;
  }

  /** The second row, in a file that comes to stand before the first. */
  lemma SecondWritten(a: int, b: int, n: Journal)
    requires 0 < a < b && NamedTime(b) < NamedTime(a)
    requires n == Journal([LogFile(NamedTime(a), [ChangeAt(a)])], [a], 1, 1, a, map[[97] := ChangeAt(a)])
    ensures var w := Written(TINY, Begun(n, b), b, ChangeAt(b));
      && |w.disk| == 2 && |w.disk[0].rows| == 2 && w.disk[1] == LogFile(NamedTime(a), [ChangeAt(a)])
      && w.journalSize == 2 && w.snapshot == map[[97] := ChangeAt(b)] && w.files == [a, b]
  {
    hide NamedTime, SnapshotRows, FileRows, Filed;
    var head := SnapshotRows(n.snapshot, b);
    BehindName(NamedTime(b), NamedTime(a), ChangeAt(a), head, [ChangeAt(b)]);
    BehindSize(n, ChangeAt(b), head);
  }

  /** A file whose name is before that of its predecessor goes first in a rotation, with the row just written. */
  lemma WrittenRowIsDeleted(a: int, b: int)
    requires 0 < a < b && NamedTime(b) < NamedTime(a)
    ensures var n := NamedRun(TINY, [Call(ChangeAt(a), 1), Call(ChangeAt(b), 1)]);
      n.disk == [LogFile(NamedTime(a), [ChangeAt(a)])] && n.snapshot == map[[97] := ChangeAt(b)]
  {
    hide NamedTime, KeptFiles, TotalSize, Written, Begun, NamedRun, NamedAppend, Rotated;
    var first, e := [Call(ChangeAt(a), 1)], ChangeAt(b);
    var n := NamedRun(TINY, first);
    assert first + [Call(e, 1)] == [Call(ChangeAt(a), 1), Call(e, 1)];
    FirstFiled(a);
    NamedStep(TINY, first, Call(e, 1));
    SecondWritten(a, b, n);
    var w := Written(TINY, Begun(n, b), b, e);
    AppendsToNew(TINY, n, e, 1);
    RotatesAway(w);
  }

  /** An entry in a new file, whether the journal rotates then or not. */
  lemma AppendsToNew(cfg: Config, n: Journal, e: Entry, now: int)
    requires NeedsFile(cfg, n) && e.time > 0 && e.time >= n.recent
    ensures NamedAppend(cfg, n, e, now) == Done(Rotated(cfg, Written(cfg, Begun(n, e.time), e.time, e)))
  {
    hide NamedTime, Filed, Written, Rotated, SnapshotRows;
    assert Attempted(cfg, n, e, now) == Done(Rotated(cfg, Written(cfg, Begun(n, e.time), e.time, e)));
  }

  lemma RotatesAway(w: Journal)
    requires |w.disk| == 2 && |w.disk[0].rows| == 2 && |w.disk[1].rows| == 1 && w.journalSize == 2
    ensures Rotated(TINY, w).disk == [w.disk[1]] && Rotated(TINY, w).snapshot == w.snapshot
  {
    hide KeptFiles, TotalSize;
    assert w.disk == [w.disk[0], w.disk[1]];
    KeepsSecond(w.disk[0], w.disk[1]);
  }

  lemma BehindSize(n: Journal, e: Entry, head: seq<Entry>)
    requires Sorted(n.disk) && head == SnapshotRows(n.snapshot, e.time)
    ensures Written(TINY, Begun(n, e.time), e.time, e).journalSize == n.journalSize + 1
  {
    hide NamedTime;
    FiledIsSorted(n.disk, NamedTime(e.time), head);
    GrowsByRow(TINY, Begun(n, e.time), e.time, e);
  }

  /** On the first day of 1970 this takes fifty milliseconds. */
  lemma NamesGoBack(a: int, b: int)
    requires 0 < a < b < a + 90 < 86400000 && a % 1000 < 10 <= b % 1000
    ensures NamedTime(b) < NamedTime(a)
  {
    ShownIn1970(a);
    ShownIn1970(b);
  }
}
