/**
 The size that a journal counts against its limit.  Snapshot rows at the head of a new file are not
 counted until the directory is read again, so that rotation may start late.
 */
module JournalSizes {
  import opened ByteStrings
  import opened Journals
  import opened FileJournals
  import opened ShvFileJournals

  /** The real size is the size counted and that of some rows. */
  ghost predicate Counts(cfg: Config, j: Journal, uncounted: seq<Entry>)
  {
    TotalSize(cfg.rowSize, j.disk) == j.journalSize + Size(cfg.rowSize, uncounted)
  }

  /** The rows that a new file begins with. */
  ghost function HeadRows(cfg: Config, j: Journal, msec: int): seq<Entry>
  {
    if NeedsFile(cfg, j) then SnapshotRows(j.snapshot, msec) else []
  }

  /** Whether logging the entry makes the journal rotate, and so read its directory. */
  ghost predicate Rotates(cfg: Config, j: Journal, e: Entry) { j.journalSize + cfg.rowSize(e) > cfg.journalSizeLimit }

  /** The rows written since the directory was last read that are not counted. */
  ghost function Uncounted(cfg: Config, calls: seq<Call>): seq<Entry>
  {
    if calls == [] then []
    else
      var before, last := calls[..|calls| - 1], calls[|calls| - 1];
      var j := Run(cfg, before);
      var s, e := Settled(cfg, j, last.entry, last.now), Stored(cfg, j, last.entry, last.now);
      if Rotates(cfg, s, e) then [] else Uncounted(cfg, before) + HeadRows(cfg, s, e.time)
  }

  lemma OneRowSize(rowSize: Entry -> nat, e: Entry)
    ensures Size(rowSize, [e]) == rowSize(e)
  {
    assert [e][..0] == [];
  }

  lemma OpenedCounts(cfg: Config, j: Journal, rows: seq<Entry>, msec: int, now: int)
    requires Counts(cfg, j, rows) && msec > 0
    ensures Counts(cfg, Opened(cfg, j, msec, now), rows + HeadRows(cfg, j, msec))
    ensures Opened(cfg, j, msec, now).journalSize == j.journalSize
  {
    var head := HeadRows(cfg, j, msec);
    SizeConcat(cfg.rowSize, rows, head);
    if NeedsFile(cfg, j) {
      TotalSizeGrows(cfg.rowSize, j.disk, msec, head);
    }
  }

  lemma LoggedCounts(cfg: Config, j: Journal, rows: seq<Entry>, start: int, e: Entry)
    requires Counts(cfg, j, rows)
    ensures Counts(cfg, Logged(cfg, j, start, e), rows)
  {
    TotalSizeGrows(cfg.rowSize, j.disk, start, [e]);
    OneRowSize(cfg.rowSize, e);
  }

  lemma RotatedCounts(cfg: Config, j: Journal, rows: seq<Entry>)
    requires Counts(cfg, j, rows)
    ensures Counts(cfg, Rotated(cfg, j), if j.journalSize > cfg.journalSizeLimit then [] else rows)
  {
  }

  /** One logged entry: its own row is counted, the head of a file begun for it is not. */
  lemma AppendedCounts(cfg: Config, j: Journal, rows: seq<Entry>, entry: Entry, now: int)
    requires Counts(cfg, j, rows) && LogTime(entry, now, j.recent) > 0 && Appended(cfg, j, entry, now).Done?
    ensures var e := entry.(time := LogTime(entry, now, j.recent));
      Counts(cfg, Appended(cfg, j, entry, now).after,
             if Rotates(cfg, j, e) then [] else rows + HeadRows(cfg, j, e.time))
  {
    var msec := LogTime(entry, now, j.recent);
    var e, start := entry.(time := msec), FiledUnder(cfg, j, msec);
    var ready, more := Opened(cfg, j, msec, now), rows + HeadRows(cfg, j, msec);
    OpenedCounts(cfg, j, rows, msec, now);
    LoggedCounts(cfg, ready, more, start, e);
    RotatedCounts(cfg, Logged(cfg, ready, start, e), more);
  }

  lemma SettledCounts(cfg: Config, j: Journal, history: seq<Entry>, rows: seq<Entry>, entry: Entry, now: int)
    requires Good(cfg, j, history) && now > 0 && Counts(cfg, j, rows)
    ensures Counts(cfg, Settled(cfg, j, entry, now), rows)
  {
    SettledIsGood(cfg, j, history, entry, now);
    EmptyDirectorySize(cfg, now);
  }

  /** In every run, the real size is the size counted and that of the heads begun since the directory was read. */
  lemma {:induction false} RealSize(cfg: Config, calls: seq<Call>)
    requires Timed(calls)
    ensures var j := Run(cfg, calls);
      TotalSize(cfg.rowSize, j.disk) == j.journalSize + Size(cfg.rowSize, Uncounted(cfg, calls))
  {
    if calls != [] {
      var before, last := calls[..|calls| - 1], calls[|calls| - 1];
      var j := Run(cfg, before);
      RealSize(cfg, before);
      RunIsGood(cfg, before);
      AppendLogs(cfg, j, History(cfg, before), last.entry, last.now);
      SettledIsGood(cfg, j, History(cfg, before), last.entry, last.now);
      SettledCounts(cfg, j, History(cfg, before), Uncounted(cfg, before), last.entry, last.now);
      AppendedCounts(cfg, Settled(cfg, j, last.entry, last.now), Uncounted(cfg, before), last.entry, last.now);
    }
  }

  // ---------------------------------------------------------------- roll-overs

  /** Call `i` begins a new file while the entries appended before it leave some value. */
  ghost predicate RollsOver(cfg: Config, calls: seq<Call>, i: nat)
    requires i < |calls|
  {
    && NeedsFile(cfg, Settled(cfg, Run(cfg, calls[..i]), calls[i].entry, calls[i].now))
    && Replay(map[], History(cfg, calls[..i])) != map[]
  }

  /** Call `i` exceeds the journal's limit, as far as it is counted, so that the directory is read again. */
  ghost predicate RotatesIn(cfg: Config, calls: seq<Call>, i: nat)
    requires i < |calls|
  {
    var j := Run(cfg, calls[..i]);
    Rotates(cfg, Settled(cfg, j, calls[i].entry, calls[i].now), Stored(cfg, j, calls[i].entry, calls[i].now))
  }

  ghost predicate Unrotated(cfg: Config, calls: seq<Call>, i: nat)
  {
    forall k | i <= k < |calls| :: !RotatesIn(cfg, calls, k)
  }

  /** Since the last rotation, a value was carried over into a new file. */
  ghost predicate RolledOver(cfg: Config, calls: seq<Call>)
  {
    exists i | 0 <= i < |calls| :: RollsOver(cfg, calls, i) && Unrotated(cfg, calls, i)
  }

  lemma SameBefore(cfg: Config, before: seq<Call>, c: Call, i: nat)
    requires i < |before|
    ensures RollsOver(cfg, before + [c], i) <==> RollsOver(cfg, before, i)
    ensures RotatesIn(cfg, before + [c], i) <==> RotatesIn(cfg, before, i)
  {
    assert (before + [c])[..i] == before[..i];
  }

  lemma UnrotatedStep(cfg: Config, before: seq<Call>, c: Call, i: nat)
    requires i <= |before|
    ensures Unrotated(cfg, before + [c], i) <==>
      Unrotated(cfg, before, i) && !RotatesIn(cfg, before + [c], |before|)
  {
    forall k | i <= k < |before| ensures RotatesIn(cfg, before + [c], k) <==> RotatesIn(cfg, before, k) {
      SameBefore(cfg, before, c, k);
    }
  }

  lemma RolledOverStep(cfg: Config, before: seq<Call>, c: Call)
    ensures RolledOver(cfg, before + [c]) <==>
      !RotatesIn(cfg, before + [c], |before|)
      && (RolledOver(cfg, before) || RollsOver(cfg, before + [c], |before|))
  {
    var calls, n := before + [c], |before|;
    forall i | 0 <= i < n
      ensures RollsOver(cfg, calls, i) && Unrotated(cfg, calls, i) <==>
        RollsOver(cfg, before, i) && Unrotated(cfg, before, i) && !RotatesIn(cfg, calls, n)
    {
      SameBefore(cfg, before, c, i);
      UnrotatedStep(cfg, before, c, i);
    }
    UnrotatedStep(cfg, before, c, n);
  }

  /** A file that is begun has rows at its head exactly if the entries before it leave some value. */
  lemma HeadIsEmptyIff(cfg: Config, before: seq<Call>, c: Call)
    requires Timed(before) && c.now > 0
    ensures var s := Settled(cfg, Run(cfg, before), c.entry, c.now);
      HeadRows(cfg, s, Stored(cfg, Run(cfg, before), c.entry, c.now).time) != []
      <==> RollsOver(cfg, before + [c], |before|)
  {
    assert (before + [c])[..|before|] == before;
    RunIsGood(cfg, before);
    SettledIsGood(cfg, Run(cfg, before), History(cfg, before), c.entry, c.now);
  }

  lemma UncountedStep(cfg: Config, before: seq<Call>, c: Call)
    ensures var s := Settled(cfg, Run(cfg, before), c.entry, c.now);
      var e := Stored(cfg, Run(cfg, before), c.entry, c.now);
      Uncounted(cfg, before + [c]) == if RotatesIn(cfg, before + [c], |before|) then []
                                      else Uncounted(cfg, before) + HeadRows(cfg, s, e.time)
  {
    assert (before + [c])[..|before|] == before;
  }

  /** Rows are left uncounted exactly if a value was carried over into a new file since the last rotation. */
  lemma {:induction false} UncountedIff(cfg: Config, calls: seq<Call>)
    requires Timed(calls)
    ensures Uncounted(cfg, calls) != [] <==> RolledOver(cfg, calls)
  {
    if calls != [] {
      var before, last := calls[..|calls| - 1], calls[|calls| - 1];
      assert calls == before + [last];
      UncountedIff(cfg, before);
      UncountedStep(cfg, before, last);
      HeadIsEmptyIff(cfg, before, last);
      RolledOverStep(cfg, before, last);
    }
  }

  /** As every row takes some bytes, the size counted is the real one exactly if nothing was rolled over since. */
  lemma CountedIsRealIff(cfg: Config, calls: seq<Call>)
    requires Timed(calls) && forall e: Entry :: cfg.rowSize(e) > 0
    ensures var j := Run(cfg, calls);
      j.journalSize == TotalSize(cfg.rowSize, j.disk) <==> !RolledOver(cfg, calls)
  {
    RealSize(cfg, calls);
    UncountedIff(cfg, calls);
  }

  /**
   After every append, the journal is within its limit or one file is left, unless a value was rolled over since the
   last rotation; then it exceeds the limit by no more than the rows carried over.
   */
  lemma WithinLimit(cfg: Config, calls: seq<Call>)
    requires Timed(calls) && calls != []
    ensures var j := Run(cfg, calls);
      var size := TotalSize(cfg.rowSize, j.disk);
      && (size <= cfg.journalSizeLimit || |j.disk| == 1 || RolledOver(cfg, calls))
      && (size <= cfg.journalSizeLimit + Size(cfg.rowSize, Uncounted(cfg, calls)) || |j.disk| == 1)
  {
    var before, last := calls[..|calls| - 1], calls[|calls| - 1];
    RealSize(cfg, calls);
    UncountedIff(cfg, calls);
    RunIsGood(cfg, before);
    AppendLogs(cfg, Run(cfg, before), History(cfg, before), last.entry, last.now);
  }

  // ---------------------------------------------------------------- a journal that rotates late

  lemma FirstFile(cfg: Config, now: int)
    ensures Opened(cfg, EMPTY, 1000, now) == Journal([LogFile(1000, [])], [1000], 0, 0, 1000, map[])
  {
    assert SnapshotRows(map[], 1000) == [];
  }

  lemma FirstRow(cfg: Config, e: Entry)
    requires e.time == 1000 && e.domain == VAL_CHANGE && !e.drop && cfg.rowSize(e) == 1
    ensures Logged(cfg, Journal([LogFile(1000, [])], [1000], 0, 0, 1000, map[]), 1000, e)
         == Journal([LogFile(1000, [e])], [1000], 1, 1, 1000, map[e.path := e])
  {
    OneRowSize(cfg.rowSize, e);
    assert [] + [e] == [e];
  }

  lemma FirstEntry(cfg: Config, e: Entry)
    requires cfg.journalSizeLimit == 2 && cfg.rowSize(e) == 1
    requires e.time == 1000 && e.domain == VAL_CHANGE && !e.drop
    ensures Append(cfg, EMPTY, e, 1) == Done(Journal([LogFile(1000, [e])], [1000], 1, 1, 1000, map[e.path := e]))
  {
    FirstFile(cfg, 1);
    FirstRow(cfg, e);
    assert Appended(cfg, EMPTY, e, 1).Done?;
  }

  lemma OneKey(e: Entry, time: int)
    ensures SnapshotRows(map[e.path := e], time) == [Stamped(e, time)]
  {
    var s := map[e.path := e];
    assert LeastKey(s) == e.path;
    assert s - {e.path} == map[];
  }

  lemma SecondEntry(cfg: Config, e: Entry, f: Entry)
    requires cfg.fileSizeLimit == 0 && cfg.journalSizeLimit == 2 && (forall x: Entry :: cfg.rowSize(x) == 1)
    requires e.time == 1000 && f == e.(time := 2000) && e.domain == VAL_CHANGE && !e.drop
    ensures var j := Journal([LogFile(1000, [e])], [1000], 1, 1, 1000, map[e.path := e]);
      var r := Append(cfg, j, f, 1);
      && r.Done? && r.after.journalSize == 2
      && r.after.disk == [LogFile(1000, [e]), LogFile(2000, [Stamped(e, 2000), f])]
  {
    OneKey(e, 2000);
    assert [Stamped(e, 2000)] + [f] == [Stamped(e, 2000), f];
  }

  lemma ThreeRows(rowSize: Entry -> nat, x: LogFile, y: LogFile)
    requires (forall e: Entry :: rowSize(e) == 1) && |x.rows| == 1 && |y.rows| == 2
    ensures TotalSize(rowSize, [x, y]) == 3
  {
    var both: Disk, last: Disk := [x, y], [y];
    assert both[1..] == last && last[1..] == [];
    assert x.rows[..0] == [] && y.rows[..1][..0] == [];
    assert Size(rowSize, x.rows) == 1 && Size(rowSize, y.rows[..1]) == 1 && Size(rowSize, y.rows) == 2;
    assert TotalSize(rowSize, last) == 2;
  }

  /** Two entries, a limit of two rows: three rows in two files are counted as two, and nothing is rotated. */
  lemma RotationIsLate(e: Entry)
    requires e.time == 1000 && e.domain == VAL_CHANGE && !e.drop
    ensures var cfg := Config(0, 2, (x: Entry) => 1);
      var j := Run(cfg, [Call(e, 1), Call(e.(time := 2000), 1)]);
      && j.journalSize == 2 == cfg.journalSizeLimit && |j.disk| == 2 && TotalSize(cfg.rowSize, j.disk) == 3
  {
    hide Append;
    var cfg, f := Config(0, 2, (x: Entry) => 1), e.(time := 2000);
    FirstEntry(cfg, e);
    SecondEntry(cfg, e, f);
    RunStep(cfg, [], Call(e, 1));
    RunStep(cfg, [Call(e, 1)], Call(f, 1));
    assert [] + [Call(e, 1)] == [Call(e, 1)] && [Call(e, 1)] + [Call(f, 1)] == [Call(e, 1), Call(f, 1)];
    ThreeRows(cfg.rowSize, LogFile(1000, [e]), LogFile(2000, [Stamped(e, 2000), f]));
  }
}
