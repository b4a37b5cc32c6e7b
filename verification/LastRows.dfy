/** Queries that stop before the chosen file: "last" with an old `until`, and dates with `until` not after `since`. */
module LastRows {
  import opened ByteStrings
  import opened Journals
  import opened FileJournals
  import opened GetLogs
  import opened GetLogLoops
  import opened GetLogTheorems
  import opened FileSelection
  import opened FileChoices

  /** The query sends no log rows of its own: it asks for "last", or `until` is not after `since`. */
  predicate SendsNoLog(p: Params) { p.since.LastWord? || UntilMsec(p) <= SinceMsec(p) }

  /** The first entry at or after `until` is the one at `n`. */
  ghost predicate EndsAt(p: Params, es: seq<Entry>, n: nat)
  {
    n < |es| && es[n].time >= UntilMsec(p) && forall i | 0 <= i < n :: es[i].time < UntilMsec(p)
  }

  /** What the entry that stops the scan still does to the snapshot. */
  function Seen(p: Params, s: Snapshot, e: Entry): Snapshot
  {
    if p.since.LastWord? || e.time <= SinceMsec(p) then AddToSnapshot(s, e) else s
  }

  /** The snapshot of a source that stops at `n`. */
  function StopState(p: Params, es: seq<Entry>, n: nat): Snapshot
    requires n < |es|
  {
    Seen(p, Replay(map[], es[..n]), es[n])
  }

  lemma StopScan(p: Params, es: seq<Entry>, n: nat)
    requires SendsNoLog(p) && Unfiltered(p) && EndsAt(p, es, n)
    ensures ScanAll(p, START, es)
         == Scan(StopState(p, es, n), [], LastOr(es[..n], None), Some(es[n]), n > 0, false, true)
  {
    assert es == es[..n] + es[n..];
    ScanConcat(p, START, es[..n], es[n..]);
    QuietScan(p, START, es[..n]);
    var sc := ScanAll(p, START, es[..n]);
    ScanFirst(p, sc, es[n..]);
    LogOnlyGrows(p, Examine(p, sc, es[n]), es[n..][1..]);
  }

  // ---------------------------------------------------------------- snapshots that give the same rows

  lemma SameShown(s: Snapshot, t: Snapshot, k: Path, time: int)
    requires View(s) == View(t) && k in s && k in t
    ensures View(s - {k}) == View(t - {k}) && Stamped(s[k], time) == Stamped(t[k], time)
  {
    assert View(s)[k] == View(t)[k];
    assert View(s - {k}) == View(s) - {k} && View(t - {k}) == View(t) - {k};
  }

  lemma {:induction false} ViewRows(s: Snapshot, t: Snapshot, time: int)
    requires View(s) == View(t)
    ensures SnapshotRows(s, time) == SnapshotRows(t, time)
    decreases |s|
  {
    SameKeys(s, t);
    if s != map[] {
      var k := LeastKey(s);
      FirstRow(s, time, k);
      FirstRow(t, time, k);
      SameShown(s, t, k, time);
      ViewRows(s - {k}, t - {k}, time);
    }
  }

  /** The rows of two snapshots are the same exactly if they show the same, at the same time if they show anything. */
  lemma SameSnapshotRowsIff(s: Snapshot, a: int, t: Snapshot, b: int)
    requires WellKeyed(s) && WellKeyed(t)
    ensures SnapshotRows(s, a) == SnapshotRows(t, b) <==> View(s) == View(t) && (s == map[] || a == b)
  {
    if SnapshotRows(s, a) == SnapshotRows(t, b) {
      RowsReplayToSnapshot(map[], s, a);
      RowsReplayToSnapshot(map[], t, b);
      if s != map[] {
        assert SnapshotRows(s, a)[0].time == a;
      }
    } else if View(s) == View(t) {
      ViewRows(s, t, a);
      SameKeys(s, t);
    }
  }

  lemma {:induction false} SnapshotRowsAreChanges(s: Snapshot, time: int)
    requires WellKeyed(s)
    ensures forall i | 0 <= i < |s| :: SnapshotRows(s, time)[i].domain == VAL_CHANGE
    decreases |s|
  {
    if s != map[] {
      SnapshotRowsAreChanges(s - {LeastKey(s)}, time);
    }
  }

  /** Equal rows with equal dictionaries come from equal value changes. */
  lemma SameRowsSameEntries(p: Params, c: PathCache, es: seq<Entry>, d: PathCache, fs: seq<Entry>, rows: seq<Row>)
    requires RowsOf(p, c, es, rows) && RowsOf(p, d, fs, rows) && SentDict(p, c) == SentDict(p, d)
    requires forall i | 0 <= i < |es| :: es[i].domain == VAL_CHANGE
    requires forall i | 0 <= i < |fs| :: fs[i].domain == VAL_CHANGE
    ensures es == fs
  {
    RowsAreReadable(p, c, es, rows);
    RowsAreReadable(p, d, fs, rows);
    forall i | 0 <= i < |es| ensures es[i] == fs[i] {
      assert rows[i] == MakeRow(p, c, es[i]) == MakeRow(p, d, fs[i]);
    }
  }

  // ---------------------------------------------------------------- what is reported

  lemma HeadOnly(p: Params, sc: Scan)
    requires sc.log == []
    ensures var m := AllRows(p, sc); RowsOf(p, m.cache, Head(p, sc), m.rows) && |m.rows| == |Head(p, sc)|
  {
    assert Head(p, sc) + sc.log == Head(p, sc);
  }

  /** The result of a stopped scan without log rows. */
  lemma StoppedReport(p: Params, sc: Scan, now: int)
    requires sc.log == [] && sc.unmatched.Some?
    ensures var m, r := AllRows(p, sc), Report(p, sc, now);
      && r.rows == m.rows && r.dict == SentDict(p, m.cache) && r.limitHit == sc.limitHit
      && (m.rows == [] ==> r.until == (if p.until.Missing? then p.since else p.until))
      && (m.rows != [] && !p.since.LastWord? ==> r.until == At(sc.unmatched.value.time))
  {
    var m := AllRows(p, sc);
    RowsAreReadable(p, m.cache, Head(p, sc) + sc.log, m.rows);
    var dict := SentDict(p, m.cache);
    StoppedConclusion(p, m.rows, ExpandedTimes(dict, m.rows), dict, sc.unmatched.value.time, sc.dataBefore,
      sc.limitHit, now);
  }

  lemma StoppedConclusion(p: Params, rows: seq<Row>, times: seq<int>, dict: map<int, Path>, cut: int, before: bool,
                          limitHit: bool, now: int)
    requires |rows| == |times|
    ensures var r := Conclude(p, rows, times, dict, true, Some(cut), before, limitHit, now);
      && r.rows == rows && r.dict == dict && r.limitHit == limitHit
      && (rows == [] ==> r.until == (if p.until.Missing? then p.since else p.until))
      && (rows != [] && !p.since.LastWord? ==> r.until == At(cut))
  {
  }

  lemma SameHeadRows(p: Params, a: Scan, b: Scan)
    requires a.log == b.log == [] && Head(p, a) == Head(p, b)
    ensures AllRows(p, a) == AllRows(p, b)
  {
  }

  /** Snapshot rows of two scans are sent the same exactly if the snapshots show the same at the same time. */
  lemma SameSentIff(p: Params, a: Scan, b: Scan)
    requires SendsSnapshot(p) && a.log == b.log == [] && WellKeyed(a.snapshot) && WellKeyed(b.snapshot)
    ensures var m, n := AllRows(p, a), AllRows(p, b);
      m.rows == n.rows && SentDict(p, m.cache) == SentDict(p, n.cache) <==>
        && View(a.snapshot) == View(b.snapshot)
        && (a.snapshot == map[] || SnapshotTime(p, a.snapshot) == SnapshotTime(p, b.snapshot))
  {
    var m, n := AllRows(p, a), AllRows(p, b);
    HeadOnly(p, a);
    HeadOnly(p, b);
    SameSnapshotRowsIff(a.snapshot, SnapshotTime(p, a.snapshot), b.snapshot, SnapshotTime(p, b.snapshot));
    if m.rows == n.rows && SentDict(p, m.cache) == SentDict(p, n.cache) {
      SnapshotRowsAreChanges(a.snapshot, SnapshotTime(p, a.snapshot));
      SnapshotRowsAreChanges(b.snapshot, SnapshotTime(p, b.snapshot));
      SameRowsSameEntries(p, m.cache, Head(p, a), n.cache, Head(p, b), m.rows);
    } else if Head(p, a) == Head(p, b) {
      SameHeadRows(p, a, b);
    }
  }

  lemma StateIsWellKeyed(p: Params, es: seq<Entry>, n: nat)
    requires n < |es|
    ensures WellKeyed(StopState(p, es, n))
  {
    ReplayWellKeyed(map[], es[..n]);
  }

  // ---------------------------------------------------------------- until not after since

  /** Without a snapshot, a query whose `until` is not after `since` is answered with nothing, from any source. */
  lemma NoSnapshotNoRows(p: Params, es: seq<Entry>, now: int)
    requires !p.since.LastWord? && UntilMsec(p) <= SinceMsec(p) && !SendsSnapshot(p)
    ensures GetLog(p, es, now) == Log([], SentDict(p, map[]), if p.since.Missing? then p.until else p.since,
      if p.until.Missing? then p.since else p.until, false)
  {
    NeverLogs(p, START, es);
  }

  lemma {:induction false} NeverLogs(p: Params, sc: Scan, es: seq<Entry>)
    requires SendsNoLog(p)
    ensures ScanAll(p, sc, es).log == sc.log && ScanAll(p, sc, es).limitHit == sc.limitHit
  {
    if es != [] {
      NeverLogs(p, sc, es[..|es| - 1]);
    }
  }

  lemma StoppedSameIff(p: Params, a: Scan, b: Scan, now: int)
    requires !p.since.LastWord? && SendsSnapshot(p) && a.log == b.log == []
    requires WellKeyed(a.snapshot) && WellKeyed(b.snapshot)
    requires a.unmatched.Some? && b.unmatched.Some? && a.limitHit == b.limitHit
    ensures SameAnswer(Report(p, a, now), Report(p, b, now)) <==>
      && View(a.snapshot) == View(b.snapshot)
      && (a.snapshot == map[] || a.unmatched.value.time == b.unmatched.value.time)
  {
    SameSentIff(p, a, b);
    HeadOnly(p, a);
    HeadOnly(p, b);
    StoppedReport(p, a, now);
    StoppedReport(p, b, now);
  }

  /**
   With a snapshot, when the first row read is already at or after `until`: the answers agree exactly if that row
   alone shows what the whole journal shows at `until`, and if it shows anything, has the time of the row that stops it.
   */
  lemma StoppedAgreesIff(p: Params, es: seq<Entry>, n: nat, rows: seq<Entry>)
    requires !p.since.LastWord? && UntilMsec(p) <= SinceMsec(p) && SendsSnapshot(p) && Unfiltered(p)
    requires EndsAt(p, es, n) && rows != [] && rows[0].time >= UntilMsec(p)
    ensures var s, t := StopState(p, es, n), Seen(p, map[], rows[0]);
      Agree(p, es, rows) <==> View(s) == View(t) && (s == map[] || es[n].time == rows[0].time)
  {
    StopScan(p, es, n);
    StopScan(p, rows, 0);
    assert rows[..0] == [] && StopState(p, rows, 0) == Seen(p, map[], rows[0]);
    StateIsWellKeyed(p, es, n);
    StateIsWellKeyed(p, rows, 0);
    var same := View(StopState(p, es, n)) == View(Seen(p, map[], rows[0])) &&
                (StopState(p, es, n) == map[] || es[n].time == rows[0].time);
    forall now ensures SameAnswer(GetLog(p, es, now), GetLog(p, rows, now)) <==> same {
      StoppedSameIff(p, ScanAll(p, START, es), ScanAll(p, START, rows), now);
    }
    assert Agree(p, es, rows) ==> SameAnswer(GetLog(p, es, 0), GetLog(p, rows, 0));
  }

  // ---------------------------------------------------------------- last

  lemma QuietFirst(p: Params, past: seq<Entry>, first: seq<Entry>)
    requires Quiet(p, past) && Quiet(p, first) && first != []
    requires Replay(Replay(map[], past), first) == Replay(map[], first)
    ensures ScanAll(p, START, past + first) == ScanAll(p, START, first)
  {
    ReplayConcat(map[], past, first);
    QuietScan(p, START, past + first);
    QuietScan(p, START, first);
  }

  lemma ScansAfterFirst(p: Params, past: seq<Entry>, first: seq<Entry>, tail: seq<Entry>)
    requires Quiet(p, past) && Quiet(p, first) && first != []
    requires Replay(Replay(map[], past), first) == Replay(map[], first)
    ensures ScanAll(p, START, past + (first + tail)) == ScanAll(p, START, first + tail)
  {
    QuietFirst(p, past, first);
    RegroupRows(past, first, tail);
    ScanConcat(p, START, past + first, tail);
    ScanConcat(p, START, first, tail);
  }

  /** The newest file scans like every file if its first row is before `until`. */
  lemma NewestFileScansLast(p: Params, past: seq<Entry>, f: LogFile)
    requires p.since.LastWord? && Unfiltered(p) && f.rows != [] && f.rows[0].time < UntilMsec(p)
    requires f.start < UntilMsec(p)
    requires BeginsWith(f, View(Replay(map[], past))) && Quiet(p, past)
    ensures ScanAll(p, START, past + f.rows) == ScanAll(p, START, f.rows)
  {
    var s, tail := HeadOfFile(f, View(Replay(map[], past)));
    if s == map[] {
      NoViewNoState(Replay(map[], past));
      var first: seq<Entry> := [f.rows[0]];
      assert f.rows == first + f.rows[1..];
      ScansAfterFirst(p, past, first, f.rows[1..]);
    } else {
      HeadForgetsBase(Replay(map[], past), s, f.start);
      ScansAfterFirst(p, past, SnapshotRows(s, f.start), tail);
    }
  }

  lemma StoppedLast(p: Params, es: seq<Entry>, n: nat, rows: seq<Entry>, now: int)
    requires p.since.LastWord? && Unfiltered(p) && EndsAt(p, es, n) && rows != [] && rows[0].time >= UntilMsec(p)
    ensures var s, t := StopState(p, es, n), Seen(p, map[], rows[0]);
      GetLog(p, es, now) == GetLog(p, rows, now) <==>
        if p.withSnapshot then View(s) == View(t) && SnapshotTime(p, s) == SnapshotTime(p, t) else n == 0
  {
    StopScan(p, es, n);
    StopScan(p, rows, 0);
    var a, b := ScanAll(p, START, es), ScanAll(p, START, rows);
    assert rows[..0] == [];
    StateIsWellKeyed(p, es, n);
    StateIsWellKeyed(p, rows, 0);
    HeadOnly(p, a);
    HeadOnly(p, b);
    StoppedReport(p, a, now);
    StoppedReport(p, b, now);
    if p.withSnapshot {
      SameSentIff(p, a, b);
    }
  }
}
