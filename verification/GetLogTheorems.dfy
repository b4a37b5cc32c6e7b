/** What a query promises: which rows it returns, what they replay to, and what its header may claim. */
module GetLogTheorems {
  import opened ByteStrings
  import opened Journals
  import opened GetLogs
  import opened GetLogLoops

  /** The matching entries with `lo <= time < hi`. */
  function Between(p: Params, es: seq<Entry>, lo: int, hi: int): seq<Entry>
  {
    if es == [] then []
    else
      var e := es[|es| - 1];
      Between(p, es[..|es| - 1], lo, hi) + (if p.matches(e) && lo <= e.time < hi then [e] else [])
  }

  /** The matching entries with `time < hi`. */
  function Below(p: Params, es: seq<Entry>, hi: int): seq<Entry>
  {
    if es == [] then []
    else
      var e := es[|es| - 1];
      Below(p, es[..|es| - 1], hi) + (if p.matches(e) && e.time < hi then [e] else [])
  }

  /** The state at `since`. */
  function PastState(p: Params, es: seq<Entry>): Snapshot { Replay(map[], Below(p, es, SinceMsec(p) + 1)) }

  /** Queries for a period: from `since`, or from the beginning where it is no date, to a later `until`. */
  predicate Windowed(p: Params) { !p.since.LastWord? && SinceMsec(p) < UntilMsec(p) }

  lemma {:induction false} SameBetween(p: Params, es: seq<Entry>, lo: int, h: int, k: int)
    requires forall i | 0 <= i < |es| :: p.matches(es[i]) ==> (es[i].time < h <==> es[i].time < k)
    ensures Between(p, es, lo, h) == Between(p, es, lo, k)
  {
    if es != [] {
      SameBetween(p, es[..|es| - 1], lo, h, k);
    }
  }

  lemma BetweenOne(p: Params, es: seq<Entry>, e: Entry, lo: int, hi: int)
    ensures Between(p, es + [e], lo, hi)
         == (if p.matches(e) && lo <= e.time < hi then Between(p, es, lo, hi) + [e] else Between(p, es, lo, hi))
  {
  }

  lemma BelowOne(p: Params, es: seq<Entry>, e: Entry, hi: int)
    ensures Below(p, es + [e], hi) == (if p.matches(e) && e.time < hi then Below(p, es, hi) + [e] else Below(p, es, hi))
  {
  }

  // ---------------------------------------------------------------- the scan

  /** All matching entries are older than `time`. */
  ghost predicate MatchesBefore(p: Params, es: seq<Entry>, time: int)
  {
    forall i | 0 <= i < |es| :: p.matches(es[i]) ==> es[i].time < time
  }

  /** The scan after `es` when it has not stopped. */
  ghost predicate Scanning(p: Params, es: seq<Entry>, sc: Scan)
  {
    && !sc.done && sc.unmatched.None?
    && MatchesBefore(p, es, UntilMsec(p))
    && sc.log == Between(p, es, SinceMsec(p) + 1, UntilMsec(p))
    && (sc.last.Some? ==> MatchesBefore(p, es, sc.last.value.time + 1))
    && (sc.last.Some? ==> p.matches(sc.last.value) && sc.last.value in es)
    && (sc.last.None? ==> forall i | 0 <= i < |es| :: !p.matches(es[i]))
  }

  /** The scan after it stopped at the entry `unmatched`. */
  ghost predicate Stopped(p: Params, es: seq<Entry>, sc: Scan)
  {
    && sc.done && sc.unmatched.Some? && es != []
    && var x := sc.unmatched.value;
       && p.matches(x) && x in es && SinceMsec(p) < x.time <= es[|es| - 1].time
       && sc.log == Between(p, es, SinceMsec(p) + 1, x.time)
  }

  ghost predicate Scanned(p: Params, es: seq<Entry>, sc: Scan)
  {
    && sc.snapshot == PastState(p, es)
    && (if sc.done then Stopped(p, es, sc) else Scanning(p, es, sc))
  }

  lemma StoppedStays(p: Params, es: seq<Entry>, sc: Scan, e: Entry)
    requires Stopped(p, es, sc) && Ordered(es + [e])
    ensures Stopped(p, es + [e], sc) && PastState(p, es + [e]) == PastState(p, es)
  {
    LastIsNewest(es, e);
    BetweenOne(p, es, e, SinceMsec(p) + 1, sc.unmatched.value.time);
    SnapshotGrows(p, es, e);
  }

  /** An entry that stops the scan: no matching entry before it is as new as it. */
  lemma StopsAt(p: Params, es: seq<Entry>, sc: Scan, e: Entry, hit: bool)
    requires Windowed(p) && Scanned(p, es, sc) && !sc.done && Ordered(es + [e])
    requires p.matches(e) && SinceMsec(p) < e.time
    requires e.time >= UntilMsec(p) || (e.time < UntilMsec(p) && sc.last.Some? && e.time != sc.last.value.time)
    ensures Scanned(p, es + [e], sc.(unmatched := Some(e), done := true, limitHit := hit))
  {
    hide Between, Below, Replay;
    BetweenOne(p, es, e, SinceMsec(p) + 1, e.time);
    SnapshotGrows(p, es, e);
    NoneAsNew(p, es, sc, e);
    SameBetween(p, es, SinceMsec(p) + 1, UntilMsec(p), e.time);
    assert (es + [e])[|es + [e]| - 1] == e;
  }

  lemma NoneAsNew(p: Params, es: seq<Entry>, sc: Scan, e: Entry)
    requires Scanning(p, es, sc) && Ordered(es + [e])
    requires e.time >= UntilMsec(p) || (e.time < UntilMsec(p) && sc.last.Some? && e.time != sc.last.value.time)
    ensures forall i | 0 <= i < |es| && p.matches(es[i]) :: es[i].time < e.time
  {
    hide Between;
    LastIsNewest(es, e);
  }

  lemma LastIsNewest(es: seq<Entry>, e: Entry)
    requires Ordered(es + [e])
    ensures forall i | 0 <= i < |es| :: es[i].time <= e.time
  {
    forall i | 0 <= i < |es| ensures es[i].time <= e.time {
      assert (es + [e])[i] == es[i] && (es + [e])[|es|] == e;
    }
  }

  lemma MatchesBeforeOne(p: Params, es: seq<Entry>, e: Entry, time: int)
    requires MatchesBefore(p, es, time) && (p.matches(e) ==> e.time < time)
    ensures MatchesBefore(p, es + [e], time)
  {
  }

  lemma NewestMatches(p: Params, es: seq<Entry>, e: Entry)
    requires Ordered(es + [e])
    ensures MatchesBefore(p, es + [e], e.time + 1) && e in es + [e]
  {
    LastIsNewest(es, e);
    assert (es + [e])[|es|] == e;
  }

  lemma SkipsEntry(p: Params, es: seq<Entry>, sc: Scan, e: Entry)
    requires Scanned(p, es, sc) && !sc.done && !p.matches(e)
    ensures Scanned(p, es + [e], sc)
  {
    BetweenOne(p, es, e, SinceMsec(p) + 1, UntilMsec(p));
    SnapshotGrows(p, es, e);
    MatchesBeforeOne(p, es, e, UntilMsec(p));
    if sc.last.Some? {
      MatchesBeforeOne(p, es, e, sc.last.value.time + 1);
    }
  }

  lemma SnapshotGrows(p: Params, es: seq<Entry>, e: Entry)
    ensures PastState(p, es + [e])
         == if p.matches(e) && e.time <= SinceMsec(p) then AddToSnapshot(PastState(p, es), e) else PastState(p, es)
  {
    var past := Below(p, es, SinceMsec(p) + 1);
    BelowOne(p, es, e, SinceMsec(p) + 1);
    if p.matches(e) && e.time <= SinceMsec(p) {
      ReplayOne(map[], past, e);
    }
  }

  /** An entry that is taken over and is not in the window, or the next of the window. */
  lemma TakesEntry(p: Params, es: seq<Entry>, sc: Scan, e: Entry, n: Scan)
    requires Scanning(p, es, sc) && Ordered(es + [e]) && p.matches(e) && e.time < UntilMsec(p)
    requires !n.done && n.unmatched.None? && n.last == Some(e)
    requires n.log == if SinceMsec(p) < e.time then sc.log + [e] else sc.log
    ensures Scanning(p, es + [e], n)
  {
    BetweenOne(p, es, e, SinceMsec(p) + 1, UntilMsec(p));
    MatchesBeforeOne(p, es, e, UntilMsec(p));
    NewestMatches(p, es, e);
  }

  lemma AddsToSnapshot(p: Params, es: seq<Entry>, sc: Scan, e: Entry)
    requires Windowed(p) && Scanned(p, es, sc) && !sc.done && Ordered(es + [e])
    requires p.matches(e) && e.time <= SinceMsec(p)
    ensures Scanned(p, es + [e], sc.(snapshot := AddToSnapshot(sc.snapshot, e), last := Some(e), dataBefore := true))
  {
    var n := sc.(snapshot := AddToSnapshot(sc.snapshot, e), last := Some(e), dataBefore := true);
    TakesEntry(p, es, sc, e, n);
    SnapshotGrows(p, es, e);
  }

  lemma AddsToLog(p: Params, es: seq<Entry>, sc: Scan, e: Entry, hit: bool)
    requires Scanned(p, es, sc) && !sc.done && Ordered(es + [e])
    requires p.matches(e) && SinceMsec(p) < e.time < UntilMsec(p)
    ensures Scanned(p, es + [e], sc.(log := sc.log + [e], last := Some(e), limitHit := hit))
  {
    TakesEntry(p, es, sc, e, sc.(log := sc.log + [e], last := Some(e), limitHit := hit));
    SnapshotGrows(p, es, e);
  }

  /** What one entry does to a dated scan. */
  lemma ExamineCases(p: Params, sc: Scan, e: Entry)
    requires Windowed(p) && !sc.done
    ensures var n := Examine(p, sc, e);
      if !p.matches(e) then n == sc
      else if e.time <= SinceMsec(p) then
        n == sc.(snapshot := AddToSnapshot(sc.snapshot, e), last := Some(e), dataBefore := true)
      else if n.done then
        && (e.time >= UntilMsec(p) || (sc.last.Some? && e.time != sc.last.value.time))
        && n == sc.(unmatched := Some(e), done := true, limitHit := n.limitHit)
      else e.time < UntilMsec(p) && n == sc.(log := sc.log + [e], last := Some(e), limitHit := n.limitHit)
  {
  }

  lemma ExamineIsRight(p: Params, es: seq<Entry>, sc: Scan, e: Entry)
    requires Windowed(p) && Scanned(p, es, sc) && !sc.done && Ordered(es + [e])
    ensures Scanned(p, es + [e], Examine(p, sc, e))
  {
    var n := Examine(p, sc, e);
    ExamineCases(p, sc, e);
    if !p.matches(e) {
      SkipsEntry(p, es, sc, e);
    } else if e.time <= SinceMsec(p) {
      AddsToSnapshot(p, es, sc, e);
    } else if n.done {
      StopsAt(p, es, sc, e, n.limitHit);
    } else {
      AddsToLog(p, es, sc, e, n.limitHit);
    }
  }

  lemma {:induction false} ScanIsRight(p: Params, es: seq<Entry>)
    requires Windowed(p) && Ordered(es)
    ensures Scanned(p, es, ScanAll(p, START, es))
  {
    if es != [] {
      var older, e := es[..|es| - 1], es[|es| - 1];
      ScanIsRight(p, older);
      assert es == older + [e];
      var sc := ScanAll(p, START, older);
      if sc.done {
        StoppedStays(p, older, sc, e);
      } else {
        ExamineIsRight(p, older, sc, e);
      }
    }
  }

  /** As many entries as the caller's own limit allows are all taken, however low the limit in the header. */
  lemma {:induction false} OwnLimitCounts(p: Params, es: seq<Entry>)
    requires !p.since.LastWord? && |es| <= p.limit
    requires forall i | 0 <= i < |es| :: p.matches(es[i]) && SinceMsec(p) < es[i].time < UntilMsec(p)
    ensures var sc := ScanAll(p, START, es); sc.log == es && sc.snapshot == map[] && !sc.limitHit && !sc.done
  {
    if es != [] {
      OwnLimitCounts(p, es[..|es| - 1]);
    }
  }

  // ---------------------------------------------------------------- rows read back

  /** The time that the row of an entry is read with. */
  function ReadTime(e: Entry): int { AsRead(e).time }

  /** A row, expanded with the dictionary of its result, is this entry as it can be read. */
  ghost predicate Reads(dict: map<int, Path>, row: Row, e: Entry)
  {
    (row.path.Indexed? ==> row.path.index in dict) && Expand(dict, row) == AsRead(e)
  }

  /** The rows of a result, expanded with its own dictionary, are exactly these entries as they can be read. */
  ghost predicate Delivers(r: Log, es: seq<Entry>)
  {
    |r.rows| == |es| && forall i | 0 <= i < |es| :: Reads(r.dict, r.rows[i], es[i])
  }

  lemma RowExpands(p: Params, cache: PathCache, es: seq<Entry>, rows: seq<Row>, i: nat)
    requires RowsOf(p, cache, es, rows) && i < |es|
    ensures Reads(SentDict(p, cache), rows[i], es[i])
  {
  }

  lemma {:induction false} ReplayedFrom(es: seq<Entry>, k: Path)
    requires k in Replay(map[], es)
    ensures Replay(map[], es)[k] in es
    decreases |es|
  {
    if es != [] {
      var older, e := es[..|es| - 1], es[|es| - 1];
      assert es == older + [e];
      ReplayOne(map[], older, e);
      if k in Replay(map[], older) {
        ReplayedFrom(older, k);
      }
    }
  }

  lemma {:induction false} SelectedFrom(p: Params, es: seq<Entry>, lo: int, hi: int)
    ensures forall e | e in Between(p, es, lo, hi) :: e in es && p.matches(e) && lo <= e.time < hi
    ensures forall e | e in Below(p, es, hi) :: e in es && p.matches(e) && e.time < hi
  {
    if es != [] {
      SelectedFrom(p, es[..|es| - 1], lo, hi);
    }
  }

  /** The snapshot rows of a query. */
  ghost function SnapshotHead(p: Params, es: seq<Entry>): seq<Entry>
  {
    if SendsSnapshot(p) then SnapshotRows(PastState(p, es), SinceMsec(p)) else []
  }

  // ---------------------------------------------------------------- the last timestamp

  /** What is left of the entries to be sent when the newest timestamp may have to be taken back. */
  function Kept(sent: seq<Entry>, last: int, recent: bool): seq<Entry> { if recent then DropRead(sent, last) else sent }

  /** Rows that read as the entries to be sent, with their times. */
  ghost predicate Prepared(dict: map<int, Path>, sent: seq<Entry>, rows: seq<Row>, times: seq<int>)
  {
    && |rows| == |sent| == |times|
    && (forall i | 0 <= i < |sent| :: Reads(dict, rows[i], sent[i]))
    && (forall i | 0 <= i < |sent| :: times[i] == ReadTime(sent[i]))
  }

  /** The entries whose rows are read with another time. */
  function DropRead(es: seq<Entry>, time: int): seq<Entry>
  {
    if es == [] then []
    else
      var e := es[|es| - 1];
      var older := DropRead(es[..|es| - 1], time);
      if ReadTime(e) == time then older else older + [e]
  }

  function DropTime(es: seq<Entry>, time: int): seq<Entry>
  {
    if es == [] then []
    else
      var e := es[|es| - 1];
      var older := DropTime(es[..|es| - 1], time);
      if e.time == time then older else older + [e]
  }

  lemma PreparedPrefix(dict: map<int, Path>, es: seq<Entry>, rows: seq<Row>, times: seq<int>, n: nat)
    requires Prepared(dict, es, rows, times) && n <= |es|
    ensures Prepared(dict, es[..n], rows[..n], times[..n])
  {
  }

  lemma {:induction false} DroppedRows(dict: map<int, Path>, es: seq<Entry>, rows: seq<Row>, times: seq<int>, time: int)
    requires Prepared(dict, es, rows, times)
    ensures var kept := WithoutTime(rows, times, time);
      |kept| == |DropRead(es, time)| && forall i | 0 <= i < |kept| :: Reads(dict, kept[i], DropRead(es, time)[i])
  {
    if es != [] {
      var n := |es| - 1;
      PreparedPrefix(dict, es, rows, times, n);
      DroppedRows(dict, es[..n], rows[..n], times[..n], time);
      assert Reads(dict, rows[n], es[n]) && times[n] == ReadTime(es[n]);
    }
  }

  /** Rows are read with the time of their entries, as far as this time is concerned. */
  ghost predicate TimeIsRead(es: seq<Entry>, time: int)
  {
    forall i | 0 <= i < |es| :: ReadTime(es[i]) == time <==> es[i].time == time
  }

  lemma {:induction false} DropReadIsDrop(es: seq<Entry>, time: int)
    requires TimeIsRead(es, time)
    ensures DropRead(es, time) == DropTime(es, time)
  {
    if es != [] {
      DropReadIsDrop(es[..|es| - 1], time);
    }
  }

  lemma {:induction false} DropNothing(es: seq<Entry>, time: int)
    requires forall i | 0 <= i < |es| :: es[i].time != time
    ensures DropTime(es, time) == es
  {
    if es != [] {
      DropNothing(es[..|es| - 1], time);
    }
  }

  lemma {:induction false} DropConcat(es: seq<Entry>, fs: seq<Entry>, time: int)
    ensures DropTime(es + fs, time) == DropTime(es, time) + DropTime(fs, time)
    decreases |fs|
  {
    if fs == [] {
      assert es + fs == es;
    } else {
      DropConcat(es, fs[..|fs| - 1], time);
      assert (es + fs)[..|es + fs| - 1] == es + fs[..|fs| - 1];
    }
  }

  lemma DropOne(es: seq<Entry>, e: Entry, time: int)
    ensures DropTime(es + [e], time) == DropTime(es, time) + if e.time == time then [] else [e]
  {
  }

  /** Without its newest timestamp, the window ends there. */
  lemma {:induction false} DropLastTime(p: Params, es: seq<Entry>, lo: int, hi: int, time: int)
    requires forall e | e in Between(p, es, lo, hi) :: e.time <= time
    requires time < hi
    ensures DropTime(Between(p, es, lo, hi), time) == Between(p, es, lo, time)
  {
    if es != [] {
      var older, e := es[..|es| - 1], es[|es| - 1];
      assert es == older + [e];
      BetweenOne(p, older, e, lo, hi);
      BetweenOne(p, older, e, lo, time);
      DropLastTime(p, older, lo, hi, time);
      if p.matches(e) && lo <= e.time < hi {
        assert e in Between(p, es, lo, hi);
        DropOne(Between(p, older, lo, hi), e, time);
      }
    }
  }

  // ---------------------------------------------------------------- the answer

  /** The time to fall back to when there is nothing to send. */
  function Fallback(p: Params): Moment { if p.until.Missing? then p.since else p.until }

  ghost predicate Answers(p: Params, es: seq<Entry>, r: Log, hi: int)
  {
    Delivers(r, SnapshotHead(p, es) + Between(p, es, SinceMsec(p) + 1, hi))
  }

  lemma TimesAreRight(p: Params, cache: PathCache, sent: seq<Entry>, rows: seq<Row>)
    requires RowsOf(p, cache, sent, rows)
    ensures forall i | 0 <= i < |rows| :: rows[i].path.Indexed? ==> rows[i].path.index in SentDict(p, cache)
    ensures Prepared(SentDict(p, cache), sent, rows, ExpandedTimes(SentDict(p, cache), rows))
  {
    RowsAreReadable(p, cache, sent, rows);
    forall i | 0 <= i < |sent| ensures Reads(SentDict(p, cache), rows[i], sent[i]) {
      RowExpands(p, cache, sent, rows, i);
    }
  }

  lemma ConcludeKeeps(p: Params, rows: seq<Row>, times: seq<int>, dict: map<int, Path>,
                      logIsEmpty: bool, dataBefore: bool, limitHit: bool, now: int)
    requires |rows| == |times| && rows != [] && !p.since.LastWord?
    ensures var r := Conclude(p, rows, times, dict, logIsEmpty, None, dataBefore, limitHit, now);
      var last := times[|rows| - 1];
      && r.dict == dict
      && r.rows == (if !logIsEmpty && TooRecent(last, now) then WithoutTime(rows, times, last) else rows)
      && r.until == if r.rows != [] then At(last) else Fallback(p)
  {
  }

  /** The source ran out: the newest timestamp is taken back when it is too recent. */
  lemma ConcludeRanOut(dict: map<int, Path>, sent: seq<Entry>, rows: seq<Row>, times: seq<int>, last: int,
    recent: bool, r: Log)
    requires Prepared(dict, sent, rows, times) && r.dict == dict
    requires r.rows == if recent then WithoutTime(rows, times, last) else rows
    ensures Delivers(r, Kept(sent, last, recent))
  {
    DroppedRows(dict, sent, rows, times, last);
  }

  lemma HeadIsSnapshot(p: Params, es: seq<Entry>)
    requires Windowed(p) && Ordered(es)
    ensures Head(p, ScanAll(p, START, es)) == SnapshotHead(p, es)
  {
    ScanIsRight(p, es);
  }

  function CutTime(sc: Scan): Option<int> { if sc.unmatched.Some? then Some(sc.unmatched.value.time) else None }

  ghost predicate MadeFrom(p: Params, es: seq<Entry>, sc: Scan, now: int, r: Log, dict: map<int, Path>,
    rows: seq<Row>, times: seq<int>)
  {
    && Prepared(dict, SnapshotHead(p, es) + sc.log, rows, times)
    && r == Conclude(p, rows, times, dict, sc.log == [], CutTime(sc), sc.dataBefore, sc.limitHit, now)
  }

  /** A result that is concluded from the snapshot rows and log rows of a scan. */
  ghost predicate Concluded(p: Params, es: seq<Entry>, sc: Scan, now: int, r: Log)
  {
    exists dict, rows, times :: MadeFrom(p, es, sc, now, r, dict, rows, times)
  }

  lemma ScanPrepared(p: Params, sc: Scan, m: Made)
    requires m == AllRows(p, sc)
    ensures forall i | 0 <= i < |m.rows| :: m.rows[i].path.Indexed? ==> m.rows[i].path.index in SentDict(p, m.cache)
    ensures Prepared(SentDict(p, m.cache), Head(p, sc) + sc.log, m.rows, ExpandedTimes(SentDict(p, m.cache), m.rows))
  {
    TimesAreRight(p, m.cache, Head(p, sc) + sc.log, m.rows);
  }

  lemma GetLogConcludes(p: Params, es: seq<Entry>, now: int)
    requires Windowed(p) && Ordered(es)
    ensures Concluded(p, es, ScanAll(p, START, es), now, GetLog(p, es, now))
  {
    HeadIsSnapshot(p, es);
    ReportConcludes(p, es, ScanAll(p, START, es), now);
  }

  lemma ReportConcludes(p: Params, es: seq<Entry>, sc: Scan, now: int)
    requires Head(p, sc) == SnapshotHead(p, es)
    ensures Concluded(p, es, sc, now, Report(p, sc, now))
  {
    var m := AllRows(p, sc);
    ScanPrepared(p, sc, m);
    assert MadeFrom(p, es, sc, now, Report(p, sc, now), SentDict(p, m.cache), m.rows,
      ExpandedTimes(SentDict(p, m.cache), m.rows));
  }

  /** Stopped by `until` or by the limit: all of the window before the entry that was left out. */
  lemma AnswerStopped(p: Params, es: seq<Entry>, sc: Scan, now: int, r: Log)
    requires !p.since.LastWord? && Stopped(p, es, sc) && Concluded(p, es, sc, now, r)
    ensures var cut := sc.unmatched.value.time;
      Answers(p, es, r, cut) && r.until == if r.rows != [] then At(cut) else Fallback(p)
  {
  }

  lemma RanOutNothing(p: Params, es: seq<Entry>, sc: Scan, now: int, r: Log)
    requires !p.since.LastWord? && sc.unmatched.None? && Concluded(p, es, sc, now, r) && SnapshotHead(p, es) == []
    requires sc.log == []
    ensures r.rows == [] && r.until == Fallback(p)
  {
  }

  lemma KeepsFrom(p: Params, sent: seq<Entry>, sc: Scan, last: int, now: int, r: Log, dict: map<int, Path>,
                  rows: seq<Row>, times: seq<int>)
    requires !p.since.LastWord? && sent != [] && ReadTime(sent[|sent| - 1]) == last && Prepared(dict, sent, rows, times)
    requires r == Conclude(p, rows, times, dict, sc.log == [], None, sc.dataBefore, sc.limitHit, now)
    ensures Delivers(r, Kept(sent, last, sc.log != [] && TooRecent(last, now)))
    ensures r.until == if r.rows != [] then At(last) else Fallback(p)
  {
    assert times[|rows| - 1] == last;
    ConcludeKeeps(p, rows, times, dict, sc.log == [], sc.dataBefore, sc.limitHit, now);
    ConcludeRanOut(dict, sent, rows, times, last, sc.log != [] && TooRecent(last, now), r);
  }

  lemma RanOutKeeps(p: Params, es: seq<Entry>, sc: Scan, last: int, now: int, r: Log)
    requires !p.since.LastWord? && sc.unmatched.None? && Concluded(p, es, sc, now, r)
    requires var sent := SnapshotHead(p, es) + sc.log; sent != [] && ReadTime(sent[|sent| - 1]) == last
    ensures Delivers(r, Kept(SnapshotHead(p, es) + sc.log, last, sc.log != [] && TooRecent(last, now)))
    ensures r.until == if r.rows != [] then At(last) else Fallback(p)
  {
    var dict, rows, times :| MadeFrom(p, es, sc, now, r, dict, rows, times);
    KeepsFrom(p, SnapshotHead(p, es) + sc.log, sc, last, now, r, dict, rows, times);
  }

  lemma HeadTimes(p: Params, es: seq<Entry>)
    ensures forall i | 0 <= i < |SnapshotHead(p, es)| :: SnapshotHead(p, es)[i].time == SinceMsec(p)
  {
  }

  lemma {:induction false} WindowIsOrdered(p: Params, es: seq<Entry>, lo: int, hi: int)
    requires Ordered(es)
    ensures Ordered(Between(p, es, lo, hi))
  {
    if es != [] {
      WindowIsOrdered(p, es[..|es| - 1], lo, hi);
      SelectedFrom(p, es[..|es| - 1], lo, hi);
    }
  }

  lemma WindowEnd(p: Params, es: seq<Entry>, lo: int, hi: int)
    requires Ordered(es) && Between(p, es, lo, hi) != []
    ensures var log := Between(p, es, lo, hi); var last := log[|log| - 1].time;
      lo <= last < hi && (forall e | e in log :: e.time <= last) && Between(p, es, lo, last + 1) == log
  {
    var log := Between(p, es, lo, hi);
    var last := log[|log| - 1].time;
    SelectedFrom(p, es, lo, hi);
    assert log[|log| - 1] in log;
    WindowIsOrdered(p, es, lo, hi);
    WindowUpTo(p, es, lo, hi, last + 1);
  }

  /** Taking back the newest timestamp leaves the snapshot alone and shortens the window to before it. */
  lemma TakenBack(p: Params, es: seq<Entry>, last: int)
    requires SinceMsec(p) < last < UntilMsec(p)
    requires forall e | e in Between(p, es, SinceMsec(p) + 1, UntilMsec(p)) :: e.time <= last
    ensures DropTime(SnapshotHead(p, es) + Between(p, es, SinceMsec(p) + 1, UntilMsec(p)), last)
         == SnapshotHead(p, es) + Between(p, es, SinceMsec(p) + 1, last)
  {
    DropConcat(SnapshotHead(p, es), Between(p, es, SinceMsec(p) + 1, UntilMsec(p)), last);
    HeadTimes(p, es);
    DropNothing(SnapshotHead(p, es), last);
    DropLastTime(p, es, SinceMsec(p) + 1, UntilMsec(p), last);
  }

  lemma {:induction false} WindowUpTo(p: Params, es: seq<Entry>, lo: int, hi: int, mid: int)
    requires mid <= hi && forall e | e in Between(p, es, lo, hi) :: e.time < mid
    ensures Between(p, es, lo, mid) == Between(p, es, lo, hi)
  {
    if es != [] {
      var older, e := es[..|es| - 1], es[|es| - 1];
      assert es == older + [e];
      BetweenOne(p, older, e, lo, hi);
      BetweenOne(p, older, e, lo, mid);
      WindowUpTo(p, older, lo, hi, mid);
      if p.matches(e) && lo <= e.time < hi {
        assert e in Between(p, es, lo, hi);
      }
    }
  }

  // ---------------------------------------------------------------- theorems

  /** Nothing that matches is left in the source at `time` or later. */
  lemma WindowIsAll(p: Params, es: seq<Entry>, time: int)
    requires Windowed(p) && MatchesBefore(p, es, UntilMsec(p)) && SinceMsec(p) <= time
    requires forall e | e in Between(p, es, SinceMsec(p) + 1, UntilMsec(p)) :: e.time <= time
    ensures MatchesBefore(p, es, time + 1)
  {
    forall i | 0 <= i < |es| && p.matches(es[i]) ensures es[i].time < time + 1 {
      SelectsAll(p, es, SinceMsec(p) + 1, UntilMsec(p), i);
    }
  }

  lemma {:induction false} SelectsAll(p: Params, es: seq<Entry>, lo: int, hi: int, i: nat)
    requires i < |es| && p.matches(es[i])
    ensures lo <= es[i].time < hi ==> es[i] in Between(p, es, lo, hi)
    ensures es[i].time < hi ==> es[i] in Below(p, es, hi)
  {
    if i < |es| - 1 {
      SelectsAll(p, es[..|es| - 1], lo, hi, i);
    }
  }

  lemma KeptBefore(p: Params, es: seq<Entry>, sent: seq<Entry>, log: seq<Entry>, last: int)
    requires Windowed(p) && Ordered(es) && log == Between(p, es, SinceMsec(p) + 1, UntilMsec(p)) && log != []
    requires last == log[|log| - 1].time && sent == SnapshotHead(p, es) + log && TimeIsRead(sent, last)
    ensures DropRead(sent, last) == SnapshotHead(p, es) + Between(p, es, SinceMsec(p) + 1, last)
  {
    hide Between, DropRead, DropTime, SnapshotHead, Ordered, TimeIsRead;
    WindowEnd(p, es, SinceMsec(p) + 1, UntilMsec(p));
    DropReadIsDrop(sent, last);
    TakenBack(p, es, last);
  }

  /** What is kept when the source ran out is the window up to the end that goes with it. */
  lemma KeptWindow(p: Params, es: seq<Entry>, log: seq<Entry>, last: int, end: int, recent: bool, r: Log)
    requires Windowed(p) && Ordered(es) && log == Between(p, es, SinceMsec(p) + 1, UntilMsec(p)) && log != []
    requires last == log[|log| - 1].time && Delivers(r, Kept(SnapshotHead(p, es) + log, last, recent))
    requires TimeIsRead(SnapshotHead(p, es) + log, last)
    requires end == if recent then last else last + 1
    ensures Answers(p, es, r, end)
  {
    if recent {
      KeptBefore(p, es, SnapshotHead(p, es) + log, log, last);
    } else {
      WindowEnd(p, es, SinceMsec(p) + 1, UntilMsec(p));
    }
  }

  lemma NothingNewer(p: Params, es: seq<Entry>, log: seq<Entry>, last: int)
    requires Windowed(p) && Ordered(es) && MatchesBefore(p, es, UntilMsec(p))
    requires log == Between(p, es, SinceMsec(p) + 1, UntilMsec(p)) && log != [] && last == log[|log| - 1].time
    ensures SinceMsec(p) < last && MatchesBefore(p, es, last + 1)
  {
    WindowEnd(p, es, SinceMsec(p) + 1, UntilMsec(p));
    WindowIsAll(p, es, last);
  }

  lemma LastOfBoth(a: seq<Entry>, b: seq<Entry>)
    requires b != []
    ensures (a + b)[|a + b| - 1] == b[|b| - 1]
  {
  }

  /** Where the window ends that is delivered, and the time that the header says. */
  function EndOf(p: Params, sc: Scan, now: int): int
  {
    if sc.unmatched.Some? then sc.unmatched.value.time
    else if sc.log == [] then SinceMsec(p) + 1
    else
      var last := sc.log[|sc.log| - 1].time;
      if TooRecent(last, now) then last else last + 1
  }

  function SaidOf(p: Params, sc: Scan): int
  {
    if sc.unmatched.Some? then sc.unmatched.value.time
    else if sc.log == [] then SinceMsec(p)
    else sc.log[|sc.log| - 1].time
  }

  /** The last snapshot row, if there are any, is read with its time. */
  ghost predicate HeadEndIsRead(p: Params, es: seq<Entry>)
  {
    var head := SnapshotHead(p, es);
    head != [] ==> ReadTime(head[|head| - 1]) == SinceMsec(p)
  }

  /** The rows that the header of an exhausted source is made from are read with their time. */
  ghost predicate EndIsRead(p: Params, es: seq<Entry>)
  {
    var head, window := SnapshotHead(p, es), Between(p, es, SinceMsec(p) + 1, UntilMsec(p));
    if window == [] then HeadEndIsRead(p, es) else TimeIsRead(head + window, window[|window| - 1].time)
  }

  /** The scan stops before the source ends, or the source ends with rows that are read with their time. */
  ghost predicate EndsWell(p: Params, es: seq<Entry>) { ScanAll(p, START, es).done || EndIsRead(p, es) }

  ghost predicate Outcome(p: Params, es: seq<Entry>, sc: Scan, now: int, r: Log)
  {
    Answers(p, es, r, EndOf(p, sc, now)) && r.until == if r.rows != [] then At(SaidOf(p, sc)) else Fallback(p)
  }

  /** The source ran out with rows in the window. */
  lemma AnswerRanOut(p: Params, es: seq<Entry>, sc: Scan, last: int, now: int, r: Log)
    requires Windowed(p) && Ordered(es) && sc.unmatched.None? && sc.log != [] && last == sc.log[|sc.log| - 1].time
    requires sc.log == Between(p, es, SinceMsec(p) + 1, UntilMsec(p))
    requires Delivers(r, Kept(SnapshotHead(p, es) + sc.log, last, TooRecent(last, now)))
    requires TimeIsRead(SnapshotHead(p, es) + sc.log, last)
    requires r.until == if r.rows != [] then At(last) else Fallback(p)
    ensures Outcome(p, es, sc, now, r)
  {
    KeptWindow(p, es, sc.log, last, EndOf(p, sc, now), TooRecent(last, now), r);
  }

  lemma RanDryHead(p: Params, es: seq<Entry>, sc: Scan, head: seq<Entry>, now: int, r: Log)
    requires !p.since.LastWord? && sc.unmatched.None? && sc.log == [] && Concluded(p, es, sc, now, r)
    requires head == SnapshotHead(p, es) && head != [] && ReadTime(head[|head| - 1]) == SinceMsec(p)
    ensures Delivers(r, head) && r.until == At(SinceMsec(p))
  {
    assert head + sc.log == head;
    RanOutKeeps(p, es, sc, SinceMsec(p), now, r);
  }

  /** The source ran out without rows in the window. */
  lemma AnswerRanDry(p: Params, es: seq<Entry>, sc: Scan, now: int, r: Log)
    requires !p.since.LastWord? && sc.unmatched.None? && sc.log == [] && Concluded(p, es, sc, now, r)
    requires HeadEndIsRead(p, es)
    ensures Outcome(p, es, sc, now, r)
  {
    var head := SnapshotHead(p, es);
    EmptyWindow(p, es, SinceMsec(p) + 1);
    assert head + Between(p, es, SinceMsec(p) + 1, SinceMsec(p) + 1) == head;
    if head == [] {
      RanOutNothing(p, es, sc, now, r);
    } else {
      RanDryHead(p, es, sc, head, now, r);
    }
  }

  lemma RanOutOutcome(p: Params, es: seq<Entry>, sc: Scan, last: int, now: int, r: Log)
    requires Windowed(p) && Ordered(es) && sc.unmatched.None? && sc.log != [] && Concluded(p, es, sc, now, r)
    requires sc.log == Between(p, es, SinceMsec(p) + 1, UntilMsec(p)) && last == sc.log[|sc.log| - 1].time
    requires TimeIsRead(SnapshotHead(p, es) + sc.log, last)
    ensures Outcome(p, es, sc, now, r)
  {
    LastOfBoth(SnapshotHead(p, es), sc.log);
    LastIsRead(SnapshotHead(p, es) + sc.log, last);
    RanOutKeeps(p, es, sc, last, now, r);
    AnswerRanOut(p, es, sc, last, now, r);
  }

  lemma LastIsRead(es: seq<Entry>, time: int)
    requires es != [] && TimeIsRead(es, time) && es[|es| - 1].time == time
    ensures ReadTime(es[|es| - 1]) == time
  {
  }

  lemma EndIsReadOf(p: Params, es: seq<Entry>, log: seq<Entry>)
    requires EndIsRead(p, es) && log == Between(p, es, SinceMsec(p) + 1, UntilMsec(p))
    ensures if log == [] then HeadEndIsRead(p, es) else TimeIsRead(SnapshotHead(p, es) + log, log[|log| - 1].time)
  {
  }

  lemma ExhaustedOutcome(p: Params, es: seq<Entry>, sc: Scan, now: int, r: Log)
    requires Windowed(p) && Ordered(es) && EndIsRead(p, es) && Concluded(p, es, sc, now, r)
    requires sc.unmatched.None? && sc.log == Between(p, es, SinceMsec(p) + 1, UntilMsec(p))
    ensures Outcome(p, es, sc, now, r)
  {
    EndIsReadOf(p, es, sc.log);
    if sc.log == [] {
      AnswerRanDry(p, es, sc, now, r);
    } else {
      RanOutOutcome(p, es, sc, sc.log[|sc.log| - 1].time, now, r);
    }
  }

  lemma StoppedOutcome(p: Params, es: seq<Entry>, sc: Scan, now: int, r: Log)
    requires Windowed(p) && Stopped(p, es, sc) && Concluded(p, es, sc, now, r)
    ensures Outcome(p, es, sc, now, r)
  {
    hide Concluded, Answers;
    AnswerStopped(p, es, sc, now, r);
  }

  lemma ConcludedOutcome(p: Params, es: seq<Entry>, sc: Scan, now: int, r: Log)
    requires Windowed(p) && Ordered(es) && Scanned(p, es, sc) && Concluded(p, es, sc, now, r)
    requires sc.done || EndIsRead(p, es)
    ensures Outcome(p, es, sc, now, r)
  {
    hide Concluded, Outcome, EndIsRead, Between, Ordered;
    if sc.done {
      StoppedOutcome(p, es, sc, now, r);
    } else {
      ExhaustedOutcome(p, es, sc, now, r);
    }
  }

  lemma ScanOutcome(p: Params, es: seq<Entry>, now: int)
    requires Windowed(p) && Ordered(es) && EndsWell(p, es)
    ensures Outcome(p, es, ScanAll(p, START, es), now, GetLog(p, es, now))
  {
    ScanIsRight(p, es);
    GetLogConcludes(p, es, now);
    ConcludedOutcome(p, es, ScanAll(p, START, es), now, GetLog(p, es, now));
  }

  lemma {:induction false} EmptyWindow(p: Params, es: seq<Entry>, lo: int)
    ensures Between(p, es, lo, lo) == []
  {
    if es != [] {
      EmptyWindow(p, es[..|es| - 1], lo);
    }
  }

  /**
   The rows are the snapshot and all matching entries with since < time < until of the header, so that no
   timestamp is split; when the source ran out without a recent timestamp, `until` is its newest time and included.
   */
  ghost predicate Answered(p: Params, es: seq<Entry>, r: Log)
  {
    if r.rows == [] then r.until == Fallback(p)
    else
      && r.until.At? && SinceMsec(p) <= r.until.ms
      && (|| (SinceMsec(p) < r.until.ms && Answers(p, es, r, r.until.ms))
          || (Answers(p, es, r, r.until.ms + 1) && MatchesBefore(p, es, r.until.ms + 1)))
  }

  lemma EndOfScan(p: Params, es: seq<Entry>, sc: Scan, now: int)
    requires Windowed(p) && Ordered(es) && Scanned(p, es, sc)
    ensures SinceMsec(p) <= SaidOf(p, sc)
    ensures || (EndOf(p, sc, now) == SaidOf(p, sc) && SinceMsec(p) < SaidOf(p, sc))
            || (EndOf(p, sc, now) == SaidOf(p, sc) + 1 && MatchesBefore(p, es, SaidOf(p, sc) + 1))
  {
    if !sc.done {
      if sc.log == [] {
        WindowIsAll(p, es, SinceMsec(p));
      } else {
        NothingNewer(p, es, sc.log, sc.log[|sc.log| - 1].time);
      }
    }
  }

  lemma OutcomeAnswers(p: Params, es: seq<Entry>, sc: Scan, now: int, r: Log)
    requires Outcome(p, es, sc, now, r) && SinceMsec(p) <= SaidOf(p, sc)
    requires || (EndOf(p, sc, now) == SaidOf(p, sc) && SinceMsec(p) < SaidOf(p, sc))
             || (EndOf(p, sc, now) == SaidOf(p, sc) + 1 && MatchesBefore(p, es, SaidOf(p, sc) + 1))
    ensures Answered(p, es, r)
  {
  }

  lemma ScanAnswers(p: Params, es: seq<Entry>, now: int)
    requires Windowed(p) && Ordered(es) && EndsWell(p, es)
    ensures Answered(p, es, GetLog(p, es, now))
  {
    ScanIsRight(p, es);
    EndOfScan(p, es, ScanAll(p, START, es), now);
    ScanOutcome(p, es, now);
    OutcomeAnswers(p, es, ScanAll(p, START, es), now, GetLog(p, es, now));
  }

  lemma {:induction false} NothingFrom(p: Params, es: seq<Entry>, lo: int, hi: int)
    requires forall i | 0 <= i < |es| :: es[i].time < lo
    ensures Between(p, es, lo, hi) == []
  {
    if es != [] {
      NothingFrom(p, es[..|es| - 1], lo, hi);
    }
  }

  lemma {:induction false} BelowSplits(p: Params, es: seq<Entry>, mid: int, hi: int)
    requires Ordered(es) && mid <= hi
    ensures Below(p, es, hi) == Below(p, es, mid) + Between(p, es, mid, hi)
  {
    if es != [] {
      var older, e := es[..|es| - 1], es[|es| - 1];
      BelowSplits(p, older, mid, hi);
      if e.time < mid {
        NothingFrom(p, older, mid, hi);
      }
    }
  }

  lemma PastIsWellKeyed(p: Params, es: seq<Entry>)
    ensures WellKeyed(PastState(p, es))
  {
    ReplayWellKeyed(map[], Below(p, es, SinceMsec(p) + 1));
  }

  /** Rows of a snapshot, and then others, replay like those others on top of it. */
  lemma SnapshotFirst(s: Snapshot, time: int, more: seq<Entry>)
    requires WellKeyed(s)
    ensures View(Replay(map[], SnapshotRows(s, time) + more)) == View(Replay(s, more))
  {
    ReplayConcat(map[], SnapshotRows(s, time), more);
    RowsReplayToSnapshot(map[], s, time);
    ViewDecides(Replay(map[], SnapshotRows(s, time)), s, more);
  }

  lemma PastThenWindow(p: Params, es: seq<Entry>, hi: int)
    requires Ordered(es) && SinceMsec(p) < hi
    ensures Replay(map[], Below(p, es, hi)) == Replay(PastState(p, es), Between(p, es, SinceMsec(p) + 1, hi))
  {
    BelowSplits(p, es, SinceMsec(p) + 1, hi);
    ReplayConcat(map[], Below(p, es, SinceMsec(p) + 1), Between(p, es, SinceMsec(p) + 1, hi));
  }

  /** Snapshot and log replay to the state of the whole matching history up to the cut. */
  lemma SnapshotPlusLogReplays(p: Params, es: seq<Entry>, hi: int)
    requires Ordered(es) && SendsSnapshot(p) && SinceMsec(p) < hi
    ensures View(Replay(map[], SnapshotHead(p, es) + Between(p, es, SinceMsec(p) + 1, hi)))
         == View(Replay(map[], Below(p, es, hi)))
  {
    PastThenWindow(p, es, hi);
    PastIsWellKeyed(p, es);
    SnapshotFirst(PastState(p, es), SinceMsec(p), Between(p, es, SinceMsec(p) + 1, hi));
  }
}
