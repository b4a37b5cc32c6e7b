/** Headers, and the answers to queries without log rows: for "last", and with an `until` not after `since`. */
module GetLogAnswers {
  import opened ByteStrings
  import opened Journals
  import opened GetLogs
  import opened GetLogTheorems
  import opened GetLogLimits
  import opened GetLogHonesty
  import opened LastRows

  /** The matching entries with `time >= lo`. */
  function From(p: Params, es: seq<Entry>, lo: int): seq<Entry>
  {
    if es == [] then []
    else
      var e := es[|es| - 1];
      From(p, es[..|es| - 1], lo) + (if p.matches(e) && e.time >= lo then [e] else [])
  }

  /** The matching entries before `until`, and the first one behind them if it still counts. */
  function Counted(p: Params, es: seq<Entry>): seq<Entry>
  {
    var rest := From(p, es, UntilMsec(p));
    Below(p, es, UntilMsec(p)) +
      if rest != [] && (p.since.LastWord? || rest[0].time <= SinceMsec(p)) then [rest[0]] else []
  }

  function FirstOf(es: seq<Entry>): Option<Entry> { if es == [] then None else Some(es[0]) }

  function LastOf(es: seq<Entry>): Option<Entry> { if es == [] then None else Some(es[|es| - 1]) }

  ghost predicate QuietScanned(p: Params, es: seq<Entry>, sc: Scan)
  {
    && sc.log == [] && !sc.limitHit
    && sc.unmatched == FirstOf(From(p, es, UntilMsec(p))) && sc.done == sc.unmatched.Some?
    && sc.last == LastOf(Below(p, es, UntilMsec(p)))
    && sc.snapshot == Replay(map[], Counted(p, es))
    && sc.dataBefore == (Below(p, es, UntilMsec(p)) != [])
  }

  lemma FromOne(p: Params, es: seq<Entry>, e: Entry, lo: int)
    ensures From(p, es + [e], lo) == From(p, es, lo) + if p.matches(e) && e.time >= lo then [e] else []
  {
  }

  lemma {:induction false} FromIsIn(p: Params, es: seq<Entry>, lo: int)
    ensures forall e | e in From(p, es, lo) :: e in es && p.matches(e) && e.time >= lo
  {
    if es != [] {
      FromIsIn(p, es[..|es| - 1], lo);
    }
  }

  /** Behind the entry that stops the scan, nothing changes what counts. */
  lemma StopsCounting(p: Params, es: seq<Entry>, e: Entry)
    requires Ordered(es + [e]) && From(p, es, UntilMsec(p)) != []
    ensures Below(p, es + [e], UntilMsec(p)) == Below(p, es, UntilMsec(p))
    ensures FirstOf(From(p, es + [e], UntilMsec(p))) == FirstOf(From(p, es, UntilMsec(p)))
    ensures Counted(p, es + [e]) == Counted(p, es)
  {
    FromOne(p, es, e, UntilMsec(p));
    BelowOne(p, es, e, UntilMsec(p));
    FromIsIn(p, es, UntilMsec(p));
    LastIsNewest(es, e);
    assert From(p, es, UntilMsec(p))[0] in es;
  }

  /** One more entry, when all before it were before `until`. */
  lemma CountsOne(p: Params, es: seq<Entry>, e: Entry)
    requires From(p, es, UntilMsec(p)) == []
    ensures From(p, es + [e], UntilMsec(p)) == if p.matches(e) && e.time >= UntilMsec(p) then [e] else []
    ensures Counted(p, es) == Below(p, es, UntilMsec(p))
    ensures Counted(p, es + [e]) ==
      if p.matches(e) && (e.time < UntilMsec(p) || p.since.LastWord? || e.time <= SinceMsec(p)) then
        Below(p, es, UntilMsec(p)) + [e]
      else Below(p, es, UntilMsec(p))
  {
    FromOne(p, es, e, UntilMsec(p));
    BelowOne(p, es, e, UntilMsec(p));
  }

  lemma QuietStep(p: Params, es: seq<Entry>, sc: Scan, e: Entry)
    requires SendsNoLog(p) && QuietScanned(p, es, sc) && !sc.done
    ensures QuietScanned(p, es + [e], Examine(p, sc, e))
  {
    CountsOne(p, es, e);
    BelowOne(p, es, e, UntilMsec(p));
    ReplayOne(map[], Below(p, es, UntilMsec(p)), e);
  }

  lemma {:induction false} QuietScanIsRight(p: Params, es: seq<Entry>)
    requires SendsNoLog(p) && Ordered(es)
    ensures QuietScanned(p, es, ScanAll(p, START, es))
  {
    if es != [] {
      var older, e := es[..|es| - 1], es[|es| - 1];
      assert es == older + [e];
      QuietScanIsRight(p, older);
      if ScanAll(p, START, older).done {
        StopsCounting(p, older, e);
      } else {
        QuietStep(p, older, ScanAll(p, START, older), e);
      }
    }
  }

  // ---------------------------------------------------------------- the result

  lemma QuietConclusion(p: Params, rows: seq<Row>, times: seq<int>, dict: map<int, Path>, cut: Option<int>,
                        dataBefore: bool, limitHit: bool, now: int)
    requires |rows| == |times|
    ensures var r := Conclude(p, rows, times, dict, true, cut, dataBefore, limitHit, now);
      && r.rows == rows && r.dict == dict && r.limitHit == limitHit
      && (rows == [] ==> r.until == Fallback(p) && r.since == if p.since.Missing? then p.until else p.since)
      && (rows != [] && p.since.LastWord? ==> r.since == r.until == At(rows[0].time))
      && (rows != [] && !p.since.LastWord? ==>
            && r.since == (if dataBefore then p.since else At(rows[0].time))
            && r.until == At(if cut.Some? then cut.value else times[|rows| - 1]))
  {
  }

  /** Without log rows, everything in front of them is sent. */
  lemma QuietReport(p: Params, sc: Scan, now: int)
    requires sc.log == []
    ensures var r := Report(p, sc, now);
      && Delivers(r, Head(p, sc)) && r.limitHit == sc.limitHit
      && (r.rows == [] ==> r.until == Fallback(p) && r.since == if p.since.Missing? then p.until else p.since)
      && (r.rows != [] && p.since.LastWord? ==> r.since == r.until == At(r.rows[0].time))
      && (r.rows != [] && !p.since.LastWord? ==>
            && r.since == (if sc.dataBefore then p.since else At(r.rows[0].time))
            && r.until == At(if sc.unmatched.Some? then sc.unmatched.value.time
                             else ReadTime(Head(p, sc)[|Head(p, sc)| - 1])))
  {
    hide AllRows, Head, Conclude, SentDict;
    var m := AllRows(p, sc);
    assert Head(p, sc) + sc.log == Head(p, sc);
    ScanPrepared(p, sc, m);
    var dict := SentDict(p, m.cache);
    QuietConclusion(p, m.rows, ExpandedTimes(dict, m.rows), dict, CutTime(sc), sc.dataBefore, sc.limitHit, now);
  }

  /** The header of a "last" query names the time of the first row sent, and otherwise what was asked. */
  ghost predicate LastHeader(p: Params, r: Log)
  {
    if r.rows == [] then r.since == p.since && r.until == Fallback(p)
    else r.since == r.until == At(r.rows[0].time)
  }

  /** The time of snapshot rows for "last": that of the newest entry in the snapshot, but not before 1970. */
  ghost predicate IsNewestTime(s: Snapshot, time: int)
  {
    && time >= 0 && (forall k | k in s :: s[k].time <= time) && (time == 0 || exists k | k in s :: s[k].time == time)
  }

  /**
   "last" with a snapshot: its rows are those of the state that the matching entries before `until` leave, and the
   first one behind them, with the time of the newest value.
   */
  lemma LastSnapshotAnswers(p: Params, es: seq<Entry>, now: int)
    requires p.since.LastWord? && p.withSnapshot && Ordered(es)
    ensures var r, s := GetLog(p, es, now), Replay(map[], Counted(p, es));
      && LastHeader(p, r) && !r.limitHit
      && exists time :: IsNewestTime(s, time) && Delivers(r, SnapshotRows(s, time))
  {
    hide Counted, ScanAll, Report, From, Below, Delivers;
    QuietScanIsRight(p, es);
    QuietReport(p, ScanAll(p, START, es), now);
    assert IsNewestTime(Replay(map[], Counted(p, es)), SnapshotTime(p, Replay(map[], Counted(p, es))));
  }

  /** "last" without a snapshot: the last matching entry before `until`, and nothing if there is none. */
  lemma LastRowAnswers(p: Params, es: seq<Entry>, now: int)
    requires p.since.LastWord? && !p.withSnapshot && Ordered(es)
    ensures var r, before := GetLog(p, es, now), Below(p, es, UntilMsec(p));
      LastHeader(p, r) && !r.limitHit && Delivers(r, if before == [] then [] else [before[|before| - 1]])
  {
    hide Counted, ScanAll, Report, From, Below, Delivers;
    QuietScanIsRight(p, es);
    QuietReport(p, ScanAll(p, START, es), now);
  }

  /** A client that replays the answer to "last" reaches that state, as far as rows can tell it. */
  lemma LastReplays(p: Params, es: seq<Entry>, now: int, got: seq<Entry>)
    requires p.since.LastWord? && p.withSnapshot && Ordered(es) && Received(GetLog(p, es, now), got)
    ensures View(Replay(map[], got)) == View(Told(Replay(map[], Counted(p, es))))
  {
    var r, s := GetLog(p, es, now), Replay(map[], Counted(p, es));
    LastSnapshotAnswers(p, es, now);
    var time :| IsNewestTime(s, time) && Delivers(r, SnapshotRows(s, time));
    RowsAreGot(r, SnapshotRows(s, time), got);
    ReplayWellKeyed(map[], Counted(p, es));
    SnapshotReads(s, time, []);
    assert AllAsRead(SnapshotRows(s, time)) + [] == got;
  }

  lemma RowsAreGot(r: Log, es: seq<Entry>, got: seq<Entry>)
    requires Delivers(r, es) && Received(r, got)
    ensures got == AllAsRead(es)
  {
    forall i | 0 <= i < |got| ensures got[i] == AllAsRead(es)[i] {
      assert Reads(r.dict, r.rows[i], es[i]);
    }
  }

  /**
   A date `since` that is not before `until`: the rows are those of the state before `until`, and of the first entry
   behind it if that is not after `since`.
   */
  lemma BackwardAnswers(p: Params, es: seq<Entry>, now: int)
    requires !p.since.LastWord? && UntilMsec(p) <= SinceMsec(p) && Ordered(es)
    ensures var r, before, rest := GetLog(p, es, now), Below(p, es, UntilMsec(p)), From(p, es, UntilMsec(p));
      var head := SnapshotRows(Replay(map[], Counted(p, es)), SinceMsec(p));
      && !r.limitHit && Delivers(r, if SendsSnapshot(p) then head else [])
      && (r.rows == [] ==> r.until == Fallback(p) && r.since == if p.since.Missing? then p.until else p.since)
      && (r.rows != [] ==>
            && r.since == (if before != [] then p.since else At(r.rows[0].time))
            && r.until == At(if rest != [] then rest[0].time else ReadTime(head[|head| - 1])))
  {
    hide Counted, ScanAll, Report, From, Below;
    QuietScanIsRight(p, es);
    QuietReport(p, ScanAll(p, START, es), now);
  }

  // ---------------------------------------------------------------- the header of a query for a period

  lemma NoticesOne(p: Params, es: seq<Entry>, sc: Scan, e: Entry)
    requires Windowed(p) && !sc.done && (sc.dataBefore <==> Past(p, es) != [])
    ensures Examine(p, sc, e).dataBefore <==> Past(p, es + [e]) != []
  {
    BelowOne(p, es, e, SinceMsec(p) + 1);
    ExamineCases(p, sc, e);
  }

  /** The scan notices data that is not after `since`. */
  lemma {:induction false} PastIsNoticed(p: Params, es: seq<Entry>)
    requires Windowed(p) && Ordered(es)
    ensures ScanAll(p, START, es).dataBefore <==> Past(p, es) != []
  {
    if es != [] {
      var older, e := es[..|es| - 1], es[|es| - 1];
      var sc := ScanAll(p, START, older);
      assert es == older + [e];
      PastIsNoticed(p, older);
      if sc.done {
        ScanIsRight(p, older);
        LastIsNewest(older, e);
        BelowOne(p, older, e, SinceMsec(p) + 1);
      } else {
        NoticesOne(p, older, sc, e);
      }
    }
  }

  lemma ConcludedSince(p: Params, rows: seq<Row>, times: seq<int>, dict: map<int, Path>, logIsEmpty: bool,
                       cut: Option<int>, dataBefore: bool, limitHit: bool, now: int)
    requires |rows| == |times| && !p.since.LastWord?
    ensures var r := Conclude(p, rows, times, dict, logIsEmpty, cut, dataBefore, limitHit, now);
      && r.limitHit == limitHit
      && r.since == if r.rows == [] then (if p.since.Missing? then p.until else p.since)
                    else if dataBefore then p.since else At(r.rows[0].time)
  {
  }

  /**
   The header's `since` is that of the query if there is data up to there, and else the time of the first row; the
   limit flag is that of the scan.
   */
  lemma HeaderIsRight(p: Params, es: seq<Entry>, now: int)
    requires Windowed(p) && Ordered(es)
    ensures var r := GetLog(p, es, now);
      r.since == if r.rows == [] then (if p.since.Missing? then p.until else p.since)
                 else if Past(p, es) != [] then p.since else At(r.rows[0].time)
    ensures GetLog(p, es, now).limitHit == ScanAll(p, START, es).limitHit
  {
    var sc := ScanAll(p, START, es);
    var m := AllRows(p, sc);
    PastIsNoticed(p, es);
    ScanPrepared(p, sc, m);
    var dict := SentDict(p, m.cache);
    ConcludedSince(p, m.rows, ExpandedTimes(dict, m.rows), dict, sc.log == [], CutTime(sc), sc.dataBefore, sc.limitHit,
      now);
  }

  // ---------------------------------------------------------------- paths

  /** Paths as they were asked for, and domains only where they are not that of a value change. */
  ghost predicate SpelledAs(p: Params, rows: seq<Row>)
  {
    && (forall row | row in rows :: row.path.Indexed? <==> p.withPathsDict)
    && (forall row | row in rows :: row.domain.Some? ==> row.domain.value != [] && row.domain.value != VAL_CHANGE)
  }

  lemma {:induction false} StaySpelled(p: Params, rows: seq<Row>, times: seq<int>, time: int)
    requires |rows| == |times| && SpelledAs(p, rows)
    ensures SpelledAs(p, WithoutTime(rows, times, time))
  {
    if rows != [] {
      var n := |rows| - 1;
      assert rows[n] in rows && forall row | row in rows[..n] :: row in rows;
      StaySpelled(p, rows[..n], times[..n], time);
    }
  }

  lemma ConcludedPaths(p: Params, rows: seq<Row>, times: seq<int>, dict: map<int, Path>, logIsEmpty: bool,
                       cut: Option<int>, dataBefore: bool, limitHit: bool, now: int)
    requires |rows| == |times| && SpelledAs(p, rows)
    ensures var r := Conclude(p, rows, times, dict, logIsEmpty, cut, dataBefore, limitHit, now);
      r.dict == dict && SpelledAs(p, r.rows)
  {
    if rows != [] {
      StaySpelled(p, rows, times, times[|rows| - 1]);
    }
  }

  /**
   Paths are sent as numbers if a dictionary was asked for, and else spelled out, without a dictionary; the domain of a
   value change is not sent.
   */
  lemma PathsAreAsAsked(p: Params, es: seq<Entry>, now: int)
    ensures var r := GetLog(p, es, now); SpelledAs(p, r.rows) && (!p.withPathsDict ==> r.dict == map[])
  {
    var sc := ScanAll(p, START, es);
    var m := AllRows(p, sc);
    ScanPrepared(p, sc, m);
    var dict := SentDict(p, m.cache);
    ConcludedPaths(p, m.rows, ExpandedTimes(dict, m.rows), dict, sc.log == [], CutTime(sc), sc.dataBefore, sc.limitHit,
      now);
  }

  // ---------------------------------------------------------------- the rows of a query for a period

  /** Log rows, without those of the newest timestamp when the source ran out and that is too recent. */
  function Complete(log: seq<Entry>, early: bool, now: int): seq<Entry>
  {
    if !early && log != [] && Abs(log[|log| - 1].time - now) < 1000 then DropTime(log, log[|log| - 1].time) else log
  }

  /** The time up to which an answer goes: that of the first entry left out, or of the last one there is. */
  ghost function EndTime(p: Params, es: seq<Entry>, log: seq<Entry>): int
    requires |log| <= |Window(p, es)|
  {
    if |log| < |Window(p, es)| then Window(p, es)[|log|].time
    else if From(p, es, UntilMsec(p)) != [] then From(p, es, UntilMsec(p))[0].time
    else if log == [] then SinceMsec(p)
    else log[|log| - 1].time
  }

  /** A scan that reached `until` stopped at the first matching entry there. */
  ghost predicate StopsFirst(p: Params, es: seq<Entry>, sc: Scan)
  {
    if !sc.done then From(p, es, UntilMsec(p)) == []
    else sc.unmatched.Some? && (sc.unmatched.value.time >= UntilMsec(p) ==>
      sc.unmatched == FirstOf(From(p, es, UntilMsec(p))))
  }

  lemma {:induction false} ScanStopsFirst(p: Params, es: seq<Entry>)
    requires Windowed(p)
    ensures StopsFirst(p, es, ScanAll(p, START, es))
  {
    if es != [] {
      var older, e := es[..|es| - 1], es[|es| - 1];
      assert es == older + [e];
      ScanStopsFirst(p, older);
      FromOne(p, older, e, UntilMsec(p));
    }
  }

  /** What is before a time is the front of what is before a later one. */
  lemma {:induction false} FrontOfWindow(p: Params, es: seq<Entry>, lo: int, mid: int, hi: int)
    requires Ordered(es) && mid <= hi
    ensures var a, b := Between(p, es, lo, mid), Between(p, es, lo, hi);
      a <= b && (|a| < |b| ==> b[|a|].time >= mid)
  {
    if es != [] {
      var older, e := es[..|es| - 1], es[|es| - 1];
      assert es == older + [e];
      FrontOfWindow(p, older, lo, mid, hi);
      BetweenOne(p, older, e, lo, mid);
      BetweenOne(p, older, e, lo, hi);
      if p.matches(e) && lo <= e.time < mid {
        SelectedFrom(p, older, lo, hi);
        LastIsNewest(older, e);
        WindowUpTo(p, older, lo, hi, mid);
      }
    }
  }

  lemma NotInFront(p: Params, es: seq<Entry>, log: seq<Entry>, x: Entry, k: nat)
    requires Ordered(es) && log == Between(p, es, SinceMsec(p) + 1, x.time) && log <= Window(p, es)
    requires k < |Window(p, es)| && Window(p, es)[k] == x
    ensures |log| <= k && Window(p, es)[|log|].time <= x.time
  {
    SelectedFrom(p, es, SinceMsec(p) + 1, x.time);
    WindowIsOrdered(p, es, SinceMsec(p) + 1, UntilMsec(p));
    assert forall i | 0 <= i < |log| :: log[i] in log && log[i] == Window(p, es)[i];
  }

  lemma LimitedEnd(p: Params, es: seq<Entry>, log: seq<Entry>, x: Entry)
    requires Ordered(es) && p.matches(x) && x in es && SinceMsec(p) < x.time < UntilMsec(p)
    requires log == Between(p, es, SinceMsec(p) + 1, x.time) && log <= Window(p, es)
    ensures |log| < |Window(p, es)| && EndTime(p, es, log) == x.time
  {
    var window := Window(p, es);
    var i :| 0 <= i < |es| && es[i] == x;
    SelectsAll(p, es, SinceMsec(p) + 1, UntilMsec(p), i);
    var k :| 0 <= k < |window| && window[k] == x;
    NotInFront(p, es, log, x, k);
    FrontOfWindow(p, es, SinceMsec(p) + 1, x.time, UntilMsec(p));
  }

  lemma UntilEnd(p: Params, es: seq<Entry>, log: seq<Entry>, time: int)
    requires log == Between(p, es, SinceMsec(p) + 1, time) && log <= Window(p, es) && UntilMsec(p) <= time
    ensures log == Window(p, es)
  {
    SelectedFrom(p, es, SinceMsec(p) + 1, UntilMsec(p));
    assert forall e | e in log :: e in Window(p, es);
    WindowUpTo(p, es, SinceMsec(p) + 1, time, UntilMsec(p));
  }

  /** Where the answer ends, seen from the entries alone. */
  lemma EndIsRight(p: Params, es: seq<Entry>)
    requires Windowed(p) && Ordered(es)
    ensures var sc := ScanAll(p, START, es); sc.log <= Window(p, es) && SaidOf(p, sc) == EndTime(p, es, sc.log)
  {
    var sc := ScanAll(p, START, es);
    ScanIsRight(p, es);
    LimitIsExact(p, es);
    ScanStopsFirst(p, es);
    if sc.done {
      var x := sc.unmatched.value;
      if x.time < UntilMsec(p) {
        LimitedEnd(p, es, sc.log, x);
      } else {
        UntilEnd(p, es, sc.log, x.time);
      }
    }
  }

  /** What is delivered is the log, without its newest timestamp where that may not be complete. */
  lemma CompleteIsSent(p: Params, es: seq<Entry>, sc: Scan, now: int)
    requires Windowed(p) && Ordered(es) && Scanned(p, es, sc)
    ensures Between(p, es, SinceMsec(p) + 1, EndOf(p, sc, now)) == Complete(sc.log, sc.done, now)
  {
    hide Between, Ordered, MatchesBefore, PastState;
    if !sc.done {
      if sc.log == [] {
        EmptyWindow(p, es, SinceMsec(p) + 1);
      } else {
        CompleteWindow(p, es, sc.log, sc.log[|sc.log| - 1].time);
      }
    }
  }

  lemma CompleteWindow(p: Params, es: seq<Entry>, log: seq<Entry>, last: int)
    requires Windowed(p) && Ordered(es) && log == Window(p, es) && log != [] && last == log[|log| - 1].time
    ensures Between(p, es, SinceMsec(p) + 1, last) == DropTime(log, last)
    ensures Between(p, es, SinceMsec(p) + 1, last + 1) == log
  {
    hide Between, DropTime, Ordered;
    WindowEnd(p, es, SinceMsec(p) + 1, UntilMsec(p));
    DropLastTime(p, es, SinceMsec(p) + 1, UntilMsec(p), last);
  }

  /** The rows of an answer, the limit flag and the time that the header says it goes up to. */
  ghost predicate IsAnswer(p: Params, es: seq<Entry>, now: int, log: seq<Entry>, r: Log)
  {
    && Limited(p, Window(p, es), Taken(p, es), Past(p, es) != [], log, r.limitHit)
    && Delivers(r, SnapshotHead(p, es) + Complete(log, StopsEarly(p, es), now))
    && r.until == (if r.rows == [] then Fallback(p) else At(EndTime(p, es, log)))
  }

  /** Every answerable query for a period is answered with exactly these rows, and this header. */
  lemma RowsAreExact(p: Params, es: seq<Entry>, now: int)
    requires Windowed(p) && Ordered(es) && Answerable(p, es)
    ensures exists log :: IsAnswer(p, es, now, log, GetLog(p, es, now))
  {
    hide GetLog, ScanAll, Limited, Ordered, StopsEarly, EndTime, Delivers, Answerable, SnapshotHead, Complete;
    var sc, r := ScanAll(p, START, es), GetLog(p, es, now);
    GetLogOutcome(p, es, now);
    ScanIsRight(p, es);
    LimitIsExact(p, es);
    StopsEarlyIff(p, es);
    EndIsRight(p, es);
    CompleteIsSent(p, es, sc, now);
    HeaderIsRight(p, es, now);
    assert IsAnswer(p, es, now, sc.log, r);
  }
}
