/** Entries without a path, which a list of entries can hold: which of them spoil the answer to a query. */
module GetLogPaths {
  import opened ByteStrings
  import opened Journals
  import opened GetLogs
  import opened GetLogTheorems
  import opened GetLogLimits

  // ---------------------------------------------------------------- a row without a path

  lemma PathlessRow(p: Params, cache: PathCache, e: Entry, rows: seq<Row>)
    requires RowsOf(p, cache, [e], rows) && e.path == []
    ensures (rows[0].path.Indexed? ==> rows[0].path.index in SentDict(p, cache)) && |rows| == 1
    ensures ExpandedTimes(SentDict(p, cache), rows) == [0]
  {
    RowsAreReadable(p, cache, [e], rows);
    assert Unmapped(SentDict(p, cache), rows[0].path) == e.path;
  }

  lemma PathlessReport(p: Params, sc: Scan, e: Entry, now: int)
    requires !p.since.LastWord? && !p.withSnapshot && sc.log == [e] && sc.unmatched.None? && e.path == []
    requires !TooRecent(0, now)
    ensures var r := Report(p, sc, now); |r.rows| == 1 && r.until == At(0)
  {
    var m := AllRows(p, sc);
    assert Head(p, sc) + sc.log == [e];
    PathlessRow(p, m.cache, e, m.rows);
    var dict := SentDict(p, m.cache);
    ConcludeKeeps(p, m.rows, ExpandedTimes(dict, m.rows), dict, false, sc.dataBefore, sc.limitHit, now);
  }

  /**
   An entry without a path, which only a list of entries can hold: its row reads as nothing, and `until` is 0.
   */
  lemma PathlessRowMisleads(p: Params, e: Entry, now: int)
    requires Windowed(p) && !p.withSnapshot && p.limit >= 1 && p.matches(e) && e.path == []
    requires 0 < SinceMsec(p) < e.time < UntilMsec(p) && !TooRecent(0, now)
    ensures var r := GetLog(p, [e], now); |r.rows| == 1 && r.until == At(0) && !Answered(p, [e], r)
  {
    OwnLimitCounts(p, [e]);
    assert ScanAll(p, START, [e]).unmatched.None? by { ScanIsRight(p, [e]); }
    PathlessReport(p, ScanAll(p, START, [e]), e, now);
  }

  // ---------------------------------------------------------------- queries that are answered at every time of day

  /** A row without a path at this time, which is read with the time 0. */
  ghost predicate Hides(es: seq<Entry>, time: int, i: nat) { i < |es| && es[i].time == time && es[i].path == [] }

  lemma {:induction false} KeptIsLonger(es: seq<Entry>, time: int)
    requires time != 0
    ensures |DropTime(es, time)| <= |DropRead(es, time)|
  {
    if es != [] {
      KeptIsLonger(es[..|es| - 1], time);
    }
  }

  /** Taking back the newest timestamp leaves a row without a path behind. */
  lemma {:induction false} HiddenRowStays(es: seq<Entry>, time: int, i: nat)
    requires time != 0 && Hides(es, time, i)
    ensures |DropTime(es, time)| < |DropRead(es, time)|
  {
    var older := es[..|es| - 1];
    if i < |es| - 1 {
      assert Hides(older, time, i);
      HiddenRowStays(older, time, i);
    } else {
      KeptIsLonger(older, time);
    }
  }

  lemma {:induction false} LastIsTakenBack(es: seq<Entry>, time: int)
    ensures |DropRead(es, time)| <= |es|
    ensures es != [] && ReadTime(es[|es| - 1]) == time ==> |DropRead(es, time)| < |es|
  {
    if es != [] {
      LastIsTakenBack(es[..|es| - 1], time);
    }
  }

  lemma UnreadIsHidden(es: seq<Entry>, time: int)
    requires time > 0
    ensures !TimeIsRead(es, time) <==> exists i :: Hides(es, time, i)
  {
    if !TimeIsRead(es, time) {
      var i :| 0 <= i < |es| && !(ReadTime(es[i]) == time <==> es[i].time == time);
      assert Hides(es, time, i);
    }
    if i: nat :| Hides(es, time, i) {
      assert ReadTime(es[i]) == 0;
    }
  }

  /** The last row of all is read with the time 0, and so is the header. */
  lemma EndUnread(p: Params, es: seq<Entry>, sent: seq<Entry>, r: Log)
    requires SinceMsec(p) > 0 || (SinceMsec(p) == 0 && |sent| > |SnapshotHead(p, es)|)
    requires sent != [] && Delivers(r, sent) && r.until == At(0)
    ensures !Answered(p, es, r)
  {
    EmptyWindow(p, es, 1);
  }

  lemma WrongCount(p: Params, es: seq<Entry>, r: Log, last: int)
    requires r.until == At(last) && |r.rows| > |SnapshotHead(p, es) + Between(p, es, SinceMsec(p) + 1, last)|
    requires |r.rows| < |SnapshotHead(p, es) + Between(p, es, SinceMsec(p) + 1, last + 1)|
    ensures !Answered(p, es, r)
  {
  }

  lemma HiddenCounts(p: Params, es: seq<Entry>, sent: seq<Entry>, log: seq<Entry>, last: int, i: nat)
    requires Windowed(p) && Ordered(es) && SinceMsec(p) >= 0
    requires log == Between(p, es, SinceMsec(p) + 1, UntilMsec(p)) && log != []
    requires last == log[|log| - 1].time == ReadTime(log[|log| - 1])
    requires sent == SnapshotHead(p, es) + log && Hides(sent, last, i)
    ensures |SnapshotHead(p, es) + Between(p, es, SinceMsec(p) + 1, last)| < |DropRead(sent, last)|
    ensures |DropRead(sent, last)| < |SnapshotHead(p, es) + Between(p, es, SinceMsec(p) + 1, last + 1)|
  {
    WindowEnd(p, es, SinceMsec(p) + 1, UntilMsec(p));
    LastOfBoth(SnapshotHead(p, es), log);
    LastIsTakenBack(sent, last);
    HiddenIsMore(p, es, sent, last, i);
  }

  lemma HiddenIsMore(p: Params, es: seq<Entry>, sent: seq<Entry>, last: int, i: nat)
    requires 0 <= SinceMsec(p) < last < UntilMsec(p)
    requires forall e | e in Between(p, es, SinceMsec(p) + 1, UntilMsec(p)) :: e.time <= last
    requires sent == SnapshotHead(p, es) + Between(p, es, SinceMsec(p) + 1, UntilMsec(p)) && Hides(sent, last, i)
    ensures |SnapshotHead(p, es) + Between(p, es, SinceMsec(p) + 1, last)| < |DropRead(sent, last)|
  {
    HiddenRowStays(sent, last, i);
    TakenBack(p, es, last);
  }

  /** A row without a path is left behind when the newest timestamp is taken back. */
  lemma HiddenUnread(p: Params, es: seq<Entry>, sent: seq<Entry>, log: seq<Entry>, last: int, r: Log)
    requires Windowed(p) && Ordered(es) && 0 <= SinceMsec(p) < last
    requires log == Between(p, es, SinceMsec(p) + 1, UntilMsec(p)) && log != []
    requires last == log[|log| - 1].time == ReadTime(log[|log| - 1])
    requires sent == SnapshotHead(p, es) + log && !TimeIsRead(sent, last)
    requires Delivers(r, DropRead(sent, last)) && (r.rows != [] ==> r.until == At(last))
    ensures !Answered(p, es, r)
  {
    UnreadIsHidden(sent, last);
    var i :| Hides(sent, last, i);
    HiddenCounts(p, es, sent, log, last, i);
    WrongCount(p, es, r, last);
  }

  /** A time at which an exhausted source is not answered: that of its last row if it has a path. */
  function BadTime(log: seq<Entry>): int
  {
    if log != [] && log[|log| - 1].path != [] then log[|log| - 1].time else 5000
  }

  lemma UnreadWindow(p: Params, es: seq<Entry>, sent: seq<Entry>, log: seq<Entry>, last: int, end: int, r: Log)
    requires Windowed(p) && Ordered(es) && 0 <= SinceMsec(p) < last
    requires log == Between(p, es, SinceMsec(p) + 1, UntilMsec(p)) && log != []
    requires last == log[|log| - 1].time && end == ReadTime(log[|log| - 1])
    requires sent == SnapshotHead(p, es) + log && !TimeIsRead(sent, last)
    requires Delivers(r, Kept(sent, end, TooRecent(end, BadTime(log)))) && (r.rows != [] ==> r.until == At(end))
    ensures !Answered(p, es, r)
  {
    if end != last {
      EndUnread(p, es, sent, r);
    } else {
      HiddenUnread(p, es, sent, log, last, r);
    }
  }

  lemma ReadUpTo(p: Params, es: seq<Entry>, sc: Scan, end: int, now: int, r: Log)
    requires !p.since.LastWord? && sc.unmatched.None? && Concluded(p, es, sc, now, r)
    requires sc.log != [] && end == ReadTime(sc.log[|sc.log| - 1])
    ensures Delivers(r, Kept(SnapshotHead(p, es) + sc.log, end, TooRecent(end, now)))
    ensures r.rows != [] ==> r.until == At(end)
  {
    LastOfBoth(SnapshotHead(p, es), sc.log);
    RanOutKeeps(p, es, sc, end, now, r);
  }

  lemma Unanswered(p: Params, es: seq<Entry>, sc: Scan, last: int, end: int, r: Log)
    requires Windowed(p) && Ordered(es) && SinceMsec(p) >= 0
    requires sc.unmatched.None? && Concluded(p, es, sc, BadTime(sc.log), r)
    requires sc.log == Between(p, es, SinceMsec(p) + 1, UntilMsec(p)) && sc.log != []
    requires last == sc.log[|sc.log| - 1].time && end == ReadTime(sc.log[|sc.log| - 1])
    requires !TimeIsRead(SnapshotHead(p, es) + sc.log, last)
    ensures !Answered(p, es, r)
  {
    ReadUpTo(p, es, sc, end, BadTime(sc.log), r);
    WindowEnd(p, es, SinceMsec(p) + 1, UntilMsec(p));
    UnreadWindow(p, es, SnapshotHead(p, es) + sc.log, sc.log, last, end, r);
  }

  lemma UnreadHead(p: Params, es: seq<Entry>, sc: Scan, now: int, r: Log)
    requires Windowed(p) && SinceMsec(p) >= 0 && sc.unmatched.None? && Concluded(p, es, sc, now, r)
    requires sc.log == [] && !HeadEndIsRead(p, es)
    ensures !Answered(p, es, r)
  {
    HeadTimes(p, es);
    assert SnapshotHead(p, es) + sc.log == SnapshotHead(p, es);
    RanOutKeeps(p, es, sc, 0, now, r);
    EndUnread(p, es, SnapshotHead(p, es), r);
  }

  lemma UnansweredAt(p: Params, es: seq<Entry>, sc: Scan, now: int, r: Log)
    requires Windowed(p) && Ordered(es) && SinceMsec(p) >= 0 && Scanning(p, es, sc) && !EndIsRead(p, es)
    requires Concluded(p, es, sc, now, r) && now == BadTime(sc.log)
    ensures !Answered(p, es, r)
  {
    if sc.log == [] {
      UnreadHead(p, es, sc, now, r);
    } else {
      Unanswered(p, es, sc, sc.log[|sc.log| - 1].time, ReadTime(sc.log[|sc.log| - 1]), r);
    }
  }

  lemma NotAlwaysAnswered(p: Params, es: seq<Entry>, now: int)
    requires Windowed(p) && Ordered(es) && SinceMsec(p) >= 0 && !Answerable(p, es)
    requires now == BadTime(ScanAll(p, START, es).log)
    ensures !Answered(p, es, GetLog(p, es, now))
  {
    StopsEarlyIff(p, es);
    ScanIsRight(p, es);
    GetLogConcludes(p, es, now);
    UnansweredAt(p, es, ScanAll(p, START, es), now, GetLog(p, es, now));
  }

  /**
   A dated query from 1970 on is answered at every time of day exactly if an entry stops it, or the rows that the
   header of an exhausted source is made from have paths.
   */
  lemma QueryAnswersIff(p: Params, es: seq<Entry>)
    requires Windowed(p) && Ordered(es) && SinceMsec(p) >= 0
    ensures Answerable(p, es) <==> forall now :: Answered(p, es, GetLog(p, es, now))
  {
    if Answerable(p, es) {
      forall now ensures Answered(p, es, GetLog(p, es, now)) {
        QueryAnswers(p, es, now);
      }
    } else {
      NotAlwaysAnswered(p, es, BadTime(ScanAll(p, START, es).log));
    }
  }
}
