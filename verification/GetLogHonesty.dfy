/** When the header of a query result claims more than its rows cover, and when it does not. */
module GetLogHonesty {
  import opened ByteStrings
  import RpcValues
  import opened Journals
  import opened GetLogs
  import opened GetLogTheorems
  import opened GetLogLimits

  /** What a client reads from a result. */
  ghost predicate Received(r: Log, got: seq<Entry>)
  {
    && |got| == |r.rows|
    && forall i | 0 <= i < |got| ::
         (r.rows[i].path.Indexed? ==> r.rows[i].path.index in r.dict) && Expand(r.dict, r.rows[i]) == got[i]
  }

  function AllAsRead(es: seq<Entry>): (r: seq<Entry>)
    ensures |r| == |es| && forall i | 0 <= i < |es| :: r[i] == AsRead(es[i])
  {
    seq(|es|, i requires 0 <= i < |es| => AsRead(es[i]))
  }

  /** What the rows of a snapshot can tell of it: nothing of the key without a path. */
  function Told(s: Snapshot): Snapshot { s - {[]} }

  /** The state after the matching history up to `since`, and then the window, as far as rows can tell them. */
  ghost function ReadHistory(p: Params, es: seq<Entry>, hi: int): Snapshot
  {
    Replay(Told(PastState(p, es)), AllAsRead(Between(p, es, SinceMsec(p) + 1, hi)))
  }

  /** The state that a client reaches from nothing by the rows is that of the history up to `until` as rows tell it. */
  ghost predicate ReplaysHistory(p: Params, es: seq<Entry>, r: Log, got: seq<Entry>)
  {
    && r.until.At?
    && (|| View(Replay(map[], got)) == View(ReadHistory(p, es, r.until.ms))
        || (View(Replay(map[], got)) == View(ReadHistory(p, es, r.until.ms + 1))
          && MatchesBefore(p, es, r.until.ms + 1)))
  }

  lemma AnsweredReplays(p: Params, es: seq<Entry>, r: Log, got: seq<Entry>)
    requires SendsSnapshot(p) && Answered(p, es, r) && r.rows != [] && Received(r, got)
    ensures ReplaysHistory(p, es, r, got)
  {
    if SinceMsec(p) < r.until.ms && Answers(p, es, r, r.until.ms) {
      AnswerReplays(p, es, r, r.until.ms, got);
    } else {
      AnswerReplays(p, es, r, r.until.ms + 1, got);
    }
  }

  /** A client that replays what it reads reaches the state of the matching history, as far as rows can tell it. */
  lemma QueryReplays(p: Params, es: seq<Entry>, now: int, got: seq<Entry>)
    requires Windowed(p) && Ordered(es) && Answerable(p, es) && SendsSnapshot(p)
    requires GetLog(p, es, now).rows != [] && Received(GetLog(p, es, now), got)
    ensures ReplaysHistory(p, es, GetLog(p, es, now), got)
  {
    QueryAnswers(p, es, now);
    AnsweredReplays(p, es, GetLog(p, es, now), got);
  }

  lemma AnswerReplays(p: Params, es: seq<Entry>, r: Log, hi: int, got: seq<Entry>)
    requires SendsSnapshot(p) && Answers(p, es, r, hi) && Received(r, got)
    ensures View(Replay(map[], got)) == View(ReadHistory(p, es, hi))
  {
    var log := Between(p, es, SinceMsec(p) + 1, hi);
    SplitReading(r, SnapshotHead(p, es), log, got);
    HeadReplays(p, es, AllAsRead(log), got);
  }

  lemma HeadReplays(p: Params, es: seq<Entry>, more: seq<Entry>, got: seq<Entry>)
    requires SendsSnapshot(p) && got == AllAsRead(SnapshotHead(p, es)) + more
    ensures View(Replay(map[], got)) == View(Replay(Told(PastState(p, es)), more))
  {
    PastIsWellKeyed(p, es);
    PartsReplay(PastState(p, es), SinceMsec(p), SnapshotHead(p, es), more, got);
  }

  lemma PartsReplay(s: Snapshot, time: int, head: seq<Entry>, more: seq<Entry>, got: seq<Entry>)
    requires WellKeyed(s) && head == SnapshotRows(s, time) && got == AllAsRead(head) + more
    ensures View(Replay(map[], got)) == View(Replay(Told(s), more))
  {
    SnapshotReads(s, time, more);
  }

  lemma SplitReading(r: Log, head: seq<Entry>, log: seq<Entry>, got: seq<Entry>)
    requires Delivers(r, head + log) && Received(r, got)
    ensures got == AllAsRead(head) + AllAsRead(log)
  {
    forall i | 0 <= i < |got| ensures got[i] == (AllAsRead(head) + AllAsRead(log))[i] {
      assert Reads(r.dict, r.rows[i], (head + log)[i]);
    }
  }

  lemma SnapshotRowsRead(s: Snapshot, time: int)
    requires WellKeyed(s) && [] !in s
    ensures AllAsRead(SnapshotRows(s, time)) == SnapshotRows(s, time)
  {
    forall i | 0 <= i < |SnapshotRows(s, time)| ensures AsRead(SnapshotRows(s, time)[i]) == SnapshotRows(s, time)[i] {
      SnapshotRowFrom(s, time, i);
    }
  }

  lemma FirstAsRead(first: Entry, rows: seq<Entry>)
    ensures AllAsRead([first] + rows) == [AsRead(first)] + AllAsRead(rows)
  {
    hide AsRead;
  }

  /** The row of the key without a path comes first and is read as nothing. */
  lemma PathlessRowFirst(s: Snapshot, time: int)
    requires WellKeyed(s) && [] in s
    ensures AllAsRead(SnapshotRows(s, time)) == [NO_ENTRY] + SnapshotRows(Told(s), time)
  {
    var k := LeastKey(s);
    assert AtMost(k, []);
    FirstRow(s, time, k);
    hide SnapshotRows, LeastKey, IsLeast;
    var first, rows := Stamped(s[k], time), SnapshotRows(Told(s), time);
    assert k == [] && AsRead(first) == NO_ENTRY;
    SnapshotRowsRead(Told(s), time);
    FirstAsRead(first, rows);
  }

  lemma NothingFirst(rows: seq<Entry>, more: seq<Entry>)
    ensures Replay(map[], [NO_ENTRY] + rows + more) == Replay(map[], rows + more)
  {
    assert [NO_ENTRY] + rows + more == [NO_ENTRY] + (rows + more);
    ReplayConcat(map[], [NO_ENTRY], rows + more);
    ReplaySingle(NO_ENTRY);
  }

  lemma SnapshotReads(s: Snapshot, time: int, more: seq<Entry>)
    requires WellKeyed(s)
    ensures View(Replay(map[], AllAsRead(SnapshotRows(s, time)) + more)) == View(Replay(Told(s), more))
  {
    SnapshotFirst(Told(s), time, more);
    if [] in s {
      PathlessRowFirst(s, time);
      NothingFirst(SnapshotRows(Told(s), time), more);
    } else {
      assert Told(s) == s;
      SnapshotRowsRead(s, time);
    }
  }

  // ---------------------------------------------------------------- what rows cannot tell

  /** Domains that a row cannot tell from that of a value change. */
  predicate Coded(domain: Bytes) { |domain| == 0 || IsC(domain) }

  predicate Tells(e: Entry) { |e.path| > 0 && !Coded(e.domain) }

  ghost predicate AllTell(es: seq<Entry>) { forall e | e in es :: Tells(e) }

  lemma NothingUntold(es: seq<Entry>)
    requires AllTell(es)
    ensures AllAsRead(es) == es
  {
    forall i | 0 <= i < |es| ensures AllAsRead(es)[i] == es[i] {
      assert es[i] in es;
    }
  }

  lemma ReadHistoryInParts(p: Params, es: seq<Entry>, hi: int)
    requires Below(p, es, hi) == Below(p, es, SinceMsec(p) + 1) + Between(p, es, SinceMsec(p) + 1, hi)
    requires [] !in PastState(p, es) && AllTell(Between(p, es, SinceMsec(p) + 1, hi))
    ensures ReadHistory(p, es, hi) == Replay(map[], Below(p, es, hi))
  {
    ReplayInParts(Below(p, es, SinceMsec(p) + 1), Between(p, es, SinceMsec(p) + 1, hi), Below(p, es, hi));
  }

  /** With no key without a path, and rows that tell all, this is the replay of the matching history itself. */
  lemma ReadHistoryIsHistory(p: Params, es: seq<Entry>, hi: int)
    requires Ordered(es) && SinceMsec(p) < hi
    requires [] !in PastState(p, es) && AllTell(Between(p, es, SinceMsec(p) + 1, hi))
    ensures ReadHistory(p, es, hi) == Replay(map[], Below(p, es, hi))
  {
    BelowSplits(p, es, SinceMsec(p) + 1, hi);
    ReadHistoryInParts(p, es, hi);
  }

  lemma ReplayInParts(past: seq<Entry>, log: seq<Entry>, all: seq<Entry>)
    requires [] !in Replay(map[], past) && AllTell(log) && all == past + log
    ensures Replay(Told(Replay(map[], past)), AllAsRead(log)) == Replay(map[], all)
  {
    NothingUntold(log);
    ReplayConcat(map[], past, log);
    assert Told(Replay(map[], past)) == Replay(map[], past);
  }

  lemma OnlyEntry(p: Params, e: Entry)
    requires p.matches(e) && SinceMsec(p) < e.time
    ensures Below(p, [e], e.time + 1) == [e] && Below(p, [e], SinceMsec(p) + 1) == []
    ensures Between(p, [e], SinceMsec(p) + 1, e.time + 1) == [e]
  {
    var none: seq<Entry> := [];
    assert [e] == none + [e];
    BelowOne(p, none, e, e.time + 1);
    BelowOne(p, none, e, SinceMsec(p) + 1);
    BetweenOne(p, none, e, SinceMsec(p) + 1, e.time + 1);
  }

  lemma ReplaySingle(e: Entry)
    ensures Replay(map[], [e]) == AddToSnapshot(map[], e)
  {
    assert [e][1..] == [];
  }

  lemma ReadsSingle(e: Entry)
    ensures Replay(Told(Replay(map[], [])), AllAsRead([e])) == AddToSnapshot(map[], AsRead(e))
  {
    ReplaySingle(AsRead(e));
    assert AllAsRead([e]) == [AsRead(e)];
    assert Told(map[]) == map[];
  }

  /** One entry with the domain C: the journal keeps no value for it, the client does. */
  lemma CodedEntryIsTakenOver(p: Params, e: Entry)
    requires p.matches(e) && SinceMsec(p) < e.time && Coded(e.domain) && !e.drop && e.path != []
    ensures Replay(map[], Below(p, [e], e.time + 1)) == map[] && e.path in ReadHistory(p, [e], e.time + 1)
  {
    OnlyEntry(p, e);
    ReplaySingle(e);
    ReadsSingle(e);
  }

  ghost predicate AllPathed(es: seq<Entry>) { forall e | e in es :: |e.path| > 0 }

  lemma PathedReplay(es: seq<Entry>)
    requires AllPathed(es)
    ensures [] !in Replay(map[], es)
  {
    ReplayWellKeyed(map[], es);
    if [] in Replay(map[], es) {
      ReplayedFrom(es, []);
    }
  }

  lemma PathedRows(s: Snapshot, time: int)
    requires WellKeyed(s) && [] !in s
    ensures AllPathed(SnapshotRows(s, time))
  {
    var rows := SnapshotRows(s, time);
    forall e | e in rows ensures |e.path| > 0 {
      var i :| 0 <= i < |rows| && rows[i] == e;
      SnapshotRowFrom(s, time, i);
    }
  }

  lemma PathedPast(p: Params, es: seq<Entry>)
    requires AllPathed(es)
    ensures [] !in PastState(p, es)
  {
    SelectedFrom(p, es, 0, SinceMsec(p) + 1);
    PathedReplay(Below(p, es, SinceMsec(p) + 1));
  }

  lemma PathedHead(p: Params, es: seq<Entry>)
    requires AllPathed(es)
    ensures AllPathed(SnapshotHead(p, es))
  {
    PathedPast(p, es);
    PastIsWellKeyed(p, es);
    PathedRows(PastState(p, es), SinceMsec(p));
  }

  lemma PathedTimes(es: seq<Entry>, time: int)
    requires AllPathed(es)
    ensures TimeIsRead(es, time) && (es != [] ==> ReadTime(es[|es| - 1]) == es[|es| - 1].time)
  {
    assert forall i | 0 <= i < |es| :: es[i] in es;
  }

  lemma PathedEnd(p: Params, es: seq<Entry>, head: seq<Entry>, window: seq<Entry>)
    requires head == SnapshotHead(p, es) && window == Between(p, es, SinceMsec(p) + 1, UntilMsec(p))
    requires AllPathed(head) && AllPathed(head + window)
    ensures EndIsRead(p, es)
  {
    HeadTimes(p, es);
    PathedTimes(head, 0);
    PathedTimes(head + window, if window == [] then 0 else window[|window| - 1].time);
  }

  /** Entries with paths are all read with their time. */
  lemma PathedIsAnswerable(p: Params, es: seq<Entry>)
    requires AllPathed(es)
    ensures Answerable(p, es)
  {
    PathedHead(p, es);
    SelectedFrom(p, es, SinceMsec(p) + 1, UntilMsec(p));
    PathedEnd(p, es, SnapshotHead(p, es), Between(p, es, SinceMsec(p) + 1, UntilMsec(p)));
  }

  /** The state that a client reaches from nothing by the rows is that of the whole matching history up to `until`. */
  ghost predicate Follows(p: Params, es: seq<Entry>, r: Log, got: seq<Entry>)
  {
    && r.until.At?
    && (|| View(Replay(map[], got)) == View(Replay(map[], Below(p, es, r.until.ms)))
        || (View(Replay(map[], got)) == View(Replay(map[], Below(p, es, r.until.ms + 1)))
          && MatchesBefore(p, es, r.until.ms + 1)))
  }

  /** Histories whose entries have paths, and domains that rows can tell or this one. */
  ghost predicate Speaks(es: seq<Entry>, domain: Bytes)
  {
    AllPathed(es) && forall e | e in es :: Coded(e.domain) ==> e.domain == domain
  }

  ghost predicate Asked(p: Params, es: seq<Entry>, now: int, r: Log, got: seq<Entry>)
  {
    Windowed(p) && SendsSnapshot(p) && Ordered(es) && r == GetLog(p, es, now) && r.rows != [] && Received(r, got)
  }

  lemma ToldHistory(p: Params, es: seq<Entry>, hi: int)
    requires Ordered(es) && SinceMsec(p) < hi && AllTell(es)
    ensures ReadHistory(p, es, hi) == Replay(map[], Below(p, es, hi))
  {
    PathedPast(p, es);
    SelectedFrom(p, es, SinceMsec(p) + 1, hi);
    ReadHistoryIsHistory(p, es, hi);
  }

  lemma ToldAnswerFollows(p: Params, es: seq<Entry>, r: Log, got: seq<Entry>)
    requires Ordered(es) && AllTell(es) && SendsSnapshot(p) && Answered(p, es, r) && r.rows != [] && Received(r, got)
    ensures Follows(p, es, r, got)
  {
    if SinceMsec(p) < r.until.ms && Answers(p, es, r, r.until.ms) {
      AnswerReplays(p, es, r, r.until.ms, got);
      ToldHistory(p, es, r.until.ms);
    } else {
      AnswerReplays(p, es, r, r.until.ms + 1, got);
      ToldHistory(p, es, r.until.ms + 1);
    }
  }

  lemma ToldHistoryFollows(p: Params, es: seq<Entry>, now: int, r: Log, got: seq<Entry>)
    requires Asked(p, es, now, r, got) && AllTell(es)
    ensures Follows(p, es, r, got)
  {
    PathedIsAnswerable(p, es);
    QueryAnswers(p, es, now);
    ToldAnswerFollows(p, es, r, got);
  }

  const ALL_ROWS := Params(At(0), Missing, 100, true, false, (e: Entry) => true)

  function CodedEntry(domain: Bytes): Entry
  {
    Entry(5, [97], RpcValues.Value([], RpcValues.Null), false, domain, false, false)
  }

  lemma OneEntryScan(p: Params, e: Entry)
    requires Windowed(p) && p.matches(e) && p.limit >= 1 && SinceMsec(p) < e.time < UntilMsec(p)
    ensures var sc := ScanAll(p, START, [e]); sc.log == [e] && sc.unmatched.None?
  {
    OwnLimitCounts(p, [e]);
    ScanIsRight(p, [e]);
  }

  lemma OneEntryOutcome(p: Params, e: Entry, sc: Scan, now: int, r: Log)
    requires p.matches(e) && SinceMsec(p) < e.time && sc.log == [e] && sc.unmatched.None? && !TooRecent(e.time, now)
    requires Outcome(p, [e], sc, now, r)
    ensures Delivers(r, [e]) && r.until == At(e.time)
  {
    OnlyEntry(p, e);
    assert SnapshotHead(p, [e]) == [];
    var none: seq<Entry> := [];
    assert none + [e] == [e];
  }

  lemma OneEntryAnswer(p: Params, e: Entry, now: int, r: Log)
    requires Windowed(p) && p.matches(e) && p.limit >= 1 && SinceMsec(p) < e.time < UntilMsec(p) && e.path != []
    requires !TooRecent(e.time, now) && r == GetLog(p, [e], now)
    ensures Delivers(r, [e]) && r.until == At(e.time) && Ordered([e])
  {
    OneEntryScan(p, e);
    PathedIsAnswerable(p, [e]);
    GetLogOutcome(p, [e], now);
    OneEntryOutcome(p, e, ScanAll(p, START, [e]), now, r);
  }

  /** The entry leaves nothing in the history, and its value with the client. */
  lemma CodedIsShown(e: Entry)
    requires Coded(e.domain) && !e.drop && e.path != []
    ensures View(Replay(map[], [AsRead(e)])) != map[] && View(Replay(map[], [e])) == map[] == View(Replay(map[], []))
  {
    ReplaySingle(e);
    ReplaySingle(AsRead(e));
    assert e.path in View(Replay(map[], [AsRead(e)]));
  }

  lemma CodedMisleads(p: Params, e: Entry, r: Log)
    requires p.matches(e) && SinceMsec(p) < e.time && Coded(e.domain) && !e.drop && e.path != []
    requires r.until == At(e.time)
    ensures !Follows(p, [e], r, [AsRead(e)])
  {
    var none: seq<Entry> := [];
    assert [e] == none + [e];
    BelowOne(p, none, e, e.time);
    BelowOne(p, none, e, e.time + 1);
    CodedIsShown(e);
  }

  /** The domains that never mislead a client, over any history of entries with paths: all but none and C. */
  lemma DomainIsSafeIff(domain: Bytes)
    ensures !Coded(domain) <==>
      forall p, es, now, r, got | Asked(p, es, now, r, got) && Speaks(es, domain) :: Follows(p, es, r, got)
  {
    if !Coded(domain) {
      forall p, es, now, r, got | Asked(p, es, now, r, got) && Speaks(es, domain) ensures Follows(p, es, r, got) {
        ToldHistoryFollows(p, es, now, r, got);
      }
    } else {
      var p, e := ALL_ROWS, CodedEntry(domain);
      var r := GetLog(p, [e], 5000);
      OneEntryAnswer(p, e, 5000, r);
      assert Reads(r.dict, r.rows[0], [e][0]);
      assert Asked(p, [e], 5000, r, [AsRead(e)]) && Speaks([e], domain);
      CodedMisleads(p, e, r);
    }
  }

  // ---------------------------------------------------------------- lost rows

  /** All entries have one timestamp. */
  ghost predicate AtOnce(log: seq<Entry>) { forall i | 0 <= i < |log| :: log[i].time == log[0].time }

  /** Rows in the window go unanswered: the limit stops the query before its first row, or all rows are taken back. */
  ghost predicate Loses(p: Params, es: seq<Entry>, now: int)
  {
    var past, log := Below(p, es, SinceMsec(p) + 1), Between(p, es, SinceMsec(p) + 1, UntilMsec(p));
    && SnapshotHead(p, es) == [] && log != []
    && (|| (past != [] && |PastState(p, es)| + 1 > p.limit)
        || (MatchesBefore(p, es, UntilMsec(p)) && TooRecent(log[0].time, now) && AtOnce(log)))
  }

  /** Room for the first row, given what the snapshot takes. */
  ghost predicate FirstRowFits(p: Params, es: seq<Entry>)
  {
    var past := Below(p, es, SinceMsec(p) + 1);
    past == [] || |PastState(p, es)| + 1 <= p.limit
  }

  lemma {:induction false} NoMatchNothingBelow(p: Params, es: seq<Entry>, hi: int)
    requires forall i | 0 <= i < |es| :: !p.matches(es[i])
    ensures Below(p, es, hi) == []
  {
    if es != [] {
      NoMatchNothingBelow(p, es[..|es| - 1], hi);
    }
  }

  lemma FirstAppend(p: Params, es: seq<Entry>, sc: Scan, e: Entry)
    requires Windowed(p) && Ordered(es + [e]) && Scanned(p, es, sc) && !sc.done && sc.log == []
    requires Examine(p, sc, e).log != []
    ensures FirstRowFits(p, es)
  {
    ExamineCases(p, sc, e);
    if sc.last.None? {
      NoMatchNothingBelow(p, es, SinceMsec(p) + 1);
    } else {
      var i :| 0 <= i < |es| && es[i] == sc.last.value;
      SelectsAll(p, es, SinceMsec(p) + 1, UntilMsec(p), i);
    }
  }

  lemma PastIsFixed(p: Params, es: seq<Entry>, e: Entry)
    requires SinceMsec(p) < e.time
    ensures FirstRowFits(p, es + [e]) <==> FirstRowFits(p, es)
  {
    BelowOne(p, es, e, SinceMsec(p) + 1);
  }

  /** Once a row is in the log, later entries are newer than `since`. */
  lemma LogIsPastSince(p: Params, es: seq<Entry>, sc: Scan, e: Entry)
    requires Windowed(p) && Ordered(es + [e]) && Scanned(p, es, sc) && (sc.log != [] || sc.done)
    ensures SinceMsec(p) < e.time
  {
    LastIsNewest(es, e);
    if !sc.done {
      SelectedFrom(p, es, SinceMsec(p) + 1, UntilMsec(p));
      assert sc.log[0] in sc.log && sc.log[0] in es;
    }
  }

  lemma {:induction false} LoggedOnlyIfFits(p: Params, es: seq<Entry>)
    requires Windowed(p) && Ordered(es) && ScanAll(p, START, es).log != []
    ensures FirstRowFits(p, es)
  {
    var older, e := es[..|es| - 1], es[|es| - 1];
    assert es == older + [e];
    var sc := ScanAll(p, START, older);
    ScanIsRight(p, older);
    if sc.log != [] {
      LoggedOnlyIfFits(p, older);
      LogIsPastSince(p, older, sc, e);
    } else {
      FirstAppend(p, older, sc, e);
    }
    PastIsFixed(p, older, e);
  }

  lemma EmptyAnswer(p: Params, es: seq<Entry>, r: Log, hi: int)
    requires Answers(p, es, r, hi)
    ensures r.rows == [] <==> SnapshotHead(p, es) == [] && Between(p, es, SinceMsec(p) + 1, hi) == []
  {
  }

  /** An entry taken over without a row is not after `since`. */
  lemma LastIsPast(p: Params, es: seq<Entry>, sc: Scan)
    requires Windowed(p) && Scanned(p, es, sc) && !sc.done && sc.log == [] && sc.last.Some?
    ensures Below(p, es, SinceMsec(p) + 1) != []
  {
    hide PastState, Between, Below;
    var i :| 0 <= i < |es| && es[i] == sc.last.value;
    SelectsAll(p, es, SinceMsec(p) + 1, UntilMsec(p), i);
    SelectsAll(p, es, 0, SinceMsec(p) + 1, i);
  }

  lemma LimitStops(p: Params, es: seq<Entry>, sc: Scan, e: Entry)
    requires Windowed(p) && Ordered(es + [e]) && Scanned(p, es, sc) && !sc.done && sc.log == []
    requires Examine(p, sc, e).done && p.matches(e) && SinceMsec(p) < e.time < UntilMsec(p)
    ensures !FirstRowFits(p, es)
  {
    LastIsPast(p, es, sc);
  }

  /** A scan that stops before its first row, but not at `until`, had no room for that row. */
  lemma {:induction false} LimitStopped(p: Params, es: seq<Entry>)
    requires Windowed(p) && Ordered(es)
    requires var sc := ScanAll(p, START, es);
      sc.done && sc.log == [] && sc.unmatched.Some? && sc.unmatched.value.time < UntilMsec(p)
    ensures !FirstRowFits(p, es)
  {
    var older, e := es[..|es| - 1], es[|es| - 1];
    assert es == older + [e];
    var sc := ScanAll(p, START, older);
    ScanIsRight(p, older);
    if sc.done {
      LimitStopped(p, older);
      LogIsPastSince(p, older, sc, e);
    } else {
      LimitStops(p, older, sc, e);
    }
    PastIsFixed(p, older, e);
  }

  lemma {:induction false} SameBetweenUpTo(p: Params, es: seq<Entry>, lo: int, hi: int, more: int)
    requires hi <= more && Between(p, es, lo, more) == []
    ensures Between(p, es, lo, hi) == []
  {
    if es != [] {
      SameBetweenUpTo(p, es[..|es| - 1], lo, hi, more);
    }
  }

  /** Stopped with rows in the window: the answer is empty exactly if the first row did not fit. */
  lemma StoppedLoses(p: Params, es: seq<Entry>, now: int, r: Log)
    requires Windowed(p) && Ordered(es) && ScanAll(p, START, es).done && Outcome(p, es, ScanAll(p, START, es), now, r)
    requires Between(p, es, SinceMsec(p) + 1, UntilMsec(p)) != []
    ensures r.rows == [] <==> Loses(p, es, now)
  {
    var sc, lo, hi := ScanAll(p, START, es), SinceMsec(p) + 1, UntilMsec(p);
    var log := Between(p, es, lo, hi);
    ScanIsRight(p, es);
    var x := sc.unmatched.value;
    EmptyAnswer(p, es, r, x.time);
    if sc.log != [] {
      LoggedOnlyIfFits(p, es);
      if MatchesBefore(p, es, hi) && AtOnce(log) {
        OneTimestamp(p, es, lo, hi, x);
      }
    } else {
      SelectedFrom(p, es, lo, hi);
      assert log[0] in log;
      if x.time >= hi {
        SameBetweenUpTo(p, es, lo, hi, x.time);
      }
      LimitStopped(p, es);
    }
  }

  /** A window of one timestamp has nothing in front of any of its entries. */
  lemma OneTimestamp(p: Params, es: seq<Entry>, lo: int, hi: int, x: Entry)
    requires x in es && p.matches(x) && lo <= x.time < hi
    requires var log := Between(p, es, lo, hi); AtOnce(log)
    ensures Between(p, es, lo, x.time) == []
  {
    var i :| 0 <= i < |es| && es[i] == x;
    SelectsAll(p, es, lo, hi, i);
    forall e | e in Between(p, es, lo, hi) ensures e.time == x.time {
    }
    AllAt(p, es, lo, hi, x.time);
  }

  lemma {:induction false} AllAt(p: Params, es: seq<Entry>, lo: int, hi: int, time: int)
    requires time < hi && forall e | e in Between(p, es, lo, hi) :: e.time == time
    ensures Between(p, es, lo, time) == []
  {
    if es != [] {
      var older, e := es[..|es| - 1], es[|es| - 1];
      assert es == older + [e];
      BetweenOne(p, older, e, lo, hi);
      BetweenOne(p, older, e, lo, time);
      AllAt(p, older, lo, hi, time);
      if p.matches(e) && lo <= e.time < hi {
        assert e in Between(p, es, lo, hi);
      }
    }
  }

  /** Taking back the newest timestamp leaves nothing exactly if it was the only one. */
  lemma NothingRemains(p: Params, es: seq<Entry>, lo: int, hi: int, log: seq<Entry>)
    requires Ordered(es) && log == Between(p, es, lo, hi) && log != []
    ensures Between(p, es, lo, log[|log| - 1].time) == [] <==> AtOnce(log)
  {
    var last := log[|log| - 1];
    assert last in log;
    SelectedFrom(p, es, lo, hi);
    WindowEnd(p, es, lo, hi);
    if AtOnce(log) {
      OneTimestamp(p, es, lo, hi, last);
    } else {
      EarlierRemains(p, es, lo, hi, log, last.time);
    }
  }

  /** Ran out with rows in the window: the answer is empty exactly if all of them are taken back. */
  lemma RanOutLoses(p: Params, es: seq<Entry>, now: int, r: Log)
    requires Windowed(p) && Ordered(es) && !ScanAll(p, START, es).done && Outcome(p, es, ScanAll(p, START, es), now, r)
    requires Between(p, es, SinceMsec(p) + 1, UntilMsec(p)) != []
    ensures r.rows == [] <==> Loses(p, es, now)
  {
    var sc := ScanAll(p, START, es);
    RanOutLosesIff(p, es, now, sc);
    EmptyAnswer(p, es, r, EndOf(p, sc, now));
  }

  lemma RanOutLosesIff(p: Params, es: seq<Entry>, now: int, sc: Scan)
    requires Windowed(p) && Ordered(es) && sc == ScanAll(p, START, es) && !sc.done
    requires Between(p, es, SinceMsec(p) + 1, UntilMsec(p)) != []
    ensures Loses(p, es, now) <==>
      SnapshotHead(p, es) == [] && Between(p, es, SinceMsec(p) + 1, EndOf(p, sc, now)) == []
  {
    ScanIsRight(p, es);
    LoggedOnlyIfFits(p, es);
    EndIsLast(p, es, sc, now);
    LosesIfRecent(p, es, now, sc.log);
  }

  /** With room for the first row and nothing at `until` or later, rows are lost only by being taken back. */
  lemma LosesIfRecent(p: Params, es: seq<Entry>, now: int, log: seq<Entry>)
    requires FirstRowFits(p, es) && MatchesBefore(p, es, UntilMsec(p))
    requires log == Between(p, es, SinceMsec(p) + 1, UntilMsec(p)) && log != []
    ensures Loses(p, es, now) <==> SnapshotHead(p, es) == [] && TooRecent(log[|log| - 1].time, now) && AtOnce(log)
  {
    assert AtOnce(log) ==> log[|log| - 1].time == log[0].time;
  }

  /** Nothing remains of a window exactly if its newest timestamp is taken back and is the only one. */
  lemma EndIsLast(p: Params, es: seq<Entry>, sc: Scan, now: int)
    requires Ordered(es) && sc.log == Between(p, es, SinceMsec(p) + 1, UntilMsec(p)) && sc.log != []
    requires sc.unmatched.None?
    ensures Between(p, es, SinceMsec(p) + 1, EndOf(p, sc, now)) == [] <==>
      TooRecent(sc.log[|sc.log| - 1].time, now) && AtOnce(sc.log)
  {
    NothingRemains(p, es, SinceMsec(p) + 1, UntilMsec(p), sc.log);
    WindowEnd(p, es, SinceMsec(p) + 1, UntilMsec(p));
  }

  /** A window of several timestamps keeps something when the newest one is taken back. */
  lemma EarlierRemains(p: Params, es: seq<Entry>, lo: int, hi: int, log: seq<Entry>, last: int)
    requires log == Between(p, es, lo, hi) && (forall e | e in log :: e.time <= last)
    requires !AtOnce(log)
    ensures Between(p, es, lo, last) != []
  {
    var i :| 0 <= i < |log| && log[i].time != log[0].time;
    var e := if log[i].time < log[0].time then log[i] else log[0];
    assert log[i] in log && log[0] in log && e in log;
    SelectedFrom(p, es, lo, hi);
    var k :| 0 <= k < |es| && es[k] == e;
    SelectsAll(p, es, lo, last, k);
  }

  ghost predicate Has(r: Log, e: Entry)
  {
    exists i | 0 <= i < |r.rows| :: Reads(r.dict, r.rows[i], e)
  }

  /** Every matching entry of the window up to `until` of the header is among the rows. */
  ghost predicate Honest(p: Params, es: seq<Entry>, r: Log)
  {
    r.until.At? ==>
      var window := Between(p, es, SinceMsec(p) + 1, r.until.ms);
      forall i | 0 <= i < |window| :: Has(r, window[i])
  }

  lemma DeliversEach(r: Log, es: seq<Entry>, i: nat)
    requires Delivers(r, es) && i < |es|
    ensures Has(r, es[i])
  {
  }

  lemma AnswerIsHonest(p: Params, es: seq<Entry>, r: Log, hi: int)
    requires r.until.At? && r.until.ms <= hi && Answers(p, es, r, hi)
    ensures Honest(p, es, r)
  {
    var window := Between(p, es, SinceMsec(p) + 1, r.until.ms);
    SelectedFrom(p, es, SinceMsec(p) + 1, r.until.ms);
    forall j | 0 <= j < |window| ensures Has(r, window[j]) {
      assert window[j] in window;
      var k :| 0 <= k < |es| && es[k] == window[j];
      SelectsAll(p, es, SinceMsec(p) + 1, hi, k);
      var sent := SnapshotHead(p, es) + Between(p, es, SinceMsec(p) + 1, hi);
      assert es[k] in Between(p, es, SinceMsec(p) + 1, hi);
      assert window[j] in sent;
      var i :| 0 <= i < |sent| && sent[i] == window[j];
      DeliversEach(r, sent, i);
    }
  }

  lemma HonestAnswer(p: Params, es: seq<Entry>, r: Log)
    requires Windowed(p) && Answered(p, es, r)
    ensures Honest(p, es, r) <==>
      !(p.until.At? && r.rows == [] && Between(p, es, SinceMsec(p) + 1, UntilMsec(p)) != [])
  {
    if r.rows != [] {
      AnswerIsHonest(p, es, r, if Answers(p, es, r, r.until.ms) then r.until.ms else r.until.ms + 1);
    } else if p.until.Missing? {
      NoWindow(p, es, SinceMsec(p) + 1, SinceMsec(p));
    } else if p.until.At? {
      var window := Between(p, es, SinceMsec(p) + 1, UntilMsec(p));
      assert window != [] ==> !Has(r, window[0]);
    }
  }

  lemma LosesIffEmpty(p: Params, es: seq<Entry>, now: int, r: Log)
    requires Windowed(p) && Ordered(es) && Outcome(p, es, ScanAll(p, START, es), now, r)
    ensures Loses(p, es, now) <==> r.rows == [] && Between(p, es, SinceMsec(p) + 1, UntilMsec(p)) != []
  {
    if Between(p, es, SinceMsec(p) + 1, UntilMsec(p)) == [] {
      NoWindowNoLoss(p, es, now);
    } else if ScanAll(p, START, es).done {
      StoppedLoses(p, es, now, r);
    } else {
      RanOutLoses(p, es, now, r);
    }
  }

  lemma NoWindowNoLoss(p: Params, es: seq<Entry>, now: int)
    requires Between(p, es, SinceMsec(p) + 1, UntilMsec(p)) == []
    ensures !Loses(p, es, now)
  {
  }

  /** The header never claims rows that are missing, except when rows are lost and the caller had set `until`. */
  lemma HonestIff(p: Params, es: seq<Entry>, now: int)
    requires Windowed(p) && Ordered(es) && Answerable(p, es)
    ensures Honest(p, es, GetLog(p, es, now)) <==> !(p.until.At? && Loses(p, es, now))
  {
    GetLogOutcome(p, es, now);
    LosesIffEmpty(p, es, now, GetLog(p, es, now));
    QueryAnswers(p, es, now);
    HonestAnswer(p, es, GetLog(p, es, now));
  }

  lemma {:induction false} NoWindow(p: Params, es: seq<Entry>, lo: int, hi: int)
    requires hi <= lo
    ensures Between(p, es, lo, hi) == []
  {
    if es != [] {
      NoWindow(p, es[..|es| - 1], lo, hi);
    }
  }

  lemma OneEntryLoses(p: Params, e: Entry, now: int)
    requires p.since == At(0) && p.until == At(10000) && !p.withSnapshot && p.matches(e)
    requires e.time == 5000 && e.path != [] && TooRecent(5000, now)
    ensures Loses(p, [e], now)
  {
  }

  /** One entry, logged half a second ago: an empty answer whose header says that there is nothing until 10000. */
  lemma LostRow(e: Entry)
    requires e.time == 5000 && e.path != []
    ensures var p := Params(At(0), At(10000), 100, false, true, (x: Entry) => true);
      var r := GetLog(p, [e], 5500);
      r.rows == [] && r.until == At(10000) && !Honest(p, [e], r)
  {
    var p := Params(At(0), At(10000), 100, false, true, (x: Entry) => true);
    OneEntryLoses(p, e, 5500);
    PathedIsAnswerable(p, [e]);
    GetLogOutcome(p, [e], 5500);
    LosesIffEmpty(p, [e], 5500, GetLog(p, [e], 5500));
    HonestIff(p, [e], 5500);
    QueryAnswers(p, [e], 5500);
  }
}
