/** What the record count limit of a query guarantees. */
module GetLogLimits {
  import opened ByteStrings
  import RpcValues
  import opened Journals
  import opened GetLogs
  import opened GetLogTheorems

  /** The entries that a query could send as log rows, and those that make its snapshot. */
  function Window(p: Params, es: seq<Entry>): seq<Entry> { Between(p, es, SinceMsec(p) + 1, UntilMsec(p)) }

  function Past(p: Params, es: seq<Entry>): seq<Entry> { Below(p, es, SinceMsec(p) + 1) }

  /** How many keys the snapshot takes, whether it is sent or not. */
  function Taken(p: Params, es: seq<Entry>): nat { |Replay(map[], Past(p, es))| }

  /** With this row there would be more than the limit allows. */
  predicate Exceeds(p: Params, taken: nat, i: nat) { taken + i + 1 > p.limit }

  /** Row `i` begins a new timestamp; the first one does if anything was read before it. */
  predicate NewTime(window: seq<Entry>, past: bool, i: nat)
    requires i < |window|
  {
    if i == 0 then past else window[i].time != window[i - 1].time
  }

  /**
   The log is the window up to its first row that both exceeds the limit and begins a new timestamp; the flag is set
   exactly if that row, or another one beyond the limit, was met.
   */
  ghost predicate Limited(p: Params, window: seq<Entry>, taken: nat, past: bool, log: seq<Entry>, limitHit: bool)
  {
    && log <= window
    && (forall i | 0 <= i < |log| :: !(Exceeds(p, taken, i) && NewTime(window, past, i)))
    && (|log| < |window| ==> Exceeds(p, taken, |log|) && NewTime(window, past, |log|))
    && (limitHit <==> |log| < |window| || (log != [] && Exceeds(p, taken, |log| - 1)))
  }

  /** What the scan remembers of the last matching entry. */
  ghost predicate Remembers(window: seq<Entry>, past: bool, last: Option<Entry>)
  {
    if window == [] then last.Some? <==> past else last == Some(window[|window| - 1])
  }

  lemma LimitedStays(p: Params, window: seq<Entry>, taken: nat, past: bool, log: seq<Entry>, limitHit: bool, e: Entry)
    requires Limited(p, window, taken, past, log, limitHit) && |log| < |window|
    ensures Limited(p, window + [e], taken, past, log, limitHit)
  {
    assert forall i | 0 <= i < |window| :: NewTime(window + [e], past, i) <==> NewTime(window, past, i);
  }

  /** One more entry of the window, when all before it were taken. */
  lemma LimitedGrows(p: Params, window: seq<Entry>, taken: nat, past: bool, hit: bool, e: Entry, last: Option<Entry>)
    requires Limited(p, window, taken, past, window, hit) && Remembers(window, past, last)
    requires last.Some? && window == [] ==> last.value.time < e.time
    ensures var exceeds := taken + |window| + 1 > p.limit;
      var stops := exceeds && last.Some? && e.time != last.value.time;
      Limited(p, window + [e], taken, past, if stops then window else window + [e], hit || exceeds)
  {
    var more := window + [e];
    assert forall i | 0 <= i < |window| :: NewTime(more, past, i) <==> NewTime(window, past, i);
  }

  /** A stop at `until` leaves nothing of the window out. */
  lemma StoppedByUntil(p: Params, es: seq<Entry>, sc: Scan)
    requires Stopped(p, es, sc) && sc.log == Window(p, es)
    ensures sc.unmatched.value.time >= UntilMsec(p)
  {
    var x := sc.unmatched.value;
    var i :| 0 <= i < |es| && es[i] == x;
    SelectsAll(p, es, SinceMsec(p) + 1, UntilMsec(p), i);
    SelectedFrom(p, es, SinceMsec(p) + 1, x.time);
  }

  ghost predicate ScanLimited(p: Params, es: seq<Entry>, sc: Scan)
  {
    && Limited(p, Window(p, es), Taken(p, es), Past(p, es) != [], sc.log, sc.limitHit)
    && (!sc.done ==> sc.log == Window(p, es) && Remembers(Window(p, es), Past(p, es) != [], sc.last))
  }

  /** An entry that does not belong to the window and is newer than `since`, or does not match. */
  lemma OutsideWindow(p: Params, es: seq<Entry>, e: Entry)
    requires !p.matches(e) || e.time >= UntilMsec(p)
    requires Windowed(p)
    ensures Window(p, es + [e]) == Window(p, es) && Past(p, es + [e]) == Past(p, es)
  {
    BetweenOne(p, es, e, SinceMsec(p) + 1, UntilMsec(p));
    BelowOne(p, es, e, SinceMsec(p) + 1);
  }

  lemma InWindow(p: Params, es: seq<Entry>, e: Entry)
    requires p.matches(e) && SinceMsec(p) < e.time < UntilMsec(p)
    ensures Window(p, es + [e]) == Window(p, es) + [e] && Past(p, es + [e]) == Past(p, es)
  {
    BetweenOne(p, es, e, SinceMsec(p) + 1, UntilMsec(p));
    BelowOne(p, es, e, SinceMsec(p) + 1);
  }

  /** A past entry comes before all of the window. */
  lemma BeforeWindow(p: Params, es: seq<Entry>, e: Entry)
    requires Ordered(es + [e]) && p.matches(e) && e.time <= SinceMsec(p)
    ensures Window(p, es + [e]) == Window(p, es) == [] && Past(p, es + [e]) == Past(p, es) + [e]
  {
    LastIsNewest(es, e);
    NothingFrom(p, es, SinceMsec(p) + 1, UntilMsec(p));
    BetweenOne(p, es, e, SinceMsec(p) + 1, UntilMsec(p));
    BelowOne(p, es, e, SinceMsec(p) + 1);
  }

  lemma AfterStop(p: Params, es: seq<Entry>, sc: Scan, e: Entry)
    requires Windowed(p) && Ordered(es + [e]) && Scanned(p, es, sc) && sc.done && ScanLimited(p, es, sc)
    ensures ScanLimited(p, es + [e], sc)
  {
    var x := sc.unmatched.value;
    LastIsNewest(es, e);
    assert x in es && SinceMsec(p) < x.time <= e.time;
    if !p.matches(e) || e.time >= UntilMsec(p) {
      OutsideWindow(p, es, e);
    } else {
      InWindow(p, es, e);
      if sc.log == Window(p, es) {
        StoppedByUntil(p, es, sc);
        assert false;
      }
      LimitedStays(p, Window(p, es), Taken(p, es), Past(p, es) != [], sc.log, sc.limitHit, e);
    }
  }

  lemma TakesPast(p: Params, es: seq<Entry>, sc: Scan, e: Entry)
    requires Windowed(p) && Ordered(es + [e]) && !sc.done && ScanLimited(p, es, sc)
    requires p.matches(e) && e.time <= SinceMsec(p)
    ensures ScanLimited(p, es + [e], Examine(p, sc, e))
  {
    BeforeWindow(p, es, e);
    ExamineCases(p, sc, e);
  }

  lemma TakesWindow(p: Params, es: seq<Entry>, sc: Scan, e: Entry)
    requires Windowed(p) && Ordered(es + [e]) && Scanned(p, es, sc) && !sc.done && ScanLimited(p, es, sc)
    requires p.matches(e) && SinceMsec(p) < e.time < UntilMsec(p)
    ensures ScanLimited(p, es + [e], Examine(p, sc, e))
  {
    InWindow(p, es, e);
    if sc.last.Some? && Window(p, es) == [] {
      LastIsOld(p, es, sc);
    }
    LimitedGrows(p, Window(p, es), Taken(p, es), Past(p, es) != [], sc.limitHit, e, sc.last);
  }

  /** With an empty window, the last entry seen is not after `since`. */
  lemma LastIsOld(p: Params, es: seq<Entry>, sc: Scan)
    requires Windowed(p) && Scanned(p, es, sc) && !sc.done && sc.last.Some? && Window(p, es) == []
    ensures sc.last.value.time <= SinceMsec(p)
  {
    var i :| 0 <= i < |es| && es[i] == sc.last.value;
    SelectsAll(p, es, SinceMsec(p) + 1, UntilMsec(p), i);
  }

  lemma ExamineIsLimited(p: Params, es: seq<Entry>, sc: Scan, e: Entry)
    requires Windowed(p) && Ordered(es + [e]) && Scanned(p, es, sc) && !sc.done && ScanLimited(p, es, sc)
    ensures ScanLimited(p, es + [e], Examine(p, sc, e))
  {
    if !p.matches(e) || e.time >= UntilMsec(p) {
      OutsideWindow(p, es, e);
    } else if e.time <= SinceMsec(p) {
      TakesPast(p, es, sc, e);
    } else {
      TakesWindow(p, es, sc, e);
    }
  }

  lemma {:induction false} ScanIsLimited(p: Params, es: seq<Entry>)
    requires Windowed(p) && Ordered(es)
    ensures ScanLimited(p, es, ScanAll(p, START, es))
  {
    if es != [] {
      var older, e := es[..|es| - 1], es[|es| - 1];
      assert es == older + [e];
      var sc := ScanAll(p, START, older);
      ScanIsRight(p, older);
      ScanIsLimited(p, older);
      if sc.done {
        AfterStop(p, older, sc, e);
      } else {
        ExamineIsLimited(p, older, sc, e);
      }
    }
  }

  /** The limit of a dated query, exactly. */
  lemma LimitIsExact(p: Params, es: seq<Entry>)
    requires Windowed(p) && Ordered(es)
    ensures var sc := ScanAll(p, START, es);
      Limited(p, Window(p, es), Taken(p, es), Past(p, es) != [], sc.log, sc.limitHit)
  {
    ScanIsLimited(p, es);
  }

  /** There is only one log that satisfies the limit. */
  lemma LimitDecides(p: Params, window: seq<Entry>, taken: nat, past: bool,
                     a: seq<Entry>, x: bool, b: seq<Entry>, y: bool)
    requires Limited(p, window, taken, past, a, x) && Limited(p, window, taken, past, b, y)
    ensures a == b && x == y
  {
  }

  /** Rows beyond the limit all have the timestamp of the row before them. */
  lemma BeyondLimit(p: Params, es: seq<Entry>, i: nat)
    requires Windowed(p) && Ordered(es) && 0 < i < |ScanAll(p, START, es).log| && Exceeds(p, Taken(p, es), i)
    ensures var log := ScanAll(p, START, es).log; log[i].time == log[i - 1].time
  {
    LimitIsExact(p, es);
    var log, window := ScanAll(p, START, es).log, Window(p, es);
    assert log[i] == window[i] && log[i - 1] == window[i - 1];
    assert !(Exceeds(p, Taken(p, es), i) && NewTime(window, Past(p, es) != [], i));
  }

  // ---------------------------------------------------------------- queries that are answered

  /** Row `i` of the window exceeds the limit and begins a new timestamp. */
  ghost predicate StopsAtRow(p: Params, es: seq<Entry>, i: nat)
  {
    i < |Window(p, es)| && Exceeds(p, Taken(p, es), i) && NewTime(Window(p, es), Past(p, es) != [], i)
  }

  /** The source goes on at `until` or later, or the limit stops the query before. */
  ghost predicate StopsEarly(p: Params, es: seq<Entry>)
  {
    !MatchesBefore(p, es, UntilMsec(p)) || exists i :: StopsAtRow(p, es, i)
  }

  /** A dated scan stops before the source ends exactly if there is an entry that stops it. */
  lemma StopsEarlyIff(p: Params, es: seq<Entry>)
    requires Windowed(p) && Ordered(es)
    ensures ScanAll(p, START, es).done <==> StopsEarly(p, es)
  {
    var sc := ScanAll(p, START, es);
    ScanIsRight(p, es);
    ScanIsLimited(p, es);
    if sc.done {
      if sc.log == Window(p, es) {
        StoppedByUntil(p, es, sc);
      } else {
        assert StopsAtRow(p, es, |sc.log|);
      }
    }
  }

  /** The source stops the query early, or ends with rows that are read with their time. */
  ghost predicate Answerable(p: Params, es: seq<Entry>) { StopsEarly(p, es) || EndIsRead(p, es) }

  lemma GetLogOutcome(p: Params, es: seq<Entry>, now: int)
    requires Windowed(p) && Ordered(es) && Answerable(p, es)
    ensures Outcome(p, es, ScanAll(p, START, es), now, GetLog(p, es, now))
  {
    StopsEarlyIff(p, es);
    ScanOutcome(p, es, now);
  }

  /** Every answerable query is answered: with all rows of its period, and no timestamp split. */
  lemma QueryAnswers(p: Params, es: seq<Entry>, now: int)
    requires Windowed(p) && Ordered(es) && Answerable(p, es)
    ensures Answered(p, es, GetLog(p, es, now))
  {
    StopsEarlyIff(p, es);
    ScanAnswers(p, es, now);
  }

  // ---------------------------------------------------------------- the limit in the header

  /** `DEFAULT_GET_LOG_RECORD_COUNT_LIMIT`, and the largest `int`. */
  const DEFAULT_LIMIT := 10_000
  const NO_LIMIT := 0x7fff_ffff

  /** The record count limit that the header names. */
  function HeaderLimit(p: Params, ignoreLimit: bool): int
  {
    if ignoreLimit then NO_LIMIT else if p.limit < DEFAULT_LIMIT then p.limit else DEFAULT_LIMIT
  }

  /** A limit that the scan of a source obeys. */
  ghost predicate Obeys(p: Params, es: seq<Entry>, limit: int)
  {
    var sc := ScanAll(p, START, es);
    Limited(p.(limit := limit), Window(p, es), Taken(p, es), Past(p, es) != [], sc.log, sc.limitHit)
  }

  function KeyOf(n: nat): (path: Path)
    ensures |path| == n
  {
    seq(n, i => 97)
  }

  function ChangeAt(time: int, path: Path): Entry
  {
    Entry(time, path, RpcValues.Value([], RpcValues.Null), false, VAL_CHANGE, false, false)
  }

  /** Changes of `n` different keys at one time. */
  function Keys(n: nat, time: int): (es: seq<Entry>)
    ensures |es| == n && forall i | 0 <= i < n :: es[i].time == time
  {
    if n == 0 then [] else Keys(n - 1, time) + [ChangeAt(time, KeyOf(n))]
  }

  lemma {:induction false} KeysTaken(n: nat, time: int)
    ensures var s := Replay(map[], Keys(n, time)); |s| == n && forall k | k in s :: |k| <= n
  {
    if n > 0 {
      KeysTaken(n - 1, time);
      var s, e := Replay(map[], Keys(n - 1, time)), ChangeAt(time, KeyOf(n));
      ReplayOne(map[], Keys(n - 1, time), e);
      assert e.path !in s;
    }
  }

  lemma {:induction false} AllPast(p: Params, es: seq<Entry>)
    requires forall i | 0 <= i < |es| :: p.matches(es[i]) && es[i].time <= SinceMsec(p)
    ensures Past(p, es) == es && Window(p, es) == []
  {
    if es != [] {
      AllPast(p, es[..|es| - 1]);
    }
  }

  /** A source of `n` keys before `since`, and one row after it. */
  function KeysThenRow(p: Params, n: nat): seq<Entry>
  {
    Keys(n, SinceMsec(p)) + [ChangeAt(SinceMsec(p) + 1, [97])]
  }

  lemma KeysThenRowIs(p: Params, n: nat)
    requires Windowed(p) && SinceMsec(p) + 1 < UntilMsec(p) && forall e: Entry :: p.matches(e)
    ensures var es := KeysThenRow(p, n);
      Ordered(es) && Window(p, es) == [ChangeAt(SinceMsec(p) + 1, [97])] && |Past(p, es)| == n && Taken(p, es) == n
  {
    hide Replay, Window, Past, Keys;
    var keys, e := Keys(n, SinceMsec(p)), ChangeAt(SinceMsec(p) + 1, [97]);
    AllPast(p, keys);
    InWindow(p, keys, e);
    KeysTaken(n, SinceMsec(p));
    assert [] + [e] == [e];
  }

  /** With one row after `n` keys, the row is sent exactly if the limit has room for it. */
  lemma OneRowFitsIff(p: Params, n: nat, limit: int, log: seq<Entry>, hit: bool, e: Entry)
    requires n >= 1 && Limited(p.(limit := limit), [e], n, true, log, hit)
    ensures log == (if n + 1 > limit then [] else [e])
  {
    if n + 1 > limit {
      assert NewTime([e], true, 0) && Exceeds(p.(limit := limit), n, 0);
    }
  }

  lemma OtherLimitShows(p: Params, limit: int)
    requires Windowed(p) && SinceMsec(p) + 1 < UntilMsec(p) && (forall e: Entry :: p.matches(e))
    requires limit >= 2 && limit != p.limit
    ensures exists es :: Ordered(es) && !Obeys(p, es, limit)
  {
    var n: nat := if p.limit < 1 then 1 else if p.limit < limit then p.limit else limit;
    var es, e := KeysThenRow(p, n), ChangeAt(SinceMsec(p) + 1, [97]);
    var sc := ScanAll(p, START, es);
    KeysThenRowIs(p, n);
    LimitIsExact(p, es);
    assert p.(limit := p.limit) == p;
    OneRowFitsIff(p, n, p.limit, sc.log, sc.limitHit, e);
    if Obeys(p, es, limit) {
      OneRowFitsIff(p, n, limit, sc.log, sc.limitHit, e);
    }
  }

  /** The limit that the header names is the one that every scan obeys exactly if it is the caller's own. */
  lemma HeaderLimitIsKeptIff(p: Params, ignoreLimit: bool)
    requires Windowed(p) && SinceMsec(p) + 1 < UntilMsec(p) && forall e: Entry :: p.matches(e)
    ensures (forall es | Ordered(es) :: Obeys(p, es, HeaderLimit(p, ignoreLimit))) <==>
      if ignoreLimit then p.limit == NO_LIMIT else p.limit <= DEFAULT_LIMIT
  {
    if HeaderLimit(p, ignoreLimit) == p.limit {
      forall es | Ordered(es) ensures Obeys(p, es, p.limit) {
        LimitIsExact(p, es);
        assert p.(limit := p.limit) == p;
      }
    } else {
      OtherLimitShows(p, HeaderLimit(p, ignoreLimit));
    }
  }
}
