/**
 Queries over the journals that runs of appends build: which of them are answered from the chosen
 file on like from every file, and what an explicitly begun file changes.
 */
module RunQueries {
  import opened ByteStrings
  import RpcValues
  import opened Journals
  import opened FileJournals
  import opened ShvFileJournals
  import opened JournalSizes
  import opened TimeTexts
  import opened NamedJournals
  import opened FileLists
  import opened FittingNames
  import opened GetLogs
  import opened GetLogTheorems
  import opened FileSelection
  import opened FileChoices
  import opened LastRows
  import opened SafeQueries

  // ---------------------------------------------------------------- files begin with their first row

  lemma OpenedFilled(cfg: Config, j: Journal, msec: int, now: int)
    requires msec > 0 && (Filled(j.disk) || (|j.disk| == 1 && Last(j.disk).start == msec))
    ensures var r := Opened(cfg, j, msec, now); r.disk != [] ==> Filled(r.disk[..|r.disk| - 1])
  {
  }

  lemma LoggedFilled(cfg: Config, j: Journal, e: Entry)
    requires j.disk != [] && Filled(j.disk[..|j.disk| - 1])
    ensures var r := Rotated(cfg, Logged(cfg, j, Last(j.disk).start, e)); Filled(r.disk)
  {
    var disk := WithRows(j.disk, Last(j.disk).start, [e]);
    assert forall i | 0 <= i < |disk| - 1 :: disk[i] == j.disk[..|j.disk| - 1][i];
    assert Filled(disk);
    var k :| 0 <= k < |disk| && KeptFiles(cfg, disk) == disk[k..];
  }

  lemma AppendedFilled(cfg: Config, j: Journal, history: seq<Entry>, entry: Entry, now: int)
    requires Good(cfg, j, history) && now > 0 && LogTime(entry, now, j.recent) > 0
    requires Filled(j.disk) || (|j.disk| == 1 && Last(j.disk).start == LogTime(entry, now, j.recent))
    ensures Filled(Appended(cfg, j, entry, now).after.disk)
  {
    var msec := LogTime(entry, now, j.recent);
    OpenedIsGood(cfg, j, history, msec, now);
    var ready := Opened(cfg, j, msec, now);
    LastName(ready.files, ready.disk);
    OpenedFilled(cfg, j, msec, now);
    LoggedFilled(cfg, ready, entry.(time := msec));
  }

  lemma {:induction false} RunIsFilled(cfg: Config, calls: seq<Call>)
    requires Timed(calls)
    ensures Filled(Run(cfg, calls).disk)
  {
    if calls != [] {
      var before, last := calls[..|calls| - 1], calls[|calls| - 1];
      var j := Run(cfg, before);
      RunIsFilled(cfg, before);
      RunIsGood(cfg, before);
      SettledIsGood(cfg, j, History(cfg, before), last.entry, last.now);
      AppendedFilled(cfg, Settled(cfg, j, last.entry, last.now), History(cfg, before), last.entry, last.now);
    }
  }

  /** The first row of a file has the time at which the file starts. */
  ghost predicate BeginsAtStart(f: LogFile) { f.rows != [] ==> f.rows[0].time == f.start }

  ghost predicate Begins(disk: Disk) { forall i | 0 <= i < |disk| :: BeginsAtStart(disk[i]) }

  lemma WithRowsBegins(disk: Disk, start: int, rows: seq<Entry>)
    requires Begins(disk)
    requires rows == [] || rows[0].time == start || (disk != [] && Last(disk).start == start && Last(disk).rows != [])
    ensures Begins(WithRows(disk, start, rows))
  {
    if disk != [] && Last(disk).start == start {
      assert BeginsAtStart(disk[|disk| - 1]);
      var last := LogFile(start, Last(disk).rows + rows);
      assert BeginsAtStart(last);
    }
  }

  lemma OpenedBegins(cfg: Config, j: Journal, msec: int, now: int)
    requires Begins(j.disk) && msec > 0
    ensures Begins(Opened(cfg, j, msec, now).disk)
  {
    WithRowsBegins(j.disk, msec, SnapshotRows(j.snapshot, msec));
  }

  lemma LoggedBegins(cfg: Config, j: Journal, e: Entry)
    requires Begins(j.disk) && j.disk != [] && (Last(j.disk).rows != [] || Last(j.disk).start == e.time)
    ensures Begins(Rotated(cfg, Logged(cfg, j, Last(j.disk).start, e)).disk)
  {
    WithRowsBegins(j.disk, Last(j.disk).start, [e]);
    KeptBegins(cfg, WithRows(j.disk, Last(j.disk).start, [e]));
  }

  lemma KeptBegins(cfg: Config, disk: Disk)
    requires Begins(disk) && disk != []
    ensures Begins(KeptFiles(cfg, disk))
  {
    var k :| 0 <= k < |disk| && KeptFiles(cfg, disk) == disk[k..];
    assert forall i | 0 <= i < |disk[k..]| :: disk[k..][i] == disk[k + i];
  }

  lemma AppendedBegins(cfg: Config, j: Journal, history: seq<Entry>, entry: Entry, now: int)
    requires Good(cfg, j, history) && now > 0 && LogTime(entry, now, j.recent) > 0 && Begins(j.disk)
    requires Filled(j.disk) || (|j.disk| == 1 && Last(j.disk).start == LogTime(entry, now, j.recent))
    ensures Begins(Appended(cfg, j, entry, now).after.disk)
  {
    var msec := LogTime(entry, now, j.recent);
    OpenedIsGood(cfg, j, history, msec, now);
    var ready := Opened(cfg, j, msec, now);
    LastName(ready.files, ready.disk);
    OpenedBegins(cfg, j, msec, now);
    LoggedBegins(cfg, ready, entry.(time := msec));
  }

  lemma AppendBegins(cfg: Config, j: Journal, history: seq<Entry>, entry: Entry, now: int)
    requires Good(cfg, j, history) && now > 0 && Begins(j.disk) && Filled(j.disk)
    ensures Begins(Append(cfg, j, entry, now).after.disk)
  {
    hide Good, Settled, Appended;
    SettledIsGood(cfg, j, history, entry, now);
    AppendedBegins(cfg, Settled(cfg, j, entry, now), history, entry, now);
  }

  /** In every run, every file begins with a row of its start time. */
  lemma {:induction false} RunBegins(cfg: Config, calls: seq<Call>)
    requires Timed(calls)
    ensures Begins(Run(cfg, calls).disk) && Filled(Run(cfg, calls).disk)
  {
    RunIsFilled(cfg, calls);
    if calls != [] {
      var before, last := calls[..|calls| - 1], calls[|calls| - 1];
      RunBegins(cfg, before);
      RunIsGood(cfg, before);
      AppendBegins(cfg, Run(cfg, before), History(cfg, before), last.entry, last.now);
    }
  }

  // ---------------------------------------------------------------- queries over runs

  /** Queries that no journal made by appends can mislead. */
  predicate SafeOnRuns(p: Params)
  {
    match p.since
    case At(ms) => ms < UntilMsec(p) || !p.withSnapshot
    case LastWord => !p.until.At?
    case _ => true
  }

  /** No limit bites where the chosen file begins with its first row. */
  lemma NothingBites(p: Params, disk: Disk, k: nat)
    requires p.since.At? && Begins(disk) && Filled(disk) && Chosen(p, Starts(disk), k)
    ensures !LimitBites(p, Rows(disk[..k]), Rows(disk[k..]))
  {
    if k == 0 {
      assert disk[..0] == [];
    } else {
      assert BeginsAtStart(disk[k]) && Starts(disk)[k] <= SinceMsec(p);
      RowOfFile(disk, k);
    }
  }

  lemma RunAgrees(p: Params, disk: Disk, k: nat)
    requires Unfiltered(p) && SafeOnRuns(p) && WholeJournal(disk) && Begins(disk) && Chosen(p, Starts(disk), k)
    ensures AgreesOn(p, disk, k)
  {
    if Windowed(p) && p.since.At? {
      NothingBites(p, disk, k);
      DatedQueryAgreesIff(p, disk, k);
    } else {
      SafeQueryAgrees(p, disk, k);
    }
  }

  /** The listed files that are not empty. */
  function NonEmptyListed(disk: Disk, files: seq<int>): seq<int>
  {
    if files == [] then []
    else
      var last := files[|files| - 1];
      NonEmptyListed(disk, files[..|files| - 1]) + (if FileRows(disk, NamedTime(last)) == [] then [] else [last])
  }

  lemma {:induction false} NothingEmpty(disk: Disk, files: seq<int>)
    requires forall i | 0 <= i < |files| :: FileRows(disk, NamedTime(files[i])) != []
    ensures NonEmptyListed(disk, files) == files
  {
    hide NamedTime, FileRows;
    if files != [] {
      NothingEmpty(disk, files[..|files| - 1]);
    }
  }

  /** Row times are 64-bit numbers. */
  ghost predicate InRange(rows: seq<Entry>) { forall i | 0 <= i < |rows| :: rows[i].time < INT64_MAX }

  /** The query over the files listed in memory, from the chosen one on, answers like one over all of them. */
  ghost predicate ListAgrees(p: Params, n: Journal, k: nat)
    requires k <= |NonEmptyListed(n.disk, n.files)|
  {
    Agree(p, ReadNamed(n.disk, n.files), ReadNamed(n.disk, NonEmptyListed(n.disk, n.files)[k..]))
  }

  /** Runs whose names fit and are listed once. */
  ghost predicate Listable(cfg: Config, calls: seq<Call>)
  {
    Timed(calls) && NamesFit(cfg, calls) && !NameTwice(cfg, calls)
  }

  lemma ListedHaveRows(j: Journal, n: Journal)
    requires Corresponds(j, n) && n.files == Starts(j.disk) && Filled(j.disk)
    ensures NonEmptyListed(n.disk, n.files) == Starts(j.disk)
  {
    hide NamedTime, FileRows;
    forall i | 0 <= i < |n.files| ensures FileRows(n.disk, NamedTime(n.files[i])) != [] {
      assert FileRows(n.disk, NamedTime(j.disk[i].start)) == j.disk[i].rows;
    }
    NothingEmpty(n.disk, n.files);
  }

  /** The listed files are those by start time, and reading them from one on reads the rows from there on. */
  lemma ListIsDirectory(cfg: Config, calls: seq<Call>)
    requires Listable(cfg, calls)
    ensures var j, n := Run(cfg, calls), NamedRun(cfg, calls);
      && n.files == Starts(j.disk) == NonEmptyListed(n.disk, n.files) && ListedRows(n) == Rows(j.disk)
      && ReadNamed(n.disk, n.files) == Rows(j.disk)
      && forall k: nat | k <= |j.disk| :: ReadNamed(n.disk, Starts(j.disk)[k..]) == Rows(j.disk[k..])
  {
    hide NamedTime, FileRows;
    var j, n := Run(cfg, calls), NamedRun(cfg, calls);
    NamedOnceIff(cfg, calls);
    ListedOnce(cfg, calls);
    RunFits(cfg, calls);
    RunIsFilled(cfg, calls);
    ListedHaveRows(j, n);
    FittingRows(cfg, calls);
    forall k: nat | k <= |j.disk| ensures ReadNamed(n.disk, Starts(j.disk)[k..]) == Rows(j.disk[k..]) {
      ReadFrom(j.disk, n.disk, k);
    }
    ReadFrom(j.disk, n.disk, 0);
    assert Starts(j.disk)[0..] == Starts(j.disk) && j.disk[0..] == j.disk;
  }

  /**
   In every run whose names fit and are listed once, such a query over the files listed in memory, read from the
   chosen one on, answers like one over all of them, whatever its limit.
   */
  lemma QueryOverEveryRun(cfg: Config, calls: seq<Call>, p: Params, k: nat)
    requires Listable(cfg, calls) && InRange(ListedRows(NamedRun(cfg, calls))) && Unfiltered(p) && SafeOnRuns(p)
    requires var n := NamedRun(cfg, calls); Chosen(p, NonEmptyListed(n.disk, n.files), k)
    ensures ListAgrees(p, NamedRun(cfg, calls), k)
  {
    hide NamedTime, FileRows;
    RunIsGood(cfg, calls);
    RunBegins(cfg, calls);
    ListIsDirectory(cfg, calls);
    RunAgrees(p, Run(cfg, calls).disk, k);
  }

  // ---------------------------------------------------------------- a run that misleads

  const SOME_VALUE := RpcValues.Value([], RpcValues.Null)

  function Change(time: int, key: byte): Entry { Entry(time, [key], SOME_VALUE, false, VAL_CHANGE, false, false) }

  const TWO_ROWS := Config(1, 100, (x: Entry) => 1)

  /** Two keys, changed just before `at`, and a change at `at`, for which a new file is begun. */
  function TwoKeyCalls(at: int): seq<Call>
  {
    [Call(Change(at - 1, 97), 1), Call(Change(at - 1, 98), 1), Call(Change(at, 97), 1)]
  }

  ghost function BothKeys(at: int): Snapshot { map[[97] := Change(at - 1, 97), [98] := Change(at - 1, 98)] }

  ghost function TwoKeys(at: int): Disk
  {
    [LogFile(at - 1, [Change(at - 1, 97), Change(at - 1, 98)]),
     LogFile(at, SnapshotRows(BothKeys(at), at) + [Change(at, 97)])]
  }

  lemma OneRow(at: int)
    requires at >= 2
    ensures Run(TWO_ROWS, TwoKeyCalls(at)[..1])
         == Journal([LogFile(at - 1, [Change(at - 1, 97)])], [at - 1], 1, 1, at - 1,
                                    map[[97] := Change(at - 1, 97)])
  {
    var a := Change(at - 1, 97);
    var none: seq<Entry> := [];
    assert TwoKeyCalls(at)[..1] == [] + [Call(a, 1)];
    RunStep(TWO_ROWS, [], Call(a, 1));
    AppendToNew(TWO_ROWS, EMPTY, a, 1);
    assert SnapshotRows(map[], at - 1) == none && none + [a] == [a];
    OneRowSize(TWO_ROWS.rowSize, a);
  }

  lemma SecondLogged(a: Entry, b: Entry, j: Journal)
    requires b.domain == VAL_CHANGE && !b.drop && b.time == a.time && j.journalSize == 1
    requires j.disk == [LogFile(a.time, [a])]
    ensures var r := Logged(TWO_ROWS, j, a.time, b);
      && r.disk == [LogFile(a.time, [a, b])] && r.files == j.files && r.journalSize == 2 && r.lastFileSize == 2
      && r.recent == a.time && r.snapshot == j.snapshot[b.path := b]
  {
    assert [a] + [b] == [a, b];
    SizeConcat(TWO_ROWS.rowSize, [a], [b]);
    OneRowSize(TWO_ROWS.rowSize, a);
    OneRowSize(TWO_ROWS.rowSize, b);
  }

  lemma SecondRow(at: int)
    requires at >= 2
    ensures var j := Run(TWO_ROWS, TwoKeyCalls(at)[..2]);
      && j.disk == [LogFile(at - 1, [Change(at - 1, 97), Change(at - 1, 98)])] && j.files == [at - 1]
      && j.journalSize == 2 && j.lastFileSize == 2 && j.recent == at - 1 && j.snapshot == BothKeys(at)
  {
    hide SnapshotRows, Append;
    var a, b := Change(at - 1, 97), Change(at - 1, 98);
    var j := Run(TWO_ROWS, TwoKeyCalls(at)[..1]);
    OneRow(at);
    assert TwoKeyCalls(at)[..2] == TwoKeyCalls(at)[..1] + [Call(b, 1)];
    RunStep(TWO_ROWS, TwoKeyCalls(at)[..1], Call(b, 1));
    AppendToLast(TWO_ROWS, j, b, 1);
    SecondLogged(a, b, j);
  }

  lemma ThirdRow(at: int, j: Journal)
    requires at >= 2 && j.files == [at - 1] && j.snapshot == BothKeys(at)
    requires j.disk == [LogFile(at - 1, [Change(at - 1, 97), Change(at - 1, 98)])]
    ensures var r := Logged(TWO_ROWS, Created(j, at), at, Change(at, 97));
      r.disk == TwoKeys(at) && r.files == [at - 1, at]
  {
    var head := SnapshotRows(BothKeys(at), at);
    assert Created(j, at).disk == j.disk + [LogFile(at, head)];
    assert (j.disk + [LogFile(at, head)])[..1] == j.disk;
  }

  /** The run ends with the two files, each listed once. */
  lemma TwoKeysRun(at: int)
    requires at >= 2
    ensures var j := Run(TWO_ROWS, TwoKeyCalls(at)); j.disk == TwoKeys(at) && j.files == [at - 1, at]
  {
    var calls, c := TwoKeyCalls(at), Call(Change(at, 97), 1);
    var j := Run(TWO_ROWS, calls[..2]);
    SecondRow(at);
    assert calls == calls[..2] + [c];
    RunStep(TWO_ROWS, calls[..2], c);
    AppendToNew(TWO_ROWS, j, c.entry, 1);
    ThirdRow(at, j);
  }

  lemma TwoKeysInRange(at: int)
    requires at < INT64_MAX
    ensures InRange(Rows(TwoKeys(at))) && Starts(TwoKeys(at)) == [at - 1, at]
  {
    RowsOfTwo(TwoKeys(at)[0], TwoKeys(at)[1]);
  }

  lemma RunIsLinked(cfg: Config, calls: seq<Call>, disk: Disk)
    requires Timed(calls) && Run(cfg, calls).disk == disk
    ensures Linked(disk)
  {
    RunIsGood(cfg, calls);
  }

  lemma TwoKeysAreTimed(at: int)
    ensures Timed(TwoKeyCalls(at))
  {
  }

  lemma FirstFits(at: int)
    requires at >= 2
    ensures NamesFit(TWO_ROWS, TwoKeyCalls(at)[..1])
  {
    hide NamedTime;
    var none: seq<Call>, c := [], Call(Change(at - 1, 97), 1);
    FitsApart(TWO_ROWS, EMPTY, c.entry);
    FitsMore(TWO_ROWS, none, c);
    assert none + [c] == TwoKeyCalls(at)[..1];
  }

  lemma SecondFits(at: int)
    requires at >= 2
    ensures NamesFit(TWO_ROWS, TwoKeyCalls(at)[..2])
  {
    hide NamedTime, Run, NamesFit, KeepsName, AllShown;
    var c := Call(Change(at - 1, 98), 1);
    OneRow(at);
    FirstFits(at);
    FitsMore(TWO_ROWS, TwoKeyCalls(at)[..1], c);
    assert TwoKeyCalls(at)[..1] + [c] == TwoKeyCalls(at)[..2];
  }

  lemma TwoKeysFit(at: int)
    requires at >= 2
    ensures NamesFit(TWO_ROWS, TwoKeyCalls(at))
  {
    hide NamedTime, Run, NamesFit, RowFits;
    var c := Call(Change(at, 97), 1);
    SecondRow(at);
    SecondFits(at);
    FitsApart(TWO_ROWS, Run(TWO_ROWS, TwoKeyCalls(at)[..2]), c.entry);
    FitsMore(TWO_ROWS, TwoKeyCalls(at)[..2], c);
    assert TwoKeyCalls(at)[..2] + [c] == TwoKeyCalls(at);
  }

  lemma TwoAreNamedOnce(at: int)
    requires at >= 2
    ensures NamedOnce([at - 1, at])
  {
    hide NamedTime;
    var files := [at - 1, at];
    forall i, k | 0 <= i < k < |files| ensures !SameFile(files, i, k) {
      if NamedTime(at - 1) == NamedTime(at) {
        NamesakesAreApart(at - 1, at);
      }
    }
  }

  lemma TwoKeysAreListed(at: int)
    requires 2 <= at < INT64_MAX
    ensures Listable(TWO_ROWS, TwoKeyCalls(at)) && InRange(ListedRows(NamedRun(TWO_ROWS, TwoKeyCalls(at))))
  {
    hide NamedTime, ListedRows;
    TwoKeysRun(at);
    TwoKeysAreTimed(at);
    TwoKeysFit(at);
    RunFits(TWO_ROWS, TwoKeyCalls(at));
    TwoAreNamedOnce(at);
    NamedOnceIff(TWO_ROWS, TwoKeyCalls(at));
    FittingRows(TWO_ROWS, TwoKeyCalls(at));
    TwoKeysInRange(at);
  }

  lemma TwoKeysAreLinked(at: int)
    requires at >= 2
    ensures Linked(TwoKeys(at))
  {
    TwoKeysRun(at);
    TwoKeysAreTimed(at);
    RunIsLinked(TWO_ROWS, TwoKeyCalls(at), TwoKeys(at));
  }

  /** At the start of the second file the journal shows two keys, the first row of that file only one. */
  lemma TwoKeysStop(p: Params, at: int)
    requires SendsNoLog(p) && UntilMsec(p) == at && at >= 2
    ensures var rows, first := Rows(TwoKeys(at)), TwoKeys(at)[1].rows[0];
      && BeforeUntil(p, rows) == 2 < |rows| && first.time == at
      && |StopState(p, rows, 2)| == 2 && |Seen(p, map[], first)| == 1
  {
    hide SnapshotRows;
    var f, g, s := TwoKeys(at)[0], TwoKeys(at)[1], BothKeys(at);
    RowsOfTwo(f, g);
    var rows := Rows(TwoKeys(at));
    FirstKeyRow(at);
    assert rows[0] == f.rows[0] && rows[1] == f.rows[1] && rows[2] == g.rows[0];
    ReplayBoth(at);
    assert rows[..2] == f.rows;
    assert s[g.rows[0].path := g.rows[0]].Keys == s.Keys;
  }

  /** The second file begins with the row of the least key. */
  lemma FirstKeyRow(at: int)
    ensures var g, s := TwoKeys(at)[1], BothKeys(at);
      && s.Keys == {[97], [98]} && |s| == 2 && |g.rows| >= 1
      && g.rows[0].path in s && g.rows[0] == Stamped(s[g.rows[0].path], at)
  {
    var g, s := TwoKeys(at)[1], BothKeys(at);
    assert s.Keys == {[97], [98]};
    var k := LeastKey(s);
    assert g.rows[0] == Stamped(s[k], at) && s[k].path == k;
  }

  lemma ReplayBoth(at: int)
    ensures Replay(map[], TwoKeys(at)[0].rows) == BothKeys(at)
  {
    var a, b := Change(at - 1, 97), Change(at - 1, 98);
    assert [a, b][1..] == [b] && [b][1..] == [];
    assert Replay(map[], [a, b]) == Replay(map[[97] := a], [b]);
  }

  /** `until` at the start of the newest file: "last" and backward queries with a snapshot miss a key. */
  lemma TwoKeysMislead(p: Params, at: int)
    requires SendsNoLog(p) && UntilMsec(p) == at && 2 <= at < INT64_MAX && Unfiltered(p)
    requires p.since.LastWord? || p.withSnapshot
    ensures var j := Run(TWO_ROWS, TwoKeyCalls(at)); Chosen(p, Starts(j.disk), 1) && !AgreesOn(p, j.disk, 1)
  {
    TwoKeysRun(at);
    MisledAt(p, at);
  }

  lemma MisledAt(p: Params, at: int)
    requires SendsNoLog(p) && UntilMsec(p) == at && 2 <= at < INT64_MAX && Unfiltered(p)
    requires p.since.LastWord? || p.withSnapshot
    ensures Chosen(p, Starts(TwoKeys(at)), 1) && !AgreesOn(p, TwoKeys(at), 1)
  {
    var disk := TwoKeys(at);
    TwoKeysAreLinked(at);
    TwoKeysStop(p, at);
    ViewSize(StopState(p, Rows(disk), 2));
    ViewSize(Seen(p, map[], disk[1].rows[0]));
    if p.since.At? {
      BackwardQueryAgreesIff(p, disk, 1);
    } else {
      LastMisled(p, disk);
    }
  }

  /** Dates as a query gives them. */
  predicate RealDate(m: Moment) { m.At? ==> 2 <= m.ms < INT64_MAX - 1 }

  /** Whether a query is answered like over every file in a run whose names fit and are listed once. */
  ghost predicate AnswersLikeAll(p: Params, cfg: Config, calls: seq<Call>, k: nat)
  {
    var n := NamedRun(cfg, calls);
    Listable(cfg, calls) && InRange(ListedRows(n)) && Chosen(p, NonEmptyListed(n.disk, n.files), k) ==>
      ListAgrees(p, n, k)
  }

  lemma TwoKeysAnswer(p: Params, at: int)
    requires SendsNoLog(p) && UntilMsec(p) == at && 2 <= at < INT64_MAX && Unfiltered(p)
    requires p.since.LastWord? || p.withSnapshot
    ensures !AnswersLikeAll(p, TWO_ROWS, TwoKeyCalls(at), 1)
  {
    hide NamedTime, FileRows, ListedRows;
    TwoKeysAreListed(at);
    TwoKeysMislead(p, at);
    TwoKeysRun(at);
    ListIsDirectory(TWO_ROWS, TwoKeyCalls(at));
  }

  /** The queries that every such run answers from the chosen file on as from every file are exactly these. */
  lemma QueryIsSafeIff(p: Params)
    requires Unfiltered(p) && RealDate(p.since) && RealDate(p.until)
    ensures SafeOnRuns(p) <==> forall cfg, calls, k :: AnswersLikeAll(p, cfg, calls, k)
  {
    hide NamedTime, FileRows, ListedRows;
    if SafeOnRuns(p) {
      forall cfg, calls, k ensures AnswersLikeAll(p, cfg, calls, k) {
        var n := NamedRun(cfg, calls);
        if Listable(cfg, calls) && InRange(ListedRows(n)) && Chosen(p, NonEmptyListed(n.disk, n.files), k) {
          QueryOverEveryRun(cfg, calls, p, k);
        }
      }
    } else {
      TwoKeysAnswer(p, UntilMsec(p));
    }
  }

  /** A change at 10 and one at 30: "last" until 25 finds one row in all files, and none in the newest. */
  lemma OldUntilHidesLast(e: Entry, now: int)
    requires e.time == 10 && e.domain == VAL_CHANGE && !e.drop
    ensures var p := Params(LastWord, At(25), 100, false, true, (x: Entry) => true);
      var disk := Run(EACH_ROW, [Call(e, 1), Call(e.(time := 30), 1)]).disk;
      |disk| == 2 && |GetLog(p, Rows(disk), now).rows| == 1 && |GetLog(p, Last(disk).rows, now).rows| == 0
  {
    var p := Params(LastWord, At(25), 100, false, true, (x: Entry) => true);
    var disk := [LogFile(10, [e]), LogFile(30, [Stamped(e, 30), e.(time := 30)])];
    TwoChanges(e);
    RowsOfTwo(disk[0], disk[1]);
    assert EndsAt(p, Rows(disk), 1);
    LastRowCounts(p, Rows(disk), 1, Last(disk).rows, now);
  }

  const EACH_ROW := Config(0, 100, (x: Entry) => 1)

  lemma FirstChange(e: Entry)
    requires e.time == 10 && e.domain == VAL_CHANGE && !e.drop
    ensures Run(EACH_ROW, [Call(e, 1)]) == Journal([LogFile(10, [e])], [10], 1, 1, 10, map[e.path := e])
  {
    var none: seq<Entry> := [];
    RunStep(EACH_ROW, [], Call(e, 1));
    assert [] + [Call(e, 1)] == [Call(e, 1)];
    AppendToNew(EACH_ROW, EMPTY, e, 1);
    assert SnapshotRows(map[], 10) == none && none + [e] == [e];
    OneRowSize(EACH_ROW.rowSize, e);
  }

  lemma SecondChange(e: Entry, f: Entry, j: Journal)
    requires j.disk == [LogFile(10, [e])] && j.snapshot == map[e.path := e]
    ensures Logged(EACH_ROW, Created(j, 30), 30, f).disk == [LogFile(10, [e]), LogFile(30, [Stamped(e, 30), f])]
  {
    OneKey(e, 30);
    var both := j.disk + [LogFile(30, [Stamped(e, 30)])];
    assert Created(j, 30).disk == both && both[..1] == j.disk;
    assert [Stamped(e, 30)] + [f] == [Stamped(e, 30), f];
  }

  lemma TwoChanges(e: Entry)
    requires e.time == 10 && e.domain == VAL_CHANGE && !e.drop
    ensures var f := e.(time := 30);
      Run(EACH_ROW, [Call(e, 1), Call(f, 1)]).disk == [LogFile(10, [e]), LogFile(30, [Stamped(e, 30), f])]
  {
    hide SnapshotRows, Append;
    var f := e.(time := 30);
    var j := Run(EACH_ROW, [Call(e, 1)]);
    FirstChange(e);
    RunStep(EACH_ROW, [Call(e, 1)], Call(f, 1));
    assert [Call(e, 1)] + [Call(f, 1)] == [Call(e, 1), Call(f, 1)];
    AppendToNew(EACH_ROW, j, f, 1);
    SecondChange(e, f, j);
  }

  // ---------------------------------------------------------------- files begun explicitly

  /** `createNewLogFile()` called from outside: it refuses only a clock that is not after the start of the last file. */
  ghost function NewLogFile(j: Journal, now: int): Outcome
  {
    if j.files != [] && j.files[|j.files| - 1] >= now then Thrown(j) else Done(Created(j, now))
  }

  function Event(time: int): Entry { Entry(time, [97], SOME_VALUE, false, [102], false, false) }

  /** An event that leaves no snapshot, and a change some time after the next file was begun. */
  function EventThenChange(at: int): Disk
  {
    [LogFile(at - 1, [Event(at - 1)]), LogFile(at, [Change(at + 1, 97)])]
  }

  lemma EventRow(at: int)
    requires at >= 2
    ensures Run(TWO_ROWS, [Call(Event(at - 1), 1)])
         == Journal([LogFile(at - 1, [Event(at - 1)])], [at - 1], 1, 1, at - 1, map[])
  {
    var e := Event(at - 1);
    var none: seq<Entry> := [];
    RunStep(TWO_ROWS, [], Call(e, 1));
    assert [] + [Call(e, 1)] == [Call(e, 1)];
    AppendToNew(TWO_ROWS, EMPTY, e, 1);
    assert SnapshotRows(map[], at - 1) == none && none + [e] == [e];
    OneRowSize(TWO_ROWS.rowSize, e);
  }

  lemma ChangeInNewFile(at: int, j: Journal)
    requires at >= 2 && j == Journal([LogFile(at - 1, [Event(at - 1)])], [at - 1], 1, 1, at - 1, map[])
    ensures NewLogFile(j, at).Done? && Append(TWO_ROWS, NewLogFile(j, at).after, Change(at + 1, 97), 1).Done?
    ensures Append(TWO_ROWS, NewLogFile(j, at).after, Change(at + 1, 97), 1).after.disk == EventThenChange(at)
  {
    hide SnapshotRows;
    var c := Change(at + 1, 97);
    var none: seq<Entry> := [];
    var n := Created(j, at);
    var both := j.disk + [LogFile(at, none)];
    assert n.disk == both by { NothingCarriedOver(at); }
    assert Last(both).start == at && both[..1] == j.disk;
    AppendToLast(TWO_ROWS, n, c, 1);
    assert none + [c] == [c];
  }

  /** Both files are as a journal leaves them: in time order, and the second begins with the empty state. */
  lemma EventThenChangeIsJournal(at: int)
    requires 2 <= at < INT64_MAX - 1
    ensures Linked(EventThenChange(at))
  {
    var f, g := EventThenChange(at)[0], EventThenChange(at)[1];
    var none: Snapshot := map[];
    assert f.rows[1..] == [] && Replay(none, f.rows) == none;
    assert IsHead(g, none, View(none)) by { assert SnapshotRows(none, at) == []; }
    TwoFilesAreLinked(f, g);
  }

  /** An event, a file begun explicitly, a change: a limit below one gives nothing from all files, a row from one. */
  lemma LimitMisleads(p: Params, at: int)
    requires p.since == At(at) && at + 1 < UntilMsec(p) && p.limit < 1 && Unfiltered(p) && 2 <= at < INT64_MAX - 1
    ensures var begun := NewLogFile(Run(TWO_ROWS, [Call(Event(at - 1), 1)]), at);
      var disk := Append(TWO_ROWS, begun.after, Change(at + 1, 97), 1).after.disk;
      begun.Done? && Chosen(p, Starts(disk), 1) && !AgreesOn(p, disk, 1)
  {
    var disk := EventThenChange(at);
    EventRow(at);
    ChangeInNewFile(at, Run(TWO_ROWS, [Call(Event(at - 1), 1)]));
    EventThenChangeIsJournal(at);
    RowsOfTwo(disk[0], disk[1]);
    BitesAtTwo(p, disk);
  }

  lemma BitesAtTwo(p: Params, disk: Disk)
    requires p.since.At? && Windowed(p) && Unfiltered(p) && Linked(disk) && |disk| == 2 && Chosen(p, Starts(disk), 1)
    requires LimitBites(p, Rows(disk[..1]), Rows(disk[1..]))
    ensures !AgreesOn(p, disk, 1)
  {
    hide GetLog, Linked, LimitBites;
    DatedQueryAgreesIff(p, disk, 1);
  }

  /** A file begun explicitly leaves all rows in time order exactly if it gets no rows, or the clock is not behind. */
  lemma NewFileKeepsOrderIff(j: Journal, now: int)
    requires InTime(j.disk) && j.disk != [] && j.files != [] && j.files[|j.files| - 1] == Last(j.disk).start < now
    ensures NewLogFile(j, now).Done?
    ensures Ordered(Rows(NewLogFile(j, now).after.disk)) <==> j.snapshot == map[] || NewestOf(Last(j.disk)) <= now
  {
    var head, rows := SnapshotRows(j.snapshot, now), Rows(j.disk);
    var disk := j.disk + [LogFile(now, head)];
    RowsOfPrefix(disk);
    assert disk[..|disk| - 1] == j.disk;
    RowsAreOrdered(j.disk);
    OrderWithHead(rows, head, now);
    if NewestOf(Last(j.disk)) <= now {
      RowsUpTo(j.disk, now);
    } else {
      NewestIsLast(j.disk);
    }
  }

  lemma OrderWithHead(rows: seq<Entry>, head: seq<Entry>, now: int)
    requires Ordered(rows) && forall i | 0 <= i < |head| :: head[i].time == now
    ensures Ordered(rows + head) <==> head == [] || forall i | 0 <= i < |rows| :: rows[i].time <= now
  {
    var both := rows + head;
    if head == [] {
      assert both == rows;
    } else if Ordered(both) {
      forall i | 0 <= i < |rows| ensures rows[i].time <= now {
        assert both[i] == rows[i] && both[|rows|] == head[0];
      }
    }
  }

  lemma RowsUpTo(disk: Disk, time: int)
    requires InTime(disk) && disk != [] && NewestOf(Last(disk)) <= time
    ensures forall i | 0 <= i < |Rows(disk)| :: Rows(disk)[i].time <= time
  {
    assert InTimeAt(disk, |disk| - 1);
    assert NotAfter(Last(disk), time);
    forall i | 0 <= i < |Rows(disk)| ensures Rows(disk)[i].time <= time {
      RowsBefore(disk, time, i);
    }
  }

  lemma NewestIsLast(disk: Disk)
    requires disk != [] && Last(disk).rows != []
    ensures Rows(disk) != [] && Rows(disk)[|Rows(disk)| - 1].time == NewestOf(Last(disk))
  {
    RowsOfPrefix(disk);
  }
}
