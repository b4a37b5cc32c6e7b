/** Which unfiltered queries answer from the chosen file as from every file, whatever the journal holds. */
module SafeQueries {
  import opened ByteStrings
  import opened Journals
  import opened FileJournals
  import opened GetLogs
  import opened GetLogLoops
  import opened GetLogTheorems
  import opened FileSelection
  import opened FileChoices
  import opened LastRows

  // ---------------------------------------------------------------- one journal

  /** How many entries come before the first one at or after `until`. */
  function BeforeUntil(p: Params, es: seq<Entry>): (n: nat)
    ensures n <= |es| && (forall i | 0 <= i < n :: es[i].time < UntilMsec(p))
    ensures n < |es| ==> es[n].time >= UntilMsec(p)
  {
    if es == [] || es[0].time >= UntilMsec(p) then 0
    else
      assert forall i | 0 < i <= BeforeUntil(p, es[1..]) :: es[i] == es[1..][i - 1];
      1 + BeforeUntil(p, es[1..])
  }

  lemma RowOfFile(disk: Disk, k: nat)
    requires k < |disk| && disk[k].rows != []
    ensures |Rows(disk[..k])| < |Rows(disk)| && Rows(disk)[|Rows(disk[..k])|] == disk[k].rows[0] == Rows(disk[k..])[0]
  {
    RowsAround(disk, k);
  }

  /** A journal whose chosen file begins at or after `until` stops somewhere. */
  lemma Stops(p: Params, disk: Disk, k: nat)
    requires k < |disk| && disk[k].rows != [] && disk[k].rows[0].time >= UntilMsec(p)
    ensures EndsAt(p, Rows(disk), BeforeUntil(p, Rows(disk)))
    ensures Rows(disk[k..]) != [] && Rows(disk[k..])[0] == disk[k].rows[0]
  {
    RowOfFile(disk, k);
  }

  /**
   For "last": the newest file answers like the whole journal if its first row is before `until`; otherwise exactly
   if, with a snapshot, that row alone shows what the journal shows at `until`, at the same newest time, and without
   one, if no row at all is before `until`.
   */
  lemma NewestFileAnswersLastIff(p: Params, disk: Disk, now: int)
    requires p.since.LastWord? && Unfiltered(p) && Linked(disk) && disk != [] && Last(disk).rows != []
    ensures var first, n := Last(disk).rows[0], BeforeUntil(p, Rows(disk));
      GetLog(p, Rows(disk), now) == GetLog(p, Last(disk).rows, now) <==>
        || first.time < UntilMsec(p)
        || if p.withSnapshot then
             && n < |Rows(disk)| && View(StopState(p, Rows(disk), n)) == View(Seen(p, map[], first))
             && SnapshotTime(p, StopState(p, Rows(disk), n)) == SnapshotTime(p, Seen(p, map[], first))
           else n == 0
  {
    var k := |disk| - 1;
    if Last(disk).rows[0].time < UntilMsec(p) {
      LastScansAlike(p, disk);
    } else {
      Stops(p, disk, k);
      StoppedLast(p, Rows(disk), BeforeUntil(p, Rows(disk)), Last(disk).rows, now);
    }
  }

  lemma LastScansAlike(p: Params, disk: Disk)
    requires p.since.LastWord? && Unfiltered(p) && Linked(disk) && disk != [] && Last(disk).rows != []
    requires Last(disk).rows[0].time < UntilMsec(p)
    ensures ScanAll(p, START, Rows(disk)) == ScanAll(p, START, Last(disk).rows)
  {
    var k := |disk| - 1;
    var past := Rows(disk[..k]);
    RowsOfPrefix(disk);
    if k == 0 {
      assert past + Last(disk).rows == Last(disk).rows;
    } else {
      assert InTimeAt(disk, k);
      LinkedPrefix(disk, k);
      forall i | 0 <= i < |past| ensures past[i].time <= disk[k].start {
        RowsBefore(disk[..k], disk[k].start, i);
      }
      BeginsWithPast(disk, k);
      NewestFileScansLast(p, past, Last(disk));
    }
  }

  /**
   For dates with `until` not after `since`: nothing is sent without a snapshot.  With one, a file that begins before
   `until` is enough; otherwise the answers agree exactly if its first row alone shows what the journal shows there.
   */
  lemma BackwardQueryAgreesIff(p: Params, disk: Disk, k: nat)
    requires p.since.At? && UntilMsec(p) <= SinceMsec(p) && Unfiltered(p)
    requires Linked(disk) && Chosen(p, Starts(disk), k) && disk[k].rows != []
    ensures var first, n := disk[k].rows[0], BeforeUntil(p, Rows(disk));
      Agree(p, Rows(disk), Rows(disk[k..])) <==>
        || !p.withSnapshot || k == 0 || disk[k].start < UntilMsec(p)
        || (&& n < |Rows(disk)| && View(StopState(p, Rows(disk), n)) == View(Seen(p, map[], first))
            && (StopState(p, Rows(disk), n) == map[] || Rows(disk)[n].time == first.time))
  {
    if !p.withSnapshot {
      forall now ensures SameAnswer(GetLog(p, Rows(disk), now), GetLog(p, Rows(disk[k..]), now)) {
        NoSnapshotNoRows(p, Rows(disk), now);
        NoSnapshotNoRows(p, Rows(disk[k..]), now);
      }
    } else if k == 0 || disk[k].start < UntilMsec(p) {
      assert k > 0 ==> Starts(disk)[k] <= SinceMsec(p);
      ChosenFileAgreesIff(p, disk, k);
    } else {
      assert InTimeAt(disk, k);
      Stops(p, disk, k);
      StoppedAgreesIff(p, Rows(disk), BeforeUntil(p, Rows(disk)), Rows(disk[k..]));
    }
  }

  /** For dates since < until: exactly the guard of the limit decides. */
  lemma DatedQueryAgreesIff(p: Params, disk: Disk, k: nat)
    requires p.since.At? && Windowed(p) && Unfiltered(p) && Linked(disk) && Chosen(p, Starts(disk), k)
    ensures Agree(p, Rows(disk), Rows(disk[k..])) <==> !LimitBites(p, Rows(disk[..k]), Rows(disk[k..]))
  {
    assert k > 0 ==> Starts(disk)[k] <= SinceMsec(p);
    ChosenFileAgreesIff(p, disk, k);
  }

  // ---------------------------------------------------------------- every journal

  /** A journal of non-empty files whose times are 64-bit numbers. */
  ghost predicate WholeJournal(disk: Disk)
  {
    && Linked(disk)
    && (forall i | 0 <= i < |disk| :: disk[i].rows != [])
    && (forall i | 0 <= i < |Rows(disk)| :: Rows(disk)[i].time < INT64_MAX)
  }

  ghost predicate AgreesOn(p: Params, disk: Disk, k: nat)
    requires k <= |disk|
  {
    Agree(p, Rows(disk), Rows(disk[k..]))
  }

  predicate SafeQuery(p: Params)
  {
    match p.since
    case At(ms) => if ms < UntilMsec(p) then p.limit >= 1 || UntilMsec(p) == ms + 1 else !p.withSnapshot
    case LastWord => !p.until.At?
    case _ => true
  }

  lemma LastQueryAgrees(p: Params, disk: Disk, k: nat)
    requires Unfiltered(p) && p.since.LastWord? && SafeQuery(p) && WholeJournal(disk) && Chosen(p, Starts(disk), k)
    ensures AgreesOn(p, disk, k)
  {
    RowOfFile(disk, k);
    LastScansAlike(p, disk);
    OnlyLast(disk);
    SameScansAgree(p, Rows(disk), Rows(disk[k..]));
  }

  lemma SafeQueryAgrees(p: Params, disk: Disk, k: nat)
    requires Unfiltered(p) && SafeQuery(p) && WholeJournal(disk) && Chosen(p, Starts(disk), k)
    ensures AgreesOn(p, disk, k)
  {
    if p.since.At? {
      if p.since.ms < UntilMsec(p) {
        DatedQueryAgreesIff(p, disk, k);
      } else {
        BackwardQueryAgreesIff(p, disk, k);
      }
    } else if p.since.LastWord? {
      LastQueryAgrees(p, disk, k);
    } else {
      assert disk[0..] == disk;
    }
  }

  /** With empty files left out first, as the journal does. */
  lemma QueryOnJournal(p: Params, disk: Disk, k: nat)
    requires Unfiltered(p) && SafeQuery(p) && Linked(disk) && Chosen(p, Starts(NonEmpty(disk)), k)
    requires forall i | 0 <= i < |Rows(disk)| :: Rows(disk)[i].time < INT64_MAX
    ensures Agree(p, Rows(disk), Rows(NonEmpty(disk)[k..]))
  {
    NonEmptyLinked(disk);
    NonEmptyRows(disk);
    NonEmptyFilled(disk);
    SafeQueryAgrees(p, NonEmpty(disk), k);
  }

  lemma {:induction false} NonEmptyFilled(disk: Disk)
    ensures forall i | 0 <= i < |NonEmpty(disk)| :: NonEmpty(disk)[i].rows != []
  {
    if disk != [] {
      NonEmptyFilled(disk[..|disk| - 1]);
    }
  }

  lemma OnlyLast(disk: Disk)
    requires disk != []
    ensures Rows(disk[|disk| - 1..]) == Last(disk).rows
  {
    var last := disk[|disk| - 1..];
    assert last[1..] == [];
  }

  // ---------------------------------------------------------------- how queries are misled

  lemma TwoFilesAreLinked(f: LogFile, g: LogFile)
    requires FileSound(f) && FileSound(g) && f.start < g.start && NotAfter(f, g.start)
    requires BeginsWith(g, View(Replay(map[], f.rows)))
    ensures Linked([f, g])
  {
    var disk := [f, g];
    assert disk[1] == g && disk[0] == f;
    assert InTimeAt(disk, 0) && InTimeAt(disk, 1) && ResumesAt(disk, 1);
  }

  lemma RowsOfTwo(f: LogFile, g: LogFile)
    ensures Rows([f, g]) == f.rows + g.rows && Rows([f, g][1..]) == g.rows && Rows([f, g][..1]) == f.rows
  {
    var one: Disk, other: Disk := [f], [g];
    assert one[1..] == [] && other[1..] == [];
    assert Rows(one) == f.rows && Rows(other) == g.rows;
    assert [f, g] == one + other && [f, g][1..] == other && [f, g][..1] == one;
    RowsConcat(one, other);
  }

  lemma ViewSize(s: Snapshot)
    ensures |View(s)| == |s|
  {
    assert View(s).Keys == s.Keys;
  }

  lemma LastMisled(p: Params, disk: Disk)
    requires p.since.LastWord? && Unfiltered(p) && |disk| > 0 && Last(disk).rows != []
    requires var rows, first := Rows(disk), Last(disk).rows[0];
      && first.time >= UntilMsec(p) && 0 < BeforeUntil(p, rows) < |rows|
      && |View(StopState(p, rows, BeforeUntil(p, rows)))| > |View(Seen(p, map[], first))|
    ensures !AgreesOn(p, disk, |disk| - 1)
  {
    var rows, n := Rows(disk), BeforeUntil(p, Rows(disk));
    OnlyLast(disk);
    LastRowCounts(p, rows, n, Last(disk).rows, 0);
    assert !SameAnswer(GetLog(p, rows, 0), GetLog(p, Last(disk).rows, 0));
  }

  /** How many rows a stopped "last" query sends. */
  lemma LastRowCounts(p: Params, es: seq<Entry>, n: nat, rows: seq<Entry>, now: int)
    requires p.since.LastWord? && Unfiltered(p) && EndsAt(p, es, n) && rows != [] && rows[0].time >= UntilMsec(p)
    ensures |GetLog(p, es, now).rows| == if p.withSnapshot then |View(StopState(p, es, n))| else if n > 0 then 1 else 0
    ensures |GetLog(p, rows, now).rows| == if p.withSnapshot then |View(Seen(p, map[], rows[0]))| else 0
  {
    StopScan(p, es, n);
    StopScan(p, rows, 0);
    assert rows[..0] == [];
    var a, b := ScanAll(p, START, es), ScanAll(p, START, rows);
    HeadOnly(p, a);
    HeadOnly(p, b);
    StoppedReport(p, a, now);
    StoppedReport(p, b, now);
    ViewSize(a.snapshot);
    ViewSize(b.snapshot);
  }
}
