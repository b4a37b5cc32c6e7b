/** Which files a query reads (`newestMatchingFileIt` and the reader list of `ShvFileJournal::getLog`). */
module FileSelection {
  import opened ByteStrings
  import opened Journals
  import opened FileJournals
  import opened GetLogs
  import opened GetLogLoops
  import opened GetLogTheorems

  /** The file to read from: the last one for "last", the newest that starts no later than a date, else the first. */
  predicate Chosen(p: Params, files: seq<int>, k: nat)
  {
    && k < |files|
    && match p.since
       case LastWord => k == |files| - 1
       case At(ms) =>
         if files[0] >= ms then k == 0
         else (forall j | 0 <= j <= k :: files[j] <= ms) && (k + 1 == |files| || files[k + 1] > ms)
       case _ => k == 0
  }

  /** Index of the first file to read. */
  method NewestMatchingFile(files: seq<int>, p: Params) returns (i: nat)
    ensures files == [] ==> i == 0
    ensures files != [] ==> Chosen(p, files, i)
  {
    if (!p.since.At? && !p.since.LastWord?) || files == [] {
      return 0;
    }
    if p.since.LastWord? {
      return |files| - 1;
    }
    if files[0] >= p.since.ms {
      return 0;
    }
    i := 0;
    var it := 0;
    while it < |files|
      invariant 0 <= i < |files| && 0 <= it <= |files|
      invariant it == 0 ==> i == 0
      invariant it > 0 ==> i == it - 1
      invariant forall j | 0 <= j < it :: files[j] <= p.since.ms
    {
      if files[it] > p.since.ms {
        break;
      }
      i := it;
      it := it + 1;
    }
  }

  // ---------------------------------------------------------------- rows of a part of the journal

  lemma {:induction false} RowsConcat(a: Disk, b: Disk)
    ensures Rows(a + b) == Rows(a) + Rows(b)
  {
    if a == [] {
      assert a + b == b;
    } else {
      assert (a + b)[1..] == a[1..] + b;
      RowsConcat(a[1..], b);
    }
  }

  lemma RowsAround(disk: Disk, k: nat)
    requires k < |disk|
    ensures Rows(disk[k..]) == disk[k].rows + Rows(disk[k + 1..])
    ensures Rows(disk) == Rows(disk[..k]) + Rows(disk[k..])
  {
    assert disk == disk[..k] + disk[k..];
    RowsConcat(disk[..k], disk[k..]);
    assert disk[k..][1..] == disk[k + 1..];
  }

  lemma {:induction false} RowsBefore(disk: Disk, time: int, i: nat)
    requires InTime(disk) && disk != [] && NotAfter(Last(disk), time) && i < |Rows(disk)|
    ensures Rows(disk)[i].time <= time
    decreases |disk|
  {
    var older := disk[..|disk| - 1];
    RowsOfPrefix(disk);
    assert InTimeAt(disk, |disk| - 1);
    if i < |Rows(older)| {
      forall j | 0 <= j < |older| ensures InTimeAt(older, j) {
        assert InTimeAt(disk, j);
      }
      RowsBefore(older, time, i);
    }
  }

  // ---------------------------------------------------------------- scanning what only feeds the snapshot

  ghost predicate Quiet(p: Params, es: seq<Entry>)
  {
    forall i | 0 <= i < |es| ::
      p.matches(es[i]) && (p.since.LastWord? || es[i].time <= SinceMsec(p)) && es[i].time < UntilMsec(p)
  }

  function LastOr(es: seq<Entry>, last: Option<Entry>): Option<Entry>
  {
    if es == [] then last else Some(es[|es| - 1])
  }

  lemma {:induction false} QuietScan(p: Params, sc: Scan, es: seq<Entry>)
    requires Quiet(p, es) && !sc.done
    ensures ScanAll(p, sc, es)
         == sc.(snapshot := Replay(sc.snapshot, es), last := LastOr(es, sc.last),
                dataBefore := sc.dataBefore || es != [])
  {
    if es != [] {
      var older, e := es[..|es| - 1], es[|es| - 1];
      QuietScan(p, sc, older);
      assert es == older + [e];
      ReplayOne(sc.snapshot, older, e);
    }
  }

  lemma {:induction false} ScanConcat(p: Params, sc: Scan, es: seq<Entry>, fs: seq<Entry>)
    ensures ScanAll(p, sc, es + fs) == ScanAll(p, ScanAll(p, sc, es), fs)
    decreases |fs|
  {
    if fs == [] {
      assert es + fs == es;
    } else {
      ScanConcat(p, sc, es, fs[..|fs| - 1]);
      assert (es + fs)[..|es + fs| - 1] == es + fs[..|fs| - 1];
    }
  }

  // ---------------------------------------------------------------- scans that answer alike

  /** Scans that differ at most in whether data before `since` was seen. */
  predicate Alike(a: Scan, b: Scan) { a == b.(dataBefore := a.dataBefore) }

  lemma {:induction false} AlikeScans(p: Params, a: Scan, b: Scan, es: seq<Entry>)
    requires Alike(a, b)
    ensures Alike(ScanAll(p, a, es), ScanAll(p, b, es))
  {
    if es != [] {
      AlikeScans(p, a, b, es[..|es| - 1]);
    }
  }

  /** The same rows, dictionary and `until`; only `since` of the header may tell that older data was not read. */
  predicate SameAnswer(r: Log, q: Log)
  {
    r.rows == q.rows && r.dict == q.dict && r.until == q.until && r.limitHit == q.limitHit
  }

  lemma ConcludeAlike(p: Params, rows: seq<Row>, times: seq<int>, dict: map<int, Path>, logIsEmpty: bool,
                      cut: Option<int>, before: bool, also: bool, limitHit: bool, now: int)
    requires |rows| == |times|
    ensures SameAnswer(Conclude(p, rows, times, dict, logIsEmpty, cut, before, limitHit, now),
                       Conclude(p, rows, times, dict, logIsEmpty, cut, also, limitHit, now))
  {
  }

  /** Scans that a dated query answers alike: the last entry seen does not matter any more. */
  predicate AnswerAlike(a: Scan, b: Scan) { a == b.(dataBefore := a.dataBefore, last := a.last) }

  lemma AlikeRows(p: Params, a: Scan, b: Scan)
    requires p.since.At? && AnswerAlike(a, b)
    ensures Head(p, a) == Head(p, b) && AllRows(p, a) == AllRows(p, b)
  {
  }

  lemma AlikeReports(p: Params, a: Scan, b: Scan, now: int)
    requires p.since.At? && AnswerAlike(a, b)
    ensures SameAnswer(Report(p, a, now), Report(p, b, now))
  {
    AlikeRows(p, a, b);
    var m := AllRows(p, a);
    RowsAreReadable(p, m.cache, Head(p, a) + a.log, m.rows);
    var dict := SentDict(p, m.cache);
    ConcludeAlike(p, m.rows, ExpandedTimes(dict, m.rows), dict, a.log == [],
      if a.unmatched.Some? then Some(a.unmatched.value.time) else None, a.dataBefore, b.dataBefore, a.limitHit, now);
  }

  // ---------------------------------------------------------------- reading from the chosen file on

  /** The rows of a snapshot leave exactly their own entries, if all older keys are among them. */
  lemma {:induction false} RowsReplayExactly(base: Snapshot, s: Snapshot, time: int)
    requires WellKeyed(s)
    ensures Replay(base, SnapshotRows(s, time)) == base + (map k | k in s :: Stamped(s[k], time))
    decreases |s|
  {
    if s != map[] {
      var k := LeastKey(s);
      RowsReplayExactly(AddToSnapshot(base, Stamped(s[k], time)), s - {k}, time);
      assert SnapshotRows(s, time)[1..] == SnapshotRows(s - {k}, time);
      OverlayExactly(base, s, k, time);
    }
  }

  lemma OverlayExactly(base: Snapshot, s: Snapshot, k: Path, time: int)
    requires k in s && s[k].path == k && s[k].domain == VAL_CHANGE && !s[k].drop
    ensures AddToSnapshot(base, Stamped(s[k], time)) + (map j | j in s - {k} :: Stamped((s - {k})[j], time))
         == base + (map j | j in s :: Stamped(s[j], time))
  {
  }

  lemma MergeHides(base: Snapshot, m: Snapshot)
    requires base.Keys <= m.Keys
    ensures base + m == m
  {
  }

  lemma SameKeys(s: Snapshot, t: Snapshot)
    requires View(s) == View(t)
    ensures s.Keys == t.Keys
  {
    assert s.Keys == View(s).Keys && t.Keys == View(t).Keys;
  }

  lemma HeadForgetsBase(base: Snapshot, s: Snapshot, time: int)
    requires WellKeyed(s) && View(s) == View(base)
    ensures Replay(base, SnapshotRows(s, time)) == Replay(map[], SnapshotRows(s, time))
  {
    RowsReplayExactly(base, s, time);
    RowsReplayExactly(map[], s, time);
    SameKeys(s, base);
    var stamped := map k | k in s :: Stamped(s[k], time);
    MergeHides(base, stamped);
    MergeHides(map[], stamped);
  }

  lemma HeadOfFile(f: LogFile, state: Snapshot) returns (s: Snapshot, tail: seq<Entry>)
    requires BeginsWith(f, state)
    ensures WellKeyed(s) && View(s) == state && f.rows == SnapshotRows(s, f.start) + tail
  {
    s :| IsHead(f, s, state);
    tail := TailOf(f, s, state);
  }

  /** Each file begins with the state of everything before it. */
  lemma BeginsWithPast(disk: Disk, k: nat)
    requires Linked(disk) && 0 < k < |disk|
    ensures BeginsWith(disk[k], View(Replay(map[], Rows(disk[..k]))))
  {
    LinkedPrefix(disk, k);
    NewestFileIsEnough(disk[..k]);
    assert Last(disk[..k]) == disk[k - 1] && ResumesAt(disk, k);
  }

  lemma RegroupRows(a: seq<Entry>, b: seq<Entry>, c: seq<Entry>)
    ensures a + b + c == a + (b + c)
  {
  }

  // ---------------------------------------------------------------- empty files are not read

  function NonEmpty(disk: Disk): Disk
  {
    if disk == [] then []
    else NonEmpty(disk[..|disk| - 1]) + (if Last(disk).rows == [] then [] else [Last(disk)])
  }

  lemma {:induction false} NonEmptyRows(disk: Disk)
    ensures Rows(NonEmpty(disk)) == Rows(disk)
  {
    if disk != [] {
      NonEmptyRows(disk[..|disk| - 1]);
      RowsOfPrefix(disk);
      RowsConcat(NonEmpty(disk[..|disk| - 1]), if Last(disk).rows == [] then [] else [Last(disk)]);
      if Last(disk).rows != [] {
        assert [Last(disk)][1..] == [];
      }
    }
  }

  lemma EmptyFileBegins(f: LogFile, state: Snapshot)
    requires BeginsWith(f, state) && f.rows == []
    ensures state == map[]
  {
  }

  /** Empty files neither break the chain nor change the state that is carried over. */
  lemma {:induction false} NonEmptyLinked(disk: Disk)
    requires Linked(disk)
    ensures Linked(NonEmpty(disk))
    ensures NonEmpty(disk) != [] ==>
      && Last(NonEmpty(disk)).start <= Last(disk).start && NotAfter(Last(NonEmpty(disk)), NewestOf(Last(disk)))
      && View(Replay(map[], Last(NonEmpty(disk)).rows)) == View(Replay(map[], Last(disk).rows))
  {
    if disk != [] {
      var older, f := disk[..|disk| - 1], Last(disk);
      LinkedPrefix(disk, |disk| - 1);
      NonEmptyLinked(older);
      assert InTimeAt(disk, |disk| - 1);
      if |disk| > 1 {
        assert ResumesAt(disk, |disk| - 1);
      }
      if f.rows == [] {
        assert NonEmpty(disk) == NonEmpty(older);
        if NonEmpty(older) != [] {
          EmptyFileBegins(f, View(Replay(map[], Last(older).rows)));
        }
      } else {
        LinkedNewFile(NonEmpty(older), f);
        assert NonEmpty(disk) == NonEmpty(older) + [f] && Last(NonEmpty(older) + [f]) == f;
      }
    }
  }
}
