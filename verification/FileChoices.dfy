/** When reading from the chosen file on answers like reading every file, and when it does not. */
module FileChoices {
  import opened ByteStrings
  import opened Journals
  import opened FileJournals
  import opened GetLogs
  import opened GetLogLoops
  import opened GetLogTheorems
  import opened FileSelection

  ghost predicate Unfiltered(p: Params) { forall e: Entry :: p.matches(e) }

  /** Two sources give the same rows, dictionary and `until`, whenever they are asked. */
  ghost predicate Agree(p: Params, es: seq<Entry>, fs: seq<Entry>)
  {
    forall now :: SameAnswer(GetLog(p, es, now), GetLog(p, fs, now))
  }

  // ---------------------------------------------------------------- the first row read decides

  lemma ScanFirst(p: Params, sc: Scan, es: seq<Entry>)
    requires es != [] && !sc.done
    ensures ScanAll(p, sc, es) == ScanAll(p, Examine(p, sc, es[0]), es[1..])
  {
    var first: seq<Entry> := [es[0]];
    assert es == first + es[1..];
    assert first[..0] == [];
    ScanConcat(p, sc, first, es[1..]);
  }

  lemma {:induction false} LogOnlyGrows(p: Params, sc: Scan, es: seq<Entry>)
    ensures |ScanAll(p, sc, es).log| >= |sc.log| && (sc.done ==> ScanAll(p, sc, es) == sc)
  {
    if es != [] {
      LogOnlyGrows(p, sc, es[..|es| - 1]);
    }
  }

  /** The state of a scan that has seen only quiet entries which left no snapshot. */
  function AfterPast(past: seq<Entry>): Scan { START.(last := LastOr(past, None), dataBefore := past != []) }

  /** The first row is one that a limit below one lets through only if nothing was read before it. */
  predicate LimitBites(p: Params, past: seq<Entry>, rows: seq<Entry>)
  {
    p.limit < 1 && past != [] && rows != [] && SinceMsec(p) < rows[0].time < UntilMsec(p)
  }

  lemma FirstRowAlike(p: Params, past: seq<Entry>, rows: seq<Entry>)
    requires p.since.At? && Unfiltered(p) && Quiet(p, past) && !LimitBites(p, past, rows)
    ensures AnswerAlike(ScanAll(p, AfterPast(past), rows), ScanAll(p, START, rows))
  {
    if rows != [] {
      var a, b := Examine(p, AfterPast(past), rows[0]), Examine(p, START, rows[0]);
      ScanFirst(p, AfterPast(past), rows);
      ScanFirst(p, START, rows);
      if rows[0].time >= UntilMsec(p) {
        LogOnlyGrows(p, a, rows[1..]);
        LogOnlyGrows(p, b, rows[1..]);
      } else {
        AlikeScans(p, a, b, rows[1..]);
      }
    }
  }

  lemma FirstRowStops(p: Params, past: seq<Entry>, rows: seq<Entry>)
    requires p.since.At? && Unfiltered(p) && Quiet(p, past) && LimitBites(p, past, rows)
    ensures var a := ScanAll(p, AfterPast(past), rows); a.log == [] && a.snapshot == map[]
    ensures ScanAll(p, START, rows).log != []
  {
    var a, b := Examine(p, AfterPast(past), rows[0]), Examine(p, START, rows[0]);
    ScanFirst(p, AfterPast(past), rows);
    ScanFirst(p, START, rows);
    LogOnlyGrows(p, a, rows[1..]);
    LogOnlyGrows(p, b, rows[1..]);
  }

  lemma NothingReported(p: Params, sc: Scan, now: int)
    requires p.since.At? && sc.log == [] && sc.snapshot == map[]
    ensures Report(p, sc, now).rows == []
  {
    assert Head(p, sc) == [];
  }

  /** Log rows are reported unless their newest timestamp is too recent. */
  lemma SomethingReported(p: Params, sc: Scan) returns (now: int)
    requires p.since.At? && sc.log != []
    ensures Report(p, sc, now).rows != []
  {
    var m := AllRows(p, sc);
    RowsAreReadable(p, m.cache, Head(p, sc) + sc.log, m.rows);
    var times := ExpandedTimes(SentDict(p, m.cache), m.rows);
    now := times[|times| - 1] + 1000;
  }

  /** After a past that left no snapshot, reading on agrees with reading from there, unless the limit bites. */
  lemma EmptyPastAgreesIff(p: Params, past: seq<Entry>, rows: seq<Entry>)
    requires p.since.At? && Unfiltered(p) && Quiet(p, past) && Replay(map[], past) == map[]
    ensures Agree(p, past + rows, rows) <==> !LimitBites(p, past, rows)
  {
    QuietScan(p, START, past);
    ScanConcat(p, START, past, rows);
    if LimitBites(p, past, rows) {
      FirstRowStops(p, past, rows);
      var now := SomethingReported(p, ScanAll(p, START, rows));
      NothingReported(p, ScanAll(p, START, past + rows), now);
      assert !SameAnswer(GetLog(p, past + rows, now), GetLog(p, rows, now));
    } else {
      FirstRowAlike(p, past, rows);
      forall now ensures SameAnswer(GetLog(p, past + rows, now), GetLog(p, rows, now)) {
        AlikeReports(p, ScanAll(p, START, past + rows), ScanAll(p, START, rows), now);
      }
    }
  }

  /** A head with rows makes both scans the same. */
  lemma HeadAgrees(p: Params, past: seq<Entry>, s: Snapshot, start: int, tail: seq<Entry>)
    requires p.since.At? && Unfiltered(p) && Quiet(p, past) && s != map[]
    requires start <= SinceMsec(p) && start < UntilMsec(p) && WellKeyed(s) && View(s) == View(Replay(map[], past))
    ensures ScanAll(p, START, past + (SnapshotRows(s, start) + tail))
      == ScanAll(p, START, SnapshotRows(s, start) + tail)
  {
    var head := SnapshotRows(s, start);
    assert past + (head + tail) == (past + head) + tail;
    QuietScan(p, START, past + head);
    QuietScan(p, START, head);
    ReplayConcat(map[], past, head);
    HeadForgetsBase(Replay(map[], past), s, start);
    ScanConcat(p, START, past + head, tail);
    ScanConcat(p, START, head, tail);
  }

  lemma SameScansAgree(p: Params, es: seq<Entry>, fs: seq<Entry>)
    requires ScanAll(p, START, es) == ScanAll(p, START, fs)
    ensures Agree(p, es, fs)
  {
  }

  lemma NoViewNoState(s: Snapshot)
    requires View(s) == map[]
    ensures s == map[]
  {
    assert s.Keys == View(s).Keys;
  }

  lemma HeadBiteless(p: Params, past: seq<Entry>, s: Snapshot, start: int, tail: seq<Entry>)
    requires start <= SinceMsec(p) && s != map[]
    ensures !LimitBites(p, past, SnapshotRows(s, start) + tail)
  {
    var head := SnapshotRows(s, start);
    assert (head + tail)[0] == head[0];
  }

  /** Reading on into a file that begins with the state of the past. */
  lemma FileAgreesIff(p: Params, past: seq<Entry>, f: LogFile, more: seq<Entry>)
    requires p.since.At? && Unfiltered(p) && Quiet(p, past)
    requires f.start <= SinceMsec(p) && f.start < UntilMsec(p) && BeginsWith(f, View(Replay(map[], past)))
    ensures Agree(p, past + (f.rows + more), f.rows + more) <==> !LimitBites(p, past, f.rows + more)
  {
    var s, tail := HeadOfFile(f, View(Replay(map[], past)));
    if s == map[] {
      NoViewNoState(Replay(map[], past));
      EmptyPastAgreesIff(p, past, f.rows + more);
    } else {
      RegroupRows(SnapshotRows(s, f.start), tail, more);
      HeadAgrees(p, past, s, f.start, tail + more);
      HeadBiteless(p, past, s, f.start, tail + more);
      SameScansAgree(p, past + (f.rows + more), f.rows + more);
    }
  }

  lemma PastIsQuiet(p: Params, disk: Disk, k: nat)
    requires p.since.At? && Unfiltered(p) && Linked(disk) && 0 < k < |disk|
    requires disk[k].start <= SinceMsec(p) && disk[k].start < UntilMsec(p)
    ensures Quiet(p, Rows(disk[..k]))
  {
    LinkedPrefix(disk, k);
    assert InTimeAt(disk, k);
    forall i | 0 <= i < |Rows(disk[..k])| ensures Rows(disk[..k])[i].time <= disk[k].start {
      RowsBefore(disk[..k], disk[k].start, i);
    }
  }

  /**
   Reading from a file that starts no later than `since`, and before `until`, agrees with reading every file, unless
   the limit is below one, something was skipped, and the first row read is already one to be sent.
   */
  lemma ChosenFileAgreesIff(p: Params, disk: Disk, k: nat)
    requires p.since.At? && Unfiltered(p) && Linked(disk) && k < |disk|
    requires k == 0 || (disk[k].start <= SinceMsec(p) && disk[k].start < UntilMsec(p))
    ensures Agree(p, Rows(disk), Rows(disk[k..])) <==> !LimitBites(p, Rows(disk[..k]), Rows(disk[k..]))
  {
    if k == 0 {
      assert disk[0..] == disk && disk[..0] == [];
    } else {
      BeginsWithPast(disk, k);
      PastIsQuiet(p, disk, k);
      RowsAround(disk, k);
      FileAgreesIff(p, Rows(disk[..k]), disk[k], Rows(disk[k + 1..]));
    }
  }
}
