/** `impl_get_log` with its nested reader loops, proved to compute `GetLog`. */
module GetLogLoops {
  import opened ByteStrings
  import opened Journals
  import opened GetLogs

  function Flatten(readers: seq<seq<Entry>>): seq<Entry>
  {
    if readers == [] then [] else Flatten(readers[..|readers| - 1]) + readers[|readers| - 1]
  }

  method NewestSnapshotTime(s: Snapshot, floor: int) returns (r: int)
    ensures r == NewestTime(s, floor)
  {
    r := floor;
    var rest := s;
    while rest != map[]
      invariant forall k | k in rest :: k in s && rest[k] == s[k]
      invariant forall k | k in s :: k in rest || s[k].time <= r
      invariant r >= floor && (r == floor || exists k | k in s :: s[k].time == r)
      decreases |rest|
    {
      var k :| k in rest;
      r := if r < rest[k].time then rest[k].time else r;
      assert (rest - {k}).Keys == rest.Keys - {k};
      rest := rest - {k};
    }
  }

  lemma {:induction false} DoneStays(p: Params, sc: Scan, es: seq<Entry>, fs: seq<Entry>)
    requires ScanAll(p, sc, es).done
    ensures ScanAll(p, sc, es + fs) == ScanAll(p, sc, es)
    decreases |fs|
  {
    if fs == [] {
      assert es + fs == es;
    } else {
      DoneStays(p, sc, es, fs[..|fs| - 1]);
      assert (es + fs)[..|es + fs| - 1] == es + fs[..|fs| - 1];
    }
  }

  lemma ScanOne(p: Params, sc: Scan, es: seq<Entry>, e: Entry)
    ensures ScanAll(p, sc, es + [e]) == (var b := ScanAll(p, sc, es); if b.done then b else Examine(p, b, e))
  {
  }

  /** The scan as an object: the variables that the loops update. */
  class Query {
    const p: Params
    var snapshot: Snapshot
    var log: seq<Row>
    var cache: PathCache
    var last: Option<Entry>
    var unmatched: Option<Entry>
    var dataBefore: bool
    var limitHit: bool
    var recordCount: int
    ghost var logged: seq<Entry>

    constructor (p: Params)
      ensures this.p == p && Mirrors(START)
    {
      this.p := p;
      snapshot, log, cache, last, unmatched := map[], [], map[], None, None;
      dataBefore, limitHit, recordCount, logged := false, false, 0, [];
    }

    ghost predicate Mirrors(sc: Scan)
      reads this
    {
      && sc == Scan(snapshot, logged, last, unmatched, dataBefore, limitHit, unmatched.Some?)
      && recordCount == |logged| && Made(log, cache) == MakeRows(p, map[], logged)
    }

    method AppendLogEntry(e: Entry)
      requires Made(log, cache) == MakeRows(p, map[], logged)
      modifies `log, `cache, `logged
      ensures logged == old(logged) + [e] && Made(log, cache) == MakeRows(p, map[], logged)
    {
      if p.withPathsDict {
        cache := Learn(cache, e.path);
      }
      log := log + [MakeRow(p, cache, e)];
      logged := logged + [e];
      assert logged[..|logged| - 1] == old(logged);
    }

    /** One turn of the inner loop. */
    method Take(e: Entry)
      requires Mirrors(Scan(snapshot, logged, last, None, dataBefore, limitHit, false))
      modifies this
      ensures Mirrors(Examine(p, old(Scan(snapshot, logged, last, None, dataBefore, limitHit, false)), e))
    {
      if !p.matches(e) {
        return;
      }
      if p.since.LastWord? || e.time <= SinceMsec(p) {
        snapshot := AddToSnapshot(snapshot, e);
      }
      if e.time >= UntilMsec(p) {
        unmatched := Some(e);
        return;
      }
      if e.time > SinceMsec(p) && !p.since.LastWord? {
        if |snapshot| + recordCount + 1 > p.limit {
          limitHit := true;
          if last.Some? && e.time != last.value.time {
            unmatched := Some(e);
            return;
          }
        }
        AppendLogEntry(e);
        recordCount := recordCount + 1;
      } else {
        dataBefore := true;
      }
      last := Some(e);
    }

    /** Both reader loops. */
    method Read(readers: seq<seq<Entry>>)
      requires Mirrors(START)
      modifies this
      ensures Mirrors(ScanAll(p, START, Flatten(readers)))
    {
      var i := 0;
      assert readers[..0] == [];
      while i < |readers| && unmatched.None?
        invariant 0 <= i <= |readers|
        invariant Mirrors(ScanAll(p, START, Flatten(readers[..i])))
      {
        ReadOne(readers[i], Flatten(readers[..i]));
        assert readers[..i + 1][..i] == readers[..i];
        i := i + 1;
      }
      if i < |readers| {
        FlattenPrefix(readers, i);
        DoneStays(p, START, Flatten(readers[..i]), Flatten(readers)[|Flatten(readers[..i])|..]);
      } else {
        assert readers[..i] == readers;
      }
    }

    method ReadOne(reader: seq<Entry>, ghost before: seq<Entry>)
      requires unmatched.None? && Mirrors(ScanAll(p, START, before))
      modifies this
      ensures Mirrors(ScanAll(p, START, before + reader))
    {
      var k := 0;
      assert before + reader[..0] == before;
      while k < |reader| && unmatched.None?
        invariant 0 <= k <= |reader|
        invariant Mirrors(ScanAll(p, START, before + reader[..k]))
      {
        ScanOne(p, START, before + reader[..k], reader[k]);
        assert before + reader[..k + 1] == before + reader[..k] + [reader[k]];
        Take(reader[k]);
        k := k + 1;
      }
      if k < |reader| {
        DoneStays(p, START, before + reader[..k], reader[k..]);
        assert before + reader[..k] + reader[k..] == before + reader;
      } else {
        assert reader[..k] == reader;
      }
    }
  }

  lemma {:induction false} FlattenPrefix(readers: seq<seq<Entry>>, i: nat)
    requires i <= |readers|
    ensures Flatten(readers[..i]) <= Flatten(readers)
    ensures Flatten(readers[..i]) + Flatten(readers)[|Flatten(readers[..i])|..] == Flatten(readers)
    decreases |readers|
  {
    if i < |readers| {
      FlattenPrefix(readers[..|readers| - 1], i);
      assert readers[..|readers| - 1][..i] == readers[..i];
    } else {
      assert readers[..i] == readers;
    }
  }

  method AppendRows(p: Params, cache: PathCache, es: seq<Entry>) returns (m: Made)
    ensures m == MakeRows(p, cache, es)
  {
    m := Made([], cache);
    for i := 0 to |es|
      invariant m == MakeRows(p, cache, es[..i])
    {
      assert es[..i + 1][..i] == es[..i];
      m := MakeOne(p, m, es[i]);
    }
    assert es[..|es|] == es;
  }

  /** The snapshot as rows, or the last entry. */
  method MakeHead(p: Params, snapshot: Snapshot, last: Option<Entry>, ghost sc: Scan) returns (head: seq<Entry>)
    requires snapshot == sc.snapshot && last == sc.last
    ensures head == Head(p, sc)
  {
    head := [];
    if SendsSnapshot(p) {
      var time := SinceMsec(p);
      if p.since.LastWord? {
        time := NewestSnapshotTime(snapshot, time);
      }
      head := StampSnapshot(snapshot, time);
    } else if last.Some? && p.since.LastWord? {
      head := [last.value];
    }
  }

  method MakeResult(p: Params, rows: seq<Row>, cache: PathCache, logIsEmpty: bool, dataBefore: bool,
                    limitHit: bool, unmatched: Option<Entry>, ghost sc: Scan, now: int) returns (r: Log)
    requires Made(rows, cache) == AllRows(p, sc)
    requires logIsEmpty == (sc.log == []) && dataBefore == sc.dataBefore
    requires limitHit == sc.limitHit && unmatched == sc.unmatched
    ensures r == Report(p, sc, now)
  {
    RowsAreReadable(p, cache, Head(p, sc) + sc.log, rows);
    var dict := SentDict(p, cache);
    r := Conclude(p, rows, ExpandedTimes(dict, rows), dict, logIsEmpty,
                  if unmatched.Some? then Some(unmatched.value.time) else None, dataBefore, limitHit, now);
  }

  method ImplGetLog(readers: seq<seq<Entry>>, p: Params, now: int) returns (r: Log)
    ensures r == GetLog(p, Flatten(readers), now)
  {
    var q := new Query(p);
    q.Read(readers);
    ghost var sc := ScanAll(p, START, Flatten(readers));
    var head := MakeHead(p, q.snapshot, q.last, sc);
    var made := AppendRows(p, q.cache, head);
    r := MakeResult(p, made.rows + q.log, made.cache, q.log == [], q.dataBefore, q.limitHit, q.unmatched, sc, now);
  }
}
