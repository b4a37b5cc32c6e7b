/** The log query (libshvcore/src/utils/getlog.cpp): scan of the entries, path dictionary, result rows and header. */
module GetLogs {
  import opened ByteStrings
  import RpcValues
  import opened Journals

  /** A `since` or `until` as given by the caller or put into the header. */
  datatype Moment = Missing | At(ms: int) | LastWord | Other

  datatype Params = Params(since: Moment, until: Moment, limit: int, withSnapshot: bool, withPathsDict: bool,
                           matches: Entry -> bool)

  function SinceMsec(p: Params): int { if p.since.At? then p.since.ms else 0 }

  function UntilMsec(p: Params): int { if p.until.At? then p.until.ms else INT64_MAX }

  // ---------------------------------------------------------------- scanning

  datatype Scan = Scan(snapshot: Snapshot, log: seq<Entry>, last: Option<Entry>, unmatched: Option<Entry>,
                       dataBefore: bool, limitHit: bool, done: bool)

  const START := Scan(map[], [], None, None, false, false, false)

  /** The body of the inner loop; `done` is the jump out of both loops. */
  function Examine(p: Params, sc: Scan, e: Entry): Scan
  {
    if !p.matches(e) then sc
    else
      var past := p.since.LastWord? || e.time <= SinceMsec(p);
      var snapshot := if past then AddToSnapshot(sc.snapshot, e) else sc.snapshot;
      if e.time >= UntilMsec(p) then sc.(snapshot := snapshot, unmatched := Some(e), done := true)
      else if e.time > SinceMsec(p) && !p.since.LastWord? then
        var hit := |snapshot| + |sc.log| + 1 > p.limit;
        if hit && sc.last.Some? && e.time != sc.last.value.time then
          sc.(snapshot := snapshot, unmatched := Some(e), limitHit := true, done := true)
        else
          sc.(snapshot := snapshot, log := sc.log + [e], last := Some(e), limitHit := sc.limitHit || hit)
      else sc.(snapshot := snapshot, last := Some(e), dataBefore := true)
  }

  function ScanAll(p: Params, sc: Scan, es: seq<Entry>): Scan
  {
    if es == [] then sc
    else
      var before := ScanAll(p, sc, es[..|es| - 1]);
      if before.done then before else Examine(p, before, es[|es| - 1])
  }

  // ---------------------------------------------------------------- rows and the path dictionary

  datatype PathRef = Spelled(path: Path) | Indexed(index: int)

  /** A row as sent: the usual domain is sent as null. */
  datatype Row = Row(time: int, path: PathRef, value: RpcValues.Value, drop: bool, domain: Option<Bytes>,
                     isSnapshot: bool, isSpontaneous: bool)

  type PathCache = map<Path, int>

  function Learn(cache: PathCache, path: Path): PathCache
  {
    if path in cache then cache else cache[path := |cache|]
  }

  function MakeRow(p: Params, cache: PathCache, e: Entry): Row
    requires p.withPathsDict ==> e.path in cache
  {
    Row(e.time, if p.withPathsDict then Indexed(cache[e.path]) else Spelled(e.path), e.value, e.drop,
        if |e.domain| == 0 || e.domain == VAL_CHANGE then None else Some(e.domain), e.isSnapshot, e.isSpontaneous)
  }

  /** Rows made one after the other, and the dictionary they leave. */
  datatype Made = Made(rows: seq<Row>, cache: PathCache)

  function MakeOne(p: Params, m: Made, e: Entry): Made
  {
    var cache := if p.withPathsDict then Learn(m.cache, e.path) else m.cache;
    Made(m.rows + [MakeRow(p, cache, e)], cache)
  }

  function MakeRows(p: Params, cache: PathCache, es: seq<Entry>): (m: Made)
    ensures |m.rows| == |es|
  {
    if es == [] then Made([], cache) else MakeOne(p, MakeRows(p, cache, es[..|es| - 1]), es[|es| - 1])
  }

  /** Paths are numbered in the order in which they were met. */
  ghost predicate Numbering(cache: PathCache)
  {
    && (forall a | a in cache :: 0 <= cache[a] < |cache|)
    && forall a, b | a in cache && b in cache && cache[a] == cache[b] :: a == b
  }

  ghost predicate Extends(d: PathCache, c: PathCache) { forall a | a in c :: a in d && d[a] == c[a] }

  /** Rows that are what the dictionary makes of the entries. */
  ghost predicate RowsOf(p: Params, cache: PathCache, es: seq<Entry>, rows: seq<Row>)
  {
    |rows| == |es| && Numbering(cache) &&
    forall i | 0 <= i < |es| :: (p.withPathsDict ==> es[i].path in cache) && rows[i] == MakeRow(p, cache, es[i])
  }

  /** Learning more never changes the number of a path. */
  lemma RowsStay(p: Params, c: PathCache, d: PathCache, es: seq<Entry>, rows: seq<Row>)
    requires RowsOf(p, c, es, rows) && Extends(d, c) && Numbering(d)
    ensures RowsOf(p, d, es, rows)
  {
  }

  lemma MadeOne(p: Params, m: Made, es: seq<Entry>, e: Entry)
    requires RowsOf(p, m.cache, es, m.rows)
    ensures var n := MakeOne(p, m, e); RowsOf(p, n.cache, es + [e], n.rows) && Extends(n.cache, m.cache)
  {
  }

  lemma {:induction false} MadeRows(p: Params, cache: PathCache, es: seq<Entry>)
    requires Numbering(cache)
    ensures var m := MakeRows(p, cache, es); RowsOf(p, m.cache, es, m.rows) && Extends(m.cache, cache)
  {
    if es != [] {
      var older, e := es[..|es| - 1], es[|es| - 1];
      MadeRows(p, cache, older);
      MadeOne(p, MakeRows(p, cache, older), older, e);
      assert es == older + [e];
    }
  }

  /** The dictionary as sent: index to path. */
  function PathDict(cache: PathCache): (dict: map<int, Path>)
    requires Numbering(cache)
    ensures forall path | path in cache :: cache[path] in dict && dict[cache[path]] == path
  {
    map i | i in cache.Values :: (var path :| path in cache && cache[path] == i; path)
  }

  const NO_ENTRY := Entry(0, [], RpcValues.Value([], RpcValues.Invalid), false, [], false, false)

  function Unmapped(dict: map<int, Path>, ref: PathRef): Path
    requires ref.Indexed? ==> ref.index in dict
  {
    if ref.Indexed? then dict[ref.index] else ref.path
  }

  /** The domain abbreviation C. */
  predicate IsC(domain: Bytes) { |domain| == 1 && domain[0] == 67 }

  /** What a row can say of an entry: nothing without a path; no domain, and the abbreviation C, are value changes. */
  function AsRead(e: Entry): Entry
  {
    if |e.path| == 0 then NO_ENTRY
    else if |e.domain| == 0 || IsC(e.domain) then e.(domain := VAL_CHANGE)
    else e
  }

  /** A row read back; a row without a path reads as no entry at all. */
  function Expand(dict: map<int, Path>, row: Row): Entry
    requires row.path.Indexed? ==> row.path.index in dict
  {
    var path := Unmapped(dict, row.path);
    if |path| == 0 then NO_ENTRY
    else
      var domain := if row.domain.None? || |row.domain.value| == 0 || IsC(row.domain.value) then VAL_CHANGE
                    else row.domain.value;
      Entry(row.time, path, row.value, row.drop, domain, row.isSnapshot, row.isSpontaneous)
  }

  // ---------------------------------------------------------------- the result

  datatype Log = Log(rows: seq<Row>, dict: map<int, Path>, since: Moment, until: Moment, limitHit: bool)

  predicate SendsSnapshot(p: Params) { p.withSnapshot && !p.since.Missing? }

  /** The time that snapshot rows carry: `since`, or for "last" that of the newest snapshot entry. */
  ghost function NewestTime(s: Snapshot, floor: int): (r: int)
    ensures r >= floor && (forall k | k in s :: s[k].time <= r) && (r == floor || exists k | k in s :: s[k].time == r)
    decreases |s|
  {
    if s == map[] then floor
    else
      var k := LeastKey(s);
      var others := NewestTime(s - {k}, floor);
      assert forall j | j in s :: j == k || j in s - {k};
      if s[k].time > others then s[k].time else others
  }

  ghost function SnapshotTime(p: Params, s: Snapshot): int
  {
    if p.since.LastWord? then NewestTime(s, SinceMsec(p)) else SinceMsec(p)
  }

  /** What is sent in front of the log rows. */
  ghost function Head(p: Params, sc: Scan): seq<Entry>
  {
    if SendsSnapshot(p) then SnapshotRows(sc.snapshot, SnapshotTime(p, sc.snapshot))
    else if sc.last.Some? && p.since.LastWord? then [sc.last.value]
    else []
  }

  /** The matching entries of one timestamp may not be complete yet when it is this close to now. */
  predicate TooRecent(time: int, now: int) { Abs(time - now) < 1000 }

  function WithoutTime(rows: seq<Row>, times: seq<int>, time: int): seq<Row>
    requires |rows| == |times|
  {
    if rows == [] then []
    else
      var n := |rows| - 1;
      var older := WithoutTime(rows[..n], times[..n], time);
      if times[n] == time then older else older + [rows[n]]
  }

  function ExpandedTimes(dict: map<int, Path>, rows: seq<Row>): (ts: seq<int>)
    requires forall i | 0 <= i < |rows| :: rows[i].path.Indexed? ==> rows[i].path.index in dict
    ensures |ts| == |rows| && forall i | 0 <= i < |ts| :: ts[i] == Expand(dict, rows[i]).time
  {
    seq(|rows|, i requires 0 <= i < |rows| => Expand(dict, rows[i]).time)
  }

  /** Header and rows from what is to be sent; `cut` is the time of the first entry that was left out, if any. */
  function Conclude(p: Params, rows: seq<Row>, times: seq<int>, dict: map<int, Path>, logIsEmpty: bool,
                    cut: Option<int>, dataBefore: bool, limitHit: bool, now: int): Log
    requires |rows| == |times|
  {
    var cut1 := if cut.None? && logIsEmpty && rows != [] then Some(times[|rows| - 1]) else cut;
    var ranOut := !p.since.LastWord? && rows != [] && cut1.None?;
    var cut2 := if ranOut then Some(times[|rows| - 1]) else cut1;
    var kept := if ranOut && TooRecent(cut2.value, now) then WithoutTime(rows, times, cut2.value) else rows;
    if kept == [] then
      Log(kept, dict, if p.since.Missing? then p.until else p.since, if p.until.Missing? then p.since else p.until,
        limitHit)
    else if p.since.LastWord? then Log(kept, dict, At(kept[0].time), At(kept[0].time), limitHit)
    else Log(kept, dict, if dataBefore then p.since else At(kept[0].time), At(cut2.value), limitHit)
  }

  /** Log rows are made first, snapshot rows after them; all stay readable with the final dictionary. */
  ghost function AllRows(p: Params, sc: Scan): (m: Made)
    ensures RowsOf(p, m.cache, Head(p, sc) + sc.log, m.rows)
  {
    var log := MakeRows(p, map[], sc.log);
    var head := MakeRows(p, log.cache, Head(p, sc));
    MadeRows(p, map[], sc.log);
    MadeRows(p, log.cache, Head(p, sc));
    RowsStay(p, log.cache, head.cache, sc.log, log.rows);
    Made(head.rows + log.rows, head.cache)
  }

  function SentDict(p: Params, cache: PathCache): map<int, Path>
    requires Numbering(cache)
  {
    if p.withPathsDict then PathDict(cache) else map[]
  }

  lemma RowsAreReadable(p: Params, cache: PathCache, es: seq<Entry>, rows: seq<Row>)
    requires RowsOf(p, cache, es, rows)
    ensures forall i | 0 <= i < |rows| ::
      (rows[i].path.Indexed? ==> rows[i].path.index in SentDict(p, cache)) &&
      Unmapped(SentDict(p, cache), rows[i].path) == es[i].path
  {
  }

  ghost function Report(p: Params, sc: Scan, now: int): Log
  {
    var m := AllRows(p, sc);
    RowsAreReadable(p, m.cache, Head(p, sc) + sc.log, m.rows);
    var dict := SentDict(p, m.cache);
    Conclude(p, m.rows, ExpandedTimes(dict, m.rows), dict, sc.log == [],
             if sc.unmatched.Some? then Some(sc.unmatched.value.time) else None, sc.dataBefore, sc.limitHit, now)
  }

  ghost function GetLog(p: Params, es: seq<Entry>, now: int): Log { Report(p, ScanAll(p, START, es), now) }
}
