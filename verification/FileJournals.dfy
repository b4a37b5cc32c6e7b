/**
 The rolling, rotating file journal (libshvcore/src/utils/shvfilejournal.cpp and
 shvjournalfilewriter.cpp).  A log file is its start time and its rows; the directory holds
 files in the order of their start times.
 */
module FileJournals {
  import opened ByteStrings
  import opened Journals

  datatype LogFile = LogFile(start: int, rows: seq<Entry>)

  type Disk = seq<LogFile>

  function Size(rowSize: Entry -> nat, rows: seq<Entry>): nat
  {
    if rows == [] then 0 else Size(rowSize, rows[..|rows| - 1]) + rowSize(rows[|rows| - 1])
  }

  function TotalSize(rowSize: Entry -> nat, disk: Disk): nat
  {
    if disk == [] then 0 else Size(rowSize, disk[0].rows) + TotalSize(rowSize, disk[1..])
  }

  function Starts(disk: Disk): (r: seq<int>)
    ensures |r| == |disk| && forall i | 0 <= i < |r| :: r[i] == disk[i].start
  {
    seq(|disk|, i requires 0 <= i < |disk| => disk[i].start)
  }

  // ---------------------------------------------------------------- what every run keeps

  /** Rows in time order, none before the start of the file. */
  ghost predicate FileSound(f: LogFile)
  {
    f.start > 0 && Ordered(f.rows) && forall i | 0 <= i < |f.rows| :: f.start <= f.rows[i].time
  }

  ghost predicate IsHead(f: LogFile, s: Snapshot, state: Snapshot)
  {
    WellKeyed(s) && View(s) == state && SnapshotRows(s, f.start) <= f.rows
  }

  /** A file begins with the rows of a snapshot that shows `state`. */
  ghost predicate BeginsWith(f: LogFile, state: Snapshot)
  {
    exists s: Snapshot :: IsHead(f, s, state)
  }

  function Last(disk: Disk): LogFile
    requires disk != []
  {
    disk[|disk| - 1]
  }

  /** No row of `f` is newer than `time`, given that its rows are in time order. */
  predicate NotAfter(f: LogFile, time: int)
  {
    f.start <= time && (f.rows != [] ==> f.rows[|f.rows| - 1].time <= time)
  }

  /** The time of the newest row, or the start of an empty file (`findLastEntryDateTime`). */
  function NewestOf(f: LogFile): int { if f.rows == [] then f.start else f.rows[|f.rows| - 1].time }

  ghost predicate InTimeAt(disk: Disk, i: nat)
    requires i < |disk|
  {
    FileSound(disk[i]) && (i > 0 ==> disk[i - 1].start < disk[i].start && NotAfter(disk[i - 1], disk[i].start))
  }

  /** Files are in time order, and their rows with them. */
  ghost predicate InTime(disk: Disk)
  {
    forall i | 0 <= i < |disk| :: InTimeAt(disk, i)
  }

  ghost predicate ResumesAt(disk: Disk, i: nat)
    requires 0 < i < |disk|
  {
    BeginsWith(disk[i], View(Replay(map[], disk[i - 1].rows)))
  }

  /** Each file but the oldest begins with the state that its predecessor left. */
  ghost predicate Resumes(disk: Disk)
  {
    forall i | 0 < i < |disk| :: ResumesAt(disk, i)
  }

  ghost predicate Linked(disk: Disk) { InTime(disk) && Resumes(disk) }

  lemma InTimeSuffix(disk: Disk, k: nat)
    requires InTime(disk) && k <= |disk|
    ensures InTime(disk[k..])
  {
    forall i | 0 <= i < |disk[k..]| ensures InTimeAt(disk[k..], i) {
      assert InTimeAt(disk, k + i);
    }
  }

  lemma ResumesSuffix(disk: Disk, k: nat)
    requires Resumes(disk) && k <= |disk|
    ensures Resumes(disk[k..])
  {
    forall i | 0 < i < |disk[k..]| ensures ResumesAt(disk[k..], i) {
      assert ResumesAt(disk, k + i);
      assert disk[k..][i] == disk[k + i] && disk[k..][i - 1] == disk[k + i - 1];
    }
  }

  lemma LinkedPrefix(disk: Disk, k: nat)
    requires Linked(disk) && k <= |disk|
    ensures Linked(disk[..k])
  {
    forall i | 0 <= i < k ensures InTimeAt(disk[..k], i) {
      assert InTimeAt(disk, i);
    }
    forall i | 0 < i < k ensures ResumesAt(disk[..k], i) {
      assert ResumesAt(disk, i);
      assert disk[..k][i] == disk[i] && disk[..k][i - 1] == disk[i - 1];
    }
  }

  /** The newest file is not ahead of `recent`, and it alone replays to the snapshot in memory. */
  ghost predicate Newest(f: LogFile, snapshot: Snapshot, recent: int)
  {
    NotAfter(f, recent) && View(Replay(map[], f.rows)) == View(snapshot)
  }

  /** What every run of the journal keeps. */
  ghost predicate Sound(disk: Disk, snapshot: Snapshot, recent: int)
  {
    && Linked(disk)
    && (if disk == [] then snapshot == map[] && recent == 0 else Newest(Last(disk), snapshot, recent))
  }

  /** The directory after rows were appended to the file that starts at `start`, which is the last one or a new one. */
  function WithRows(disk: Disk, start: int, rows: seq<Entry>): Disk
  {
    if disk != [] && Last(disk).start == start then disk[..|disk| - 1] + [LogFile(start, Last(disk).rows + rows)]
    else disk + [LogFile(start, rows)]
  }

  lemma BeginsWithMore(f: LogFile, state: Snapshot, rows: seq<Entry>)
    requires BeginsWith(f, state)
    ensures BeginsWith(LogFile(f.start, f.rows + rows), state)
  {
    var s: Snapshot :| IsHead(f, s, state);
    assert IsHead(LogFile(f.start, f.rows + rows), s, state);
  }

  lemma FileGrows(f: LogFile, rows: seq<Entry>, recent: int)
    requires FileSound(f) && Ordered(rows)
    requires NotAfter(f, recent) && forall i | 0 <= i < |rows| :: recent <= rows[i].time
    ensures FileSound(LogFile(f.start, f.rows + rows))
  {
  }

  lemma LinkedGrows(disk: Disk, rows: seq<Entry>)
    requires Linked(disk) && disk != [] && FileSound(LogFile(Last(disk).start, Last(disk).rows + rows))
    ensures Linked(WithRows(disk, Last(disk).start, rows))
  {
    var more := WithRows(disk, Last(disk).start, rows);
    forall i | 0 <= i < |more| ensures InTimeAt(more, i) {
      assert InTimeAt(disk, i);
    }
    forall i | 0 < i < |more| ensures ResumesAt(more, i) {
      assert ResumesAt(disk, i);
      if i == |disk| - 1 {
        BeginsWithMore(disk[i], View(Replay(map[], disk[i - 1].rows)), rows);
      }
    }
  }

  lemma NewestAppended(f: LogFile, snapshot: Snapshot, recent: int, e: Entry)
    requires Newest(f, snapshot, recent) && recent <= e.time
    ensures Newest(LogFile(f.start, f.rows + [e]), AddToSnapshot(snapshot, e), e.time)
  {
    ReplayOne(map[], f.rows, e);
    ViewStep(Replay(map[], f.rows), e);
    ViewStep(snapshot, e);
  }

  /** Appending an entry that is not older than anything before. */
  lemma SoundAppend(disk: Disk, snapshot: Snapshot, recent: int, e: Entry)
    requires Sound(disk, snapshot, recent) && disk != [] && recent <= e.time
    ensures Sound(WithRows(disk, Last(disk).start, [e]), AddToSnapshot(snapshot, e), e.time)
  {
    assert InTimeAt(disk, |disk| - 1);
    FileGrows(Last(disk), [e], recent);
    LinkedGrows(disk, [e]);
    NewestAppended(Last(disk), snapshot, recent, e);
  }

  lemma NewFileBegins(snapshot: Snapshot, start: int, state: Snapshot)
    requires WellKeyed(snapshot) && View(snapshot) == state
    ensures BeginsWith(LogFile(start, SnapshotRows(snapshot, start)), state)
  {
    assert IsHead(LogFile(start, SnapshotRows(snapshot, start)), snapshot, state);
  }

  lemma NewestNewFile(snapshot: Snapshot, start: int)
    requires WellKeyed(snapshot) && start > 0
    ensures var g := LogFile(start, SnapshotRows(snapshot, start)); FileSound(g) && Newest(g, snapshot, start)
  {
    RowsReplayToSnapshot(map[], snapshot, start);
  }

  lemma LinkedNewFile(disk: Disk, g: LogFile)
    requires Linked(disk) && FileSound(g)
    requires disk != [] ==> Last(disk).start < g.start && NotAfter(Last(disk), g.start)
    requires disk != [] ==> BeginsWith(g, View(Replay(map[], Last(disk).rows)))
    ensures Linked(disk + [g])
  {
    var more := disk + [g];
    forall i | 0 <= i < |more| ensures InTimeAt(more, i) {
      assert i < |disk| ==> InTimeAt(disk, i);
    }
    forall i | 0 < i < |more| ensures ResumesAt(more, i) {
      assert i < |disk| ==> ResumesAt(disk, i);
    }
  }

  /** A new file that starts with the snapshot, at a later time than the present file. */
  lemma SoundNewFile(disk: Disk, snapshot: Snapshot, recent: int, start: int)
    requires WellKeyed(snapshot) && Sound(disk, snapshot, recent) && recent <= start && 0 < start
    requires disk != [] ==> Last(disk).start < start
    ensures Sound(WithRows(disk, start, SnapshotRows(snapshot, start)), snapshot, start)
  {
    NewestNewFile(snapshot, start);
    if disk != [] {
      NewFileBegins(snapshot, start, View(Replay(map[], Last(disk).rows)));
    }
    LinkedNewFile(disk, LogFile(start, SnapshotRows(snapshot, start)));
  }

  lemma NewestWithSnapshot(f: LogFile, snapshot: Snapshot, recent: int, start: int)
    requires WellKeyed(snapshot) && Newest(f, snapshot, recent) && recent <= start
    ensures Newest(LogFile(f.start, f.rows + SnapshotRows(snapshot, start)), snapshot, start)
  {
    var rows := SnapshotRows(snapshot, start);
    ReplayConcat(map[], f.rows, rows);
    RowsReplayToSnapshot(Replay(map[], f.rows), snapshot, start);
  }

  /** A second snapshot in a file that was begun in the same millisecond. */
  lemma SoundSameFile(disk: Disk, snapshot: Snapshot, recent: int, start: int)
    requires WellKeyed(snapshot) && Sound(disk, snapshot, recent) && recent <= start && disk != []
    requires Last(disk).start == start
    ensures Sound(WithRows(disk, start, SnapshotRows(snapshot, start)), snapshot, start)
  {
    assert InTimeAt(disk, |disk| - 1);
    FileGrows(Last(disk), SnapshotRows(snapshot, start), recent);
    LinkedGrows(disk, SnapshotRows(snapshot, start));
    NewestWithSnapshot(Last(disk), snapshot, recent, start);
  }

  /** Deleting the oldest files. */
  lemma SoundSuffix(disk: Disk, snapshot: Snapshot, recent: int, k: nat)
    requires Sound(disk, snapshot, recent) && k < |disk|
    ensures Sound(disk[k..], snapshot, recent) && Last(disk[k..]) == Last(disk)
  {
    InTimeSuffix(disk, k);
    ResumesSuffix(disk, k);
  }

  // ---------------------------------------------------------------- files by start time

  /** Each start time occurs once, and the files stand in their order. */
  ghost predicate Sorted(disk: Disk) { forall i, j | 0 <= i < j < |disk| :: disk[i].start < disk[j].start }

  /** The rows of the file with a start time. */
  function FileRows(disk: Disk, start: int): seq<Entry>
  {
    if disk == [] then []
    else if Last(disk).start == start then Last(disk).rows
    else FileRows(disk[..|disk| - 1], start)
  }

  lemma {:induction false} FileRowsAt(disk: Disk, i: nat)
    requires Sorted(disk) && i < |disk|
    ensures FileRows(disk, disk[i].start) == disk[i].rows
    decreases |disk|
  {
    if i < |disk| - 1 {
      FileRowsAt(disk[..|disk| - 1], i);
    }
  }

  lemma {:induction false} StartsIncrease(disk: Disk, i: nat, j: nat)
    requires InTime(disk) && i < j < |disk|
    ensures disk[i].start < disk[j].start
    decreases j
  {
    assert InTimeAt(disk, j);
    if i < j - 1 {
      StartsIncrease(disk, i, j - 1);
    }
  }

  lemma InTimeIsSorted(disk: Disk)
    requires InTime(disk)
    ensures Sorted(disk)
  {
    forall i, j | 0 <= i < j < |disk| ensures disk[i].start < disk[j].start {
      StartsIncrease(disk, i, j);
    }
  }

  /** Every file has rows. */
  ghost predicate Filled(disk: Disk) { forall i | 0 <= i < |disk| :: disk[i].rows != [] }

  // ---------------------------------------------------------------- consequences for readers

  function Rows(disk: Disk): seq<Entry>
  {
    if disk == [] then [] else disk[0].rows + Rows(disk[1..])
  }

  lemma {:induction false} RowsBound(disk: Disk, i: nat)
    requires InTime(disk) && i < |Rows(disk)| && disk != []
    ensures disk[0].start <= Rows(disk)[i].time
  {
    assert InTimeAt(disk, 0);
    if i >= |disk[0].rows| {
      InTimeSuffix(disk, 1);
      assert InTimeAt(disk, 1);
      RowsBound(disk[1..], i - |disk[0].rows|);
    }
  }

  /** Entry times never decrease, across all files. */
  lemma {:induction false} RowsAreOrdered(disk: Disk)
    requires InTime(disk)
    ensures Ordered(Rows(disk))
  {
    if disk != [] {
      assert InTimeAt(disk, 0);
      InTimeSuffix(disk, 1);
      RowsAreOrdered(disk[1..]);
      var rows: seq<Entry>, more: seq<Entry> := disk[0].rows, Rows(disk[1..]);
      forall i, j | 0 <= i < |rows| <= j < |rows + more| ensures rows[i].time <= (rows + more)[j].time {
        RowsBound(disk[1..], j - |rows|);
        assert InTimeAt(disk, 1);
      }
    }
  }

  /** What follows the head of a file. */
  ghost function TailOf(f: LogFile, s: Snapshot, state: Snapshot): (tail: seq<Entry>)
    requires IsHead(f, s, state)
    ensures f.rows == SnapshotRows(s, f.start) + tail
  {
    f.rows[|SnapshotRows(s, f.start)|..]
  }

  lemma HeadThenTail(base: Snapshot, s: Snapshot, start: int, tail: seq<Entry>)
    requires WellKeyed(s) && View(s) == View(base)
    ensures var rows := SnapshotRows(s, start) + tail; View(Replay(base, rows)) == View(Replay(map[], rows))
  {
    var head := SnapshotRows(s, start);
    ReplayConcat(base, head, tail);
    ReplayConcat(map[], head, tail);
    RowsReplayToSnapshot(base, s, start);
    RowsReplayToSnapshot(map[], s, start);
    ViewDecides(Replay(base, head), Replay(map[], head), tail);
  }

  /** On top of the state that its predecessor leaves, a file replays as it does alone. */
  lemma FileReplaysAlone(base: Snapshot, f: LogFile)
    requires BeginsWith(f, View(base))
    ensures View(Replay(base, f.rows)) == View(Replay(map[], f.rows))
  {
    var s: Snapshot :| IsHead(f, s, View(base));
    HeadThenTail(base, s, f.start, TailOf(f, s, View(base)));
  }

  lemma {:induction false} RowsOfPrefix(disk: Disk)
    requires disk != []
    ensures Rows(disk) == Rows(disk[..|disk| - 1]) + Last(disk).rows
  {
    if |disk| > 1 {
      RowsOfPrefix(disk[1..]);
      assert disk[1..][..|disk| - 2] == disk[..|disk| - 1][1..];
    } else {
      assert disk[1..] == [] && disk[..0] == [];
    }
  }

  /** The whole journal replays to what its newest file replays to. */
  lemma {:induction false} NewestFileIsEnough(disk: Disk)
    requires Linked(disk) && disk != []
    ensures View(Replay(map[], Rows(disk))) == View(Replay(map[], Last(disk).rows))
    decreases |disk|
  {
    var before, f := disk[..|disk| - 1], Last(disk);
    RowsOfPrefix(disk);
    ReplayConcat(map[], Rows(before), f.rows);
    if before != [] {
      LinkedPrefix(disk, |disk| - 1);
      assert ResumesAt(disk, |disk| - 1);
      NewestFileIsEnough(before);
      FileReplaysAlone(Replay(map[], Rows(before)), f);
    }
  }
}
