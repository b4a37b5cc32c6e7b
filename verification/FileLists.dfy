/** When the journal's list names a file twice, so that a query reads its rows twice. */
module FileLists {
  import opened ByteStrings
  import RpcValues
  import opened Journals
  import opened FileJournals
  import opened ShvFileJournals
  import opened JournalSizes
  import opened TimeTexts
  import opened NamedJournals

  /** What a query over the listed files reads: each is opened under its name. */
  function ReadNamed(disk: Disk, files: seq<int>): seq<Entry>
  {
    if files == [] then []
    else ReadNamed(disk, files[..|files| - 1]) + FileRows(disk, NamedTime(files[|files| - 1]))
  }

  ghost predicate SameFile(files: seq<int>, i: nat, k: nat)
    requires i < k < |files|
  {
    NamedTime(files[i]) == NamedTime(files[k])
  }

  /** No two listed times have one name. */
  ghost predicate NamedOnce(files: seq<int>) { forall i, k | 0 <= i < k < |files| :: !SameFile(files, i, k) }

  /** A file that is listed twice has no rows. */
  ghost predicate ReadsOnce(disk: Disk, files: seq<int>)
  {
    forall i, k | 0 <= i < k < |files| :: SameFile(files, i, k) ==> FileRows(disk, NamedTime(files[i])) == []
  }

  // ---------------------------------------------------------------- reading each row once

  /** The directory without one of its files. */
  function Without(disk: Disk, i: nat): Disk
    requires i < |disk|
  {
    disk[..i] + disk[i + 1..]
  }

  lemma {:induction false} RowsConcat(a: Disk, b: Disk)
    ensures Rows(a + b) == Rows(a) + Rows(b)
    decreases |a|
  {
    if a == [] {
      assert a + b == b;
    } else {
      assert (a + b)[1..] == a[1..] + b;
      RowsConcat(a[1..], b);
    }
  }

  lemma RowsWithout(disk: Disk, i: nat)
    requires i < |disk|
    ensures multiset(Rows(disk)) == multiset(disk[i].rows) + multiset(Rows(Without(disk, i)))
    ensures |Rows(disk)| == |disk[i].rows| + |Rows(Without(disk, i))|
  {
    var a, b := disk[..i], disk[i + 1..];
    assert disk == a + ([disk[i]] + b);
    assert ([disk[i]] + b)[1..] == b;
    RowsConcat(a, [disk[i]] + b);
    RowsConcat(a, b);
  }

  lemma SortedWithout(disk: Disk, i: nat)
    requires Sorted(disk) && i < |disk|
    ensures Sorted(Without(disk, i))
    ensures forall x :: HasFile(Without(disk, i), x) <==> HasFile(disk, x) && x != disk[i].start
  {
    var less := Without(disk, i);
    assert forall k | 0 <= k < |less| :: less[k] == disk[if k < i then k else k + 1];
    forall x ensures HasFile(less, x) <==> HasFile(disk, x) && x != disk[i].start {
      if HasFile(disk, x) && x != disk[i].start {
        var k :| 0 <= k < |disk| && disk[k].start == x;
        assert less[if k < i then k else k - 1].start == x;
      }
    }
  }

  lemma RowsOfOther(disk: Disk, i: nat, x: int)
    requires Sorted(disk) && i < |disk| && x != disk[i].start
    ensures FileRows(Without(disk, i), x) == FileRows(disk, x)
  {
    var less := Without(disk, i);
    SortedWithout(disk, i);
    if HasFile(disk, x) {
      var k :| 0 <= k < |disk| && disk[k].start == x;
      var m := if k < i then k else k - 1;
      assert less[m] == disk[k];
      FileRowsAt(disk, k);
      FileRowsAt(less, m);
    } else {
      NoFileNoRows(disk, x);
      NoFileNoRows(less, x);
    }
  }

  lemma {:induction false} ReadWithout(disk: Disk, i: nat, files: seq<int>)
    requires Sorted(disk) && i < |disk| && !Lists(files, disk[i].start)
    ensures ReadNamed(Without(disk, i), files) == ReadNamed(disk, files)
    decreases |files|
  {
    hide NamedTime;
    if files != [] {
      var older, last := files[..|files| - 1], files[|files| - 1];
      assert files == older + [last];
      ListedExtends(older, last, disk[i].start);
      ReadWithout(disk, i, older);
      RowsOfOther(disk, i, NamedTime(last));
    }
  }

  /** The files that one list names beyond another by its last entry. */
  lemma LastNamed(files: seq<int>, name: int)
    requires files != []
    ensures var older := files[..|files| - 1];
      Lists(files, name) <==> Lists(older, name) || NamedTime(files[|files| - 1]) == name
  {
    hide NamedTime;
    var older := files[..|files| - 1];
    assert files == older + [files[|files| - 1]];
    ListedExtends(older, files[|files| - 1], name);
  }

  /** A list that names exactly the files there are. */
  ghost predicate NamesAll(files: seq<int>, disk: Disk) { forall x :: Lists(files, x) <==> HasFile(disk, x) }

  lemma CoversNamesAll(files: seq<int>, disk: Disk)
    requires Covers(files, disk)
    ensures NamesAll(files, disk)
  {
    hide NamedTime;
    forall x ensures Lists(files, x) <==> HasFile(disk, x) {
      ListedFileIsThere(files, disk, x);
    }
  }

  lemma NamedBefore(files: seq<int>, k: nat)
    requires k < |files|
    ensures Lists(files, NamedTime(files[k]))
  {
    hide NamedTime;
  }

  /** Without its last entry, a list names the same files, or all but the last entry's. */
  lemma OlderNames(files: seq<int>, disk: Disk) returns (i: nat)
    requires NamesAll(files, disk) && files != [] && Sorted(disk)
    ensures var older, name := files[..|files| - 1], NamedTime(files[|files| - 1]);
      && i < |disk| && disk[i].start == name && FileRows(disk, name) == disk[i].rows
      && (if Lists(older, name) then NamesAll(older, disk) else NamesAll(older, Without(disk, i)))
  {
    hide NamedTime;
    var older, name := files[..|files| - 1], NamedTime(files[|files| - 1]);
    NamedBefore(files, |files| - 1);
    i :| 0 <= i < |disk| && disk[i].start == name;
    FileRowsAt(disk, i);
    SortedWithout(disk, i);
    forall x ensures Lists(files, x) <==> Lists(older, x) || name == x {
      LastNamed(files, x);
    }
  }

  lemma NothingToRead(disk: Disk)
    requires NamesAll([], disk)
    ensures Rows(disk) == []
  {
    hide NamedTime;
    assert disk != [] ==> HasFile(disk, disk[0].start);
    assert !Lists([], if disk == [] then 0 else disk[0].start);
  }

  /** A last entry whose file was named before. */
  lemma RepeatedName(disk: Disk, files: seq<int>)
    requires files != [] && Lists(files[..|files| - 1], NamedTime(files[|files| - 1]))
    ensures ReadsOnce(disk, files) <==>
      ReadsOnce(disk, files[..|files| - 1]) && FileRows(disk, NamedTime(files[|files| - 1])) == []
  {
    hide NamedTime;
    var older, n := files[..|files| - 1], |files| - 1;
    var k :| 0 <= k < |older| && NamedTime(older[k]) == NamedTime(files[n]);
    assert SameFile(files, k, n);
    assert forall i, k | 0 <= i < k < n :: SameFile(older, i, k) <==> SameFile(files, i, k);
    assert forall i | 0 <= i < n :: older[i] == files[i];
  }

  /** A last entry whose file was not named before. */
  lemma NewName(disk: Disk, files: seq<int>, i: nat)
    requires files != [] && !Lists(files[..|files| - 1], NamedTime(files[|files| - 1]))
    requires Sorted(disk) && i < |disk| && disk[i].start == NamedTime(files[|files| - 1])
    ensures ReadsOnce(disk, files) <==> ReadsOnce(Without(disk, i), files[..|files| - 1])
  {
    hide NamedTime;
    var older, n := files[..|files| - 1], |files| - 1;
    assert forall i, k | 0 <= i < k < n :: SameFile(older, i, k) <==> SameFile(files, i, k);
    forall k | 0 <= k < n
      ensures !SameFile(files, k, n)
      ensures older[k] == files[k]
      ensures FileRows(Without(disk, i), NamedTime(files[k])) == FileRows(disk, NamedTime(files[k]))
    {
      NamedBefore(older, k);
      RowsOfOther(disk, i, NamedTime(older[k]));
    }
  }

  /** Rows read again on top of all rows are too many. */
  lemma TooMany(all: multiset<Entry>, read: multiset<Entry>, again: seq<Entry>)
    requires all <= read
    ensures all <= read + multiset(again)
    ensures read + multiset(again) == all <==> read == all && again == []
  {
    if again != [] {
      assert |read + multiset(again)| == |read| + |again| && |read| == |all| + |read - all|;
      assert read + multiset(again) != all;
    } else {
      assert read + multiset(again) == read;
    }
  }

  /**
   A list that names exactly the files there are misses no row, and reads each once exactly if no file with rows is
   named twice.
   */
  lemma {:induction false} ReadsEveryRowOnceIff(disk: Disk, files: seq<int>)
    requires Sorted(disk) && NamesAll(files, disk)
    ensures multiset(Rows(disk)) <= multiset(ReadNamed(disk, files))
    ensures multiset(ReadNamed(disk, files)) == multiset(Rows(disk)) <==> ReadsOnce(disk, files)
    decreases |files|
  {
    hide NamedTime;
    if files == [] {
      NothingToRead(disk);
    } else {
      var older, name := files[..|files| - 1], NamedTime(files[|files| - 1]);
      var i := OlderNames(files, disk);
      if Lists(older, name) {
        ReadsEveryRowOnceIff(disk, older);
        TooMany(multiset(Rows(disk)), multiset(ReadNamed(disk, older)), FileRows(disk, name));
        RepeatedName(disk, files);
      } else {
        SortedWithout(disk, i);
        ReadsEveryRowOnceIff(Without(disk, i), older);
        ReadWithout(disk, i, older);
        RowsWithout(disk, i);
        NewName(disk, files, i);
        SameRest(multiset(Rows(Without(disk, i))), multiset(ReadNamed(disk, older)), multiset(disk[i].rows));
      }
    }
  }

  lemma SameRest(a: multiset<Entry>, b: multiset<Entry>, rows: multiset<Entry>)
    ensures a <= b ==> rows + a <= b + rows
    ensures b + rows == rows + a <==> b == a
  {
    assert (b + rows) - rows == b && (rows + a) - rows == a;
  }

  /** Where every file has rows, this is to say that no two listed times have one name. */
  lemma FilledReadsOnceIff(disk: Disk, files: seq<int>)
    requires Sorted(disk) && Covers(files, disk) && Filled(disk)
    ensures multiset(ReadNamed(disk, files)) == multiset(Rows(disk)) <==> NamedOnce(files)
  {
    hide NamedTime;
    CoversNamesAll(files, disk);
    ReadsEveryRowOnceIff(disk, files);
    forall k | 0 <= k < |files| ensures FileRows(disk, NamedTime(files[k])) != [] {
      assert HasFile(disk, NamedTime(files[k]));
      var i :| 0 <= i < |disk| && disk[i].start == NamedTime(files[k]);
      FileRowsAt(disk, i);
    }
  }

  // ---------------------------------------------------------------- whole runs

  /** A file is begun under the name of one that is there. */
  ghost predicate Retakes(cfg: Config, n: Journal, msec: int) { NeedsFile(cfg, n) && HasFile(n.disk, NamedTime(msec)) }

  /** Since the directory was last read, a file was begun under a name that was taken. */
  ghost predicate NameTwice(cfg: Config, calls: seq<Call>)
  {
    calls != [] &&
    var before, last := calls[..|calls| - 1], calls[|calls| - 1];
    var c := Checked(cfg, NamedRun(cfg, before), last.entry, last.now);
    var e := last.entry.(time := LogTime(last.entry, last.now, c.recent));
    !Rotates(cfg, c, e) && (NameTwice(cfg, before) || Retakes(cfg, c, e.time))
  }

  lemma BegunOnceIff(files: seq<int>, disk: Disk, start: int)
    requires Covers(files, disk)
    ensures NamedOnce(files + [start]) <==> NamedOnce(files) && !HasFile(disk, NamedTime(start))
  {
    hide NamedTime;
    var more, n := files + [start], |files|;
    ListedFileIsThere(files, disk, NamedTime(start));
    assert forall i, k | 0 <= i < k < n :: SameFile(more, i, k) <==> SameFile(files, i, k);
    assert forall i | 0 <= i < n :: more[i] == files[i];
    if Lists(files, NamedTime(start)) {
      var k :| 0 <= k < |files| && NamedTime(files[k]) == NamedTime(start);
      assert SameFile(more, k, n);
    }
  }

  lemma StartsNamedOnce(disk: Disk)
    requires ByName(disk)
    ensures NamedOnce(Starts(disk))
  {
    hide NamedTime;
    forall i, k | 0 <= i < k < |disk| ensures !SameFile(Starts(disk), i, k) {
      assert disk[i].start < disk[k].start;
    }
  }

  /** An attempt leaves names listed once exactly if it rotates, or found them so and did not take a name again. */
  lemma AttemptedListIff(cfg: Config, n: Journal, entry: Entry, now: int)
    requires Listed(n) && LogTime(entry, now, n.recent) > 0
    requires FilledBut(n.disk, NamedTime(FiledUnder(cfg, n, LogTime(entry, now, n.recent))))
    ensures var r, e := Attempted(cfg, n, entry, now), entry.(time := LogTime(entry, now, n.recent));
      && r.Done?
      && (NamedOnce(r.after.files) <==> Rotates(cfg, n, e) || (NamedOnce(n.files) && !Retakes(cfg, n, e.time)))
  {
    hide NamedTime;
    var msec := LogTime(entry, now, n.recent);
    var e, start, ready := entry.(time := msec), FiledUnder(cfg, n, msec), Readied(cfg, n, msec, now);
    AttemptSucceeds(cfg, n, entry, now);
    ReadiedIsListed(cfg, n, msec, now);
    WrittenIsListed(cfg, ready, start, e);
    GrowsByRow(cfg, ready, start, e);
    RotatedIsListed(cfg, Written(cfg, ready, start, e));
    if Rotates(cfg, n, e) {
      StartsNamedOnce(Attempted(cfg, n, entry, now).after.disk);
    } else if NeedsFile(cfg, n) {
      BegunOnceIff(n.files, n.disk, msec);
    }
  }

  lemma CheckedNamedOnce(cfg: Config, n: Journal, entry: Entry, now: int)
    requires Listed(n) && Filled(n.disk) && now > 0
    ensures NamedOnce(Checked(cfg, n, entry, now).files) <==> NamedOnce(n.files)
  {
    hide NamedTime;
    CheckedIsListed(cfg, n, entry, now);
  }

  /** In every run, no two listed times have one name exactly if no name was taken again since the last rotation. */
  lemma {:induction false} NamedOnceIff(cfg: Config, calls: seq<Call>)
    requires Timed(calls)
    ensures NamedOnce(NamedRun(cfg, calls).files) <==> !NameTwice(cfg, calls)
  {
    hide NamedTime;
    if calls != [] {
      var before, last := calls[..|calls| - 1], calls[|calls| - 1];
      var n := NamedRun(cfg, before);
      NamedOnceIff(cfg, before);
      NamedRunIsListed(cfg, before);
      CheckedIsListed(cfg, n, last.entry, last.now);
      CheckedNamedOnce(cfg, n, last.entry, last.now);
      AttemptedListIff(cfg, Checked(cfg, n, last.entry, last.now), last.entry, last.now);
    }
  }

  /**
   In every run, the files listed in memory miss no row of the directory, and hold each once exactly if no name was
   taken again since the last rotation.
   */
  lemma RunReadsOnceIff(cfg: Config, calls: seq<Call>)
    requires Timed(calls)
    ensures var n := NamedRun(cfg, calls);
      && multiset(Rows(n.disk)) <= multiset(ReadNamed(n.disk, n.files))
      && (multiset(ReadNamed(n.disk, n.files)) == multiset(Rows(n.disk)) <==> !NameTwice(cfg, calls))
  {
    hide NamedTime;
    var n := NamedRun(cfg, calls);
    NamedRunIsListed(cfg, calls);
    CoversNamesAll(n.files, n.disk);
    ReadsEveryRowOnceIff(n.disk, n.files);
    FilledReadsOnceIff(n.disk, n.files);
    NamedOnceIff(cfg, calls);
  }

  // ---------------------------------------------------------------- names that are taken again

  const SMALL_FILES := Config(0, 100, (x: Entry) => 1)

  lemma {:induction false} SizeCounts(rows: seq<Entry>)
    ensures Size(SMALL_FILES.rowSize, rows) == |rows|
  {
    if rows != [] {
      SizeCounts(rows[..|rows| - 1]);
    }
  }

  /** An entry for which a new file is begun, because the last one has a row. */
  lemma NextFile(calls: seq<Call>, e: Entry, n: Journal)
    requires n == NamedRun(SMALL_FILES, calls) && Sorted(n.disk) && 0 <= n.journalSize < 100
    requires (n.files == [] || n.lastFileSize > 0) && e.time > 0 && e.time >= n.recent
    ensures var r, name := NamedRun(SMALL_FILES, calls + [Call(e, 1)]), NamedTime(e.time);
      && r.files == n.files + [e.time] && r.recent == e.time && r.snapshot == AddToSnapshot(n.snapshot, e)
      && r.journalSize == n.journalSize + 1 && Sorted(r.disk) && r.lastFileSize > 0
      && FileRows(r.disk, name) == FileRows(n.disk, name) + SnapshotRows(n.snapshot, e.time) + [e]
      && forall x | x != name :: FileRows(r.disk, x) == FileRows(n.disk, x)
  {
    hide NamedTime;
    NamedStep(SMALL_FILES, calls, Call(e, 1));
    NamedToNew(SMALL_FILES, n, e, 1);
    BegunAndWritten(SMALL_FILES, n, e);
    SizeCounts(FileRows(Written(SMALL_FILES, Begun(n, e.time), e.time, e).disk, NamedTime(e.time)));
  }

  lemma ReadOneMore(disk: Disk, files: seq<int>, start: int)
    ensures ReadNamed(disk, files + [start]) == ReadNamed(disk, files) + FileRows(disk, NamedTime(start))
  {
    hide NamedTime, FileRows;
    assert (files + [start])[..|files|] == files;
  }

  lemma TwoNames(disk: Disk, a: int, b: int)
    ensures ReadNamed(disk, [a, b]) == FileRows(disk, NamedTime(a)) + FileRows(disk, NamedTime(b))
  {
    hide NamedTime, FileRows;
    ReadOneMore(disk, [], a);
    ReadOneMore(disk, [a], b);
    assert [] + [a] == [a] && [a] + [b] == [a, b];
  }

  lemma NoCalls()
    ensures NamedRun(SMALL_FILES, []) == EMPTY
  {
  }

  /** Two entries whose times have one name, each in a file of its own: the files are one, whose rows are read twice. */
  lemma OneNameReadsTwice(e: Entry, f: Entry)
    requires 0 < e.time <= f.time && NamedTime(e.time) == NamedTime(f.time)
    ensures var n, name := NamedRun(SMALL_FILES, [Call(e, 1), Call(f, 1)]), NamedTime(e.time);
      && n.files == [e.time, f.time] && FileRows(n.disk, name) != []
      && ReadNamed(n.disk, n.files) == FileRows(n.disk, name) + FileRows(n.disk, name)
  {
    hide NamedTime, NamedRun, ReadNamed, FileRows, AddToSnapshot;
    var none: seq<Call> := [];
    assert NamedRun(SMALL_FILES, none) == EMPTY by { NoCalls(); }
    assert none + [Call(e, 1)] == [Call(e, 1)] && [Call(e, 1)] + [Call(f, 1)] == [Call(e, 1), Call(f, 1)];
    NextFile(none, e, EMPTY);
    NextFile([Call(e, 1)], f, NamedRun(SMALL_FILES, [Call(e, 1)]));
    TwoNames(NamedRun(SMALL_FILES, [Call(e, 1), Call(f, 1)]).disk, e.time, f.time);
  }

  function ChangeAt(time: int): Entry
  {
    Entry(time, [97], RpcValues.Value([], RpcValues.Null), false, VAL_CHANGE, false, false)
  }

  /** Appends in one millisecond, or at 1000 and 1090 of 1970: one file, which is listed and read twice. */
  lemma ReadTwice(second: int)
    requires second == 1000 || second == 1090
    ensures var n := NamedRun(SMALL_FILES, [Call(ChangeAt(1000), 1), Call(ChangeAt(second), 1)]);
      n.files == [1000, second] && ReadNamed(n.disk, n.files) == FileRows(n.disk, 1090) + FileRows(n.disk, 1090) != []
  {
    hide NamedTime, NamedRun;
    ShownIn1970(1000);
    ShownIn1970(1090);
    OneNameReadsTwice(ChangeAt(1000), ChangeAt(second));
  }

  /** A key that a node drop takes away. */
  function DropAt(time: int): Entry { ChangeAt(time).(drop := true) }

  /** A change, its drop, and a change of another key. */
  function StaleCalls(a: int, b: int, c: int): seq<Call>
  {
    [Call(ChangeAt(a), 1), Call(DropAt(b), 1), Call(ChangeAt(c).(path := [98]), 1)]
  }

  /** Times whose names come back, with another in between: 1, 50 and 91 are such. */
  ghost predicate ComesBack(a: int, b: int, c: int)
  {
    0 < a <= b <= c && NamedTime(a) == NamedTime(c) != NamedTime(b)
  }

  /** The last file then has the name of the first, and replays what was dropped. */
  lemma StaleRowReplays(a: int, b: int, c: int)
    requires ComesBack(a, b, c)
    ensures var n := NamedRun(SMALL_FILES, StaleCalls(a, b, c));
      n.files == [a, b, c] && [97] !in n.snapshot && [97] in Replay(map[], FileRows(n.disk, NamedTime(c)))
  {
    hide NamedTime;
    AfterDrop(a, b, c);
    AfterReturn(a, b, c, NamedRun(SMALL_FILES, StaleCalls(a, b, c)[..2]));
  }

  /** On the first day of 1970 this takes less than a tenth of a second. */
  lemma NamesComeBack(a: int, b: int)
    requires 0 < a < b < a + 90 < 86400000 && a % 1000 < 10 <= b % 1000
    ensures ComesBack(a, b, a + 90)
  {
    hide NamedTime;
    ShownIn1970(a);
    ShownIn1970(b);
    ShownIn1970(a + 90);
  }

  lemma AfterChange(a: int)
    requires a > 0
    ensures var n := NamedRun(SMALL_FILES, [Call(ChangeAt(a), 1)]);
      && n.files == [a] && n.snapshot == map[[97] := ChangeAt(a)] && FileRows(n.disk, NamedTime(a)) == [ChangeAt(a)]
      && Sorted(n.disk) && n.journalSize == 1 && n.lastFileSize > 0 && n.recent == a
  {
    hide NamedTime;
    var none: seq<Call>, rows: seq<Entry> := [], [];
    assert none + [Call(ChangeAt(a), 1)] == [Call(ChangeAt(a), 1)];
    NextFile(none, ChangeAt(a), EMPTY);
    assert SnapshotRows(map[], a) == rows && rows + rows + [ChangeAt(a)] == [ChangeAt(a)];
  }

  lemma AfterDrop(a: int, b: int, c: int)
    requires ComesBack(a, b, c)
    ensures var n := NamedRun(SMALL_FILES, StaleCalls(a, b, c)[..2]);
      && n.files == [a, b] && n.snapshot == map[] && FileRows(n.disk, NamedTime(c)) == [ChangeAt(a)]
      && Sorted(n.disk) && n.journalSize == 2 && n.lastFileSize > 0 && n.recent == b
  {
    hide NamedTime, NamedRun, FileRows, AddToSnapshot, SnapshotRows, Sorted;
    var calls := [Call(ChangeAt(a), 1)];
    AfterChange(a);
    assert calls + [Call(DropAt(b), 1)] == StaleCalls(a, b, c)[..2];
    NextFile(calls, DropAt(b), NamedRun(SMALL_FILES, calls));
    DroppedAgain(a, b);
  }

  lemma DroppedAgain(a: int, b: int)
    ensures AddToSnapshot(map[[97] := ChangeAt(a)], DropAt(b)) == map[]
  {
  }

  lemma AfterReturn(a: int, b: int, c: int, n: Journal)
    requires ComesBack(a, b, c) && n == NamedRun(SMALL_FILES, StaleCalls(a, b, c)[..2])
    requires n.files == [a, b] && n.snapshot == map[] && FileRows(n.disk, NamedTime(c)) == [ChangeAt(a)]
    requires Sorted(n.disk) && n.journalSize == 2 && n.lastFileSize > 0 && n.recent == b
    ensures var r := NamedRun(SMALL_FILES, StaleCalls(a, b, c));
      r.files == [a, b, c] && [97] !in r.snapshot && [97] in Replay(map[], FileRows(r.disk, NamedTime(c)))
  {
    hide NamedTime, NamedRun, Replay, FileRows, AddToSnapshot;
    var e, none: seq<Entry> := ChangeAt(c).(path := [98]), [];
    assert StaleCalls(a, b, c)[..2] + [Call(e, 1)] == StaleCalls(a, b, c);
    NextFile(StaleCalls(a, b, c)[..2], e, n);
    assert SnapshotRows(map[], c) == none && [ChangeAt(a)] + none + [e] == [ChangeAt(a), e];
    BothReplay(ChangeAt(a), e);
  }

  lemma BothReplay(a: Entry, b: Entry)
    requires a == ChangeAt(a.time) && b == ChangeAt(b.time).(path := [98])
    ensures [97] in Replay(map[], [a, b]) && [97] !in AddToSnapshot(map[], b)
  {
    var first: seq<Entry>, rows: seq<Entry>, none: Snapshot := [a], [a, b], map[];
    assert rows == first + [b];
    ReplayOne(none, first, b);
    assert Replay(none, first) == AddToSnapshot(none, a) by { assert first[1..] == []; }
  }
}
