/**
 Journal entries and the snapshot they replay to (libshvcore/src/utils/abstractshvjournal.cpp).
 Replay is the meaning of a journal: files, roll-over and queries are judged by what they replay to.
 */
module Journals {
  import opened ByteStrings
  import RpcValues

  type Path = Bytes

  const VAL_CHANGE: Bytes := [99, 104, 110, 103]   // chng
  const PATH_DELIM: byte := 47

  /** `drop`: the value's meta type is NodeDrop. */
  datatype Entry = Entry(time: int, path: Path, value: RpcValues.Value, drop: bool, domain: Bytes,
                         isSnapshot: bool, isSpontaneous: bool)

  type Snapshot = map<Path, Entry>

  /** `path` is `root` or lies below it. */
  predicate InSubtree(root: Path, path: Path)
  {
    root <= path && (|path| == |root| || path[|root|] == PATH_DELIM)
  }

  function AddToSnapshot(s: Snapshot, e: Entry): Snapshot
  {
    if e.domain != VAL_CHANGE then s
    else if e.drop then map k | k in s && !InSubtree(e.path, k) :: s[k]
    else s[e.path := e]
  }

  function Replay(s: Snapshot, es: seq<Entry>): Snapshot
    decreases |es|
  {
    if es == [] then s else Replay(AddToSnapshot(s, es[0]), es[1..])
  }

  /** What a snapshot shows of an entry: everything but its time and the two flags that snapshots overwrite. */
  function Shown(e: Entry): Entry { Stamped(e, 0) }

  function Stamped(e: Entry, time: int): Entry { e.(time := time, isSnapshot := true, isSpontaneous := false) }

  function View(s: Snapshot): Snapshot { map k | k in s :: Shown(s[k]) }

  /** Keys are the paths of their entries, and only value changes are kept. */
  ghost predicate WellKeyed(s: Snapshot)
  {
    forall k | k in s :: s[k].path == k && s[k].domain == VAL_CHANGE && !s[k].drop
  }

  predicate Ordered(es: seq<Entry>)
  {
    forall i, j | 0 <= i < j < |es| :: es[i].time <= es[j].time
  }

  // ---------------------------------------------------------------- replay

  lemma {:induction false} ReplayConcat(s: Snapshot, es: seq<Entry>, fs: seq<Entry>)
    ensures Replay(s, es + fs) == Replay(Replay(s, es), fs)
    decreases |es|
  {
    if es == [] {
      assert es + fs == fs;
    } else {
      assert (es + fs)[1..] == es[1..] + fs;
      ReplayConcat(AddToSnapshot(s, es[0]), es[1..], fs);
    }
  }

  lemma ReplayOne(s: Snapshot, es: seq<Entry>, e: Entry)
    ensures Replay(s, es + [e]) == AddToSnapshot(Replay(s, es), e)
  {
    ReplayConcat(s, es, [e]);
    assert [e][1..] == [];
  }

  lemma {:induction false} ReplayWellKeyed(s: Snapshot, es: seq<Entry>)
    requires WellKeyed(s)
    ensures WellKeyed(Replay(s, es))
    decreases |es|
  {
    if es != [] {
      ReplayWellKeyed(AddToSnapshot(s, es[0]), es[1..]);
    }
  }

  /** A path in the subtree is its root, or the root, a slash and something behind it. */
  lemma InSubtreeIff(root: Path, path: Path)
    ensures InSubtree(root, path) <==> path == root || exists rest: Path :: path == root + [PATH_DELIM] + rest
  {
    if InSubtree(root, path) && path != root {
      assert path == root + [PATH_DELIM] + path[|root| + 1..];
    }
  }

  /** Whether an entry decides what a snapshot holds for a path. */
  predicate Decides(e: Entry, k: Path)
  {
    e.domain == VAL_CHANGE && if e.drop then InSubtree(e.path, k) else e.path == k
  }

  /** Entry `i` is a change of `k`, and none behind it changes or drops it. */
  ghost predicate IsLatest(es: seq<Entry>, i: nat, k: Path)
  {
    && i < |es| && Decides(es[i], k) && !es[i].drop
    && forall j | i < j < |es| :: !Decides(es[j], k)
  }

  lemma LatestGrows(es: seq<Entry>, e: Entry, i: nat, k: Path)
    ensures IsLatest(es + [e], i, k) <==> if Decides(e, k) then i == |es| && !e.drop else IsLatest(es, i, k)
  {
    var more := es + [e];
    assert more[|es|] == e && forall j | 0 <= j < |es| :: more[j] == es[j];
  }

  /** What a history leaves: under each path the change that was made there last, unless a drop took it away since. */
  lemma {:induction false} HeldIff(es: seq<Entry>, k: Path)
    ensures k in Replay(map[], es) <==> exists i: nat :: IsLatest(es, i, k)
    ensures forall i: nat | IsLatest(es, i, k) :: k in Replay(map[], es) && Replay(map[], es)[k] == es[i]
    decreases |es|
  {
    if es != [] {
      var older, e := es[..|es| - 1], es[|es| - 1];
      assert es == older + [e];
      HeldIff(older, k);
      ReplayOne(map[], older, e);
      forall i: nat
        ensures IsLatest(es, i, k) <==> if Decides(e, k) then i == |older| && !e.drop else IsLatest(older, i, k)
      {
        LatestGrows(older, e, i, k);
      }
      assert Decides(e, k) && !e.drop ==> IsLatest(es, |older|, k);
    }
  }

  /** The next view depends on the present view alone. */
  lemma ViewStep(s: Snapshot, e: Entry)
    ensures View(AddToSnapshot(s, e)) == AddToSnapshot(View(s), Shown(e))
  {
  }

  lemma {:induction false} ViewDecides(s: Snapshot, t: Snapshot, es: seq<Entry>)
    requires View(s) == View(t)
    ensures View(Replay(s, es)) == View(Replay(t, es))
    decreases |es|
  {
    if es != [] {
      ViewStep(s, es[0]);
      ViewStep(t, es[0]);
      ViewDecides(AddToSnapshot(s, es[0]), AddToSnapshot(t, es[0]), es[1..]);
    }
  }

  // ---------------------------------------------------------------- snapshot rows

  predicate AtMost(k: Path, j: Path) { k == j || Less(k, j) }

  predicate IsLeast(k: Path, keys: set<Path>)
  {
    k in keys && forall j {:trigger AtMost(k, j)} | j in keys :: AtMost(k, j)
  }

  lemma {:induction false} LeastKeyExists(keys: set<Path>)
    requires keys != {}
    ensures exists k :: IsLeast(k, keys)
    decreases |keys|
  {
    var x :| x in keys;
    var others := keys - {x};
    if others == {} {
      assert forall j | j in keys :: j == x || j in others;
      assert IsLeast(x, keys);
    } else {
      LeastKeyExists(others);
      var k :| IsLeast(k, others);
      LessIsTotal(k, x);
      var least := if Less(k, x) then k else x;
      forall j | j in keys ensures AtMost(least, j) {
        assert j == x || AtMost(k, j);
        if j != x && j != k && least == x {
          LessIsTransitive(x, k, j);
        }
      }
      assert IsLeast(least, keys);
    }
  }

  ghost function LeastKey(s: Snapshot): (k: Path)
    requires s != map[]
    ensures IsLeast(k, s.Keys) && |s - {k}| == |s| - 1
  {
    LeastKeyExists(s.Keys);
    var k :| IsLeast(k, s.Keys);
    assert (s - {k}).Keys == s.Keys - {k};
    k
  }

  /** Value rows of a snapshot, in key order, with a common time. */
  ghost function SnapshotRows(s: Snapshot, time: int): (rows: seq<Entry>)
    ensures |rows| == |s|
    ensures forall i | 0 <= i < |rows| :: rows[i].time == time
    decreases |s|
  {
    if s == map[] then []
    else
      var k := LeastKey(s);
      [Stamped(s[k], time)] + SnapshotRows(s - {k}, time)
  }

  lemma {:induction false} SnapshotRowFrom(s: Snapshot, time: int, i: nat)
    requires WellKeyed(s) && i < |SnapshotRows(s, time)|
    ensures var row := SnapshotRows(s, time)[i];
      row.path in s && row == s[row.path].(time := time, isSnapshot := true, isSpontaneous := false)
    decreases |s|
  {
    var k := LeastKey(s);
    if i > 0 {
      var others := s - {k};
      assert SnapshotRows(s, time)[i] == SnapshotRows(others, time)[i - 1];
      SnapshotRowFrom(others, time, i - 1);
    }
  }

  /** One row for each key, in the order of the keys. */
  lemma {:induction false} RowsAreInKeyOrder(s: Snapshot, time: int, i: nat, j: nat)
    requires WellKeyed(s) && i < j < |SnapshotRows(s, time)|
    ensures Less(SnapshotRows(s, time)[i].path, SnapshotRows(s, time)[j].path)
    decreases |s|
  {
    var k := LeastKey(s);
    var others := s - {k};
    assert forall n | 0 < n < |s| :: SnapshotRows(s, time)[n] == SnapshotRows(others, time)[n - 1];
    if i > 0 {
      RowsAreInKeyOrder(others, time, i - 1, j - 1);
    } else {
      SnapshotRowFrom(others, time, j - 1);
      assert AtMost(k, SnapshotRows(others, time)[j - 1].path);
    }
  }

  lemma OverlayOne(base: Snapshot, s: Snapshot, k: Path, time: int)
    requires k in s && s[k].path == k && s[k].domain == VAL_CHANGE && !s[k].drop
    ensures View(AddToSnapshot(base, Stamped(s[k], time))) + View(s - {k}) == View(base) + View(s)
  {
  }

  /** Replaying the rows of a snapshot overlays it on what was there. */
  lemma {:induction false} RowsOverlay(base: Snapshot, s: Snapshot, time: int)
    requires WellKeyed(s)
    ensures View(Replay(base, SnapshotRows(s, time))) == View(base) + View(s)
    decreases |s|
  {
    if s == map[] {
      assert View(base) + View(s) == View(base);
    } else {
      var k := LeastKey(s);
      OverlayOne(base, s, k, time);
      RowsOverlay(AddToSnapshot(base, Stamped(s[k], time)), s - {k}, time);
      assert SnapshotRows(s, time)[1..] == SnapshotRows(s - {k}, time);
    }
  }

  /** From nothing, or from the same state, the rows of a snapshot replay to that snapshot. */
  lemma RowsReplayToSnapshot(base: Snapshot, s: Snapshot, time: int)
    requires WellKeyed(s) && (base == map[] || View(base) == View(s))
    ensures View(Replay(base, SnapshotRows(s, time))) == View(s)
  {
    RowsOverlay(base, s, time);
  }

  lemma OneLeastKey(a: Path, b: Path, keys: set<Path>)
    requires IsLeast(a, keys) && IsLeast(b, keys)
    ensures a == b
  {
    assert AtMost(a, b) && AtMost(b, a);
    if a != b {
      LessIsAsymmetric(a, b);
    }
  }

  lemma FirstRow(s: Snapshot, time: int, k: Path)
    requires IsLeast(k, s.Keys)
    ensures |s - {k}| < |s| && SnapshotRows(s, time) == [Stamped(s[k], time)] + SnapshotRows(s - {k}, time)
  {
    OneLeastKey(k, LeastKey(s), s.Keys);
  }

  method FirstKey(s: Snapshot) returns (k: Path)
    requires s != map[]
    ensures IsLeast(k, s.Keys)
  {
    LeastKeyExists(s.Keys);
    k :| k in s.Keys && IsLeast(k, s.Keys);
  }

  lemma Shift(rows: seq<Entry>, e: Entry, more: seq<Entry>)
    ensures rows + ([e] + more) == rows + [e] + more
  {
  }

  /** One row per key, in key order: what starts a log file, and what starts a query result. */
  method StampSnapshot(s: Snapshot, time: int) returns (rows: seq<Entry>)
    ensures rows == SnapshotRows(s, time)
  {
    rows := [];
    var rest := s;
    while rest != map[]
      invariant rows + SnapshotRows(rest, time) == SnapshotRows(s, time)
      decreases |rest|
    {
      var k := FirstKey(rest);
      FirstRow(rest, time, k);
      Shift(rows, Stamped(rest[k], time), SnapshotRows(rest - {k}, time));
      rows := rows + [Stamped(rest[k], time)];
      rest := rest - {k};
    }
  }

  // ---------------------------------------------------------------- dropping a subtree of an ordered map

  lemma {:induction false} PrefixNotLess(root: Bytes, k: Bytes)
    requires root <= k
    ensures !Less(k, root)
  {
    if root != [] {
      assert root[1..] <= k[1..];
      PrefixNotLess(root[1..], k[1..]);
    }
  }

  /** Keys with a common prefix are contiguous in the order of the map. */
  lemma {:induction false} PrefixIsContiguous(root: Bytes, a: Bytes, b: Bytes)
    requires !Less(a, root) && Less(a, b) && root <= b
    ensures root <= a
  {
    if root != [] {
      assert a != [] && a[0] == root[0] == b[0];
      assert root[1..] <= b[1..];
      PrefixIsContiguous(root[1..], a[1..], b[1..]);
      assert root == [root[0]] + root[1..] && a == [a[0]] + a[1..];
    }
  }

  ghost predicate Increasing(keys: seq<Path>)
  {
    forall i, j | 0 <= i < j < |keys| :: Less(keys[i], keys[j])
  }

  /** The index of the first key that is not less than the root. */
  method LowerBound(order: seq<Path>, root: Path) returns (i: nat)
    requires Increasing(order)
    ensures i <= |order| && (i < |order| ==> !Less(order[i], root))
    ensures forall j | 0 <= j < i :: !InSubtree(root, order[j])
  {
    i := 0;
    while i < |order| && Less(order[i], root)
      invariant 0 <= i <= |order|
      invariant forall j | 0 <= j < i :: !InSubtree(root, order[j])
    {
      if root <= order[i] {
        PrefixNotLess(root, order[i]);
      }
      i := i + 1;
    }
  }

  /** Keys from the first one that does not begin with the root are outside of its subtree. */
  lemma NoneFrom(order: seq<Path>, root: Path, i: nat)
    requires Increasing(order) && i <= |order| && (i < |order| ==> !Less(order[i], root) && !(root <= order[i]))
    ensures forall j | i <= j < |order| :: !InSubtree(root, order[j])
  {
    forall j | i <= j < |order| ensures !InSubtree(root, order[j]) {
      if root <= order[j] {
        PrefixIsContiguous(root, order[i], order[j]);
      }
    }
  }

  /** The next key is not less than the root either. */
  lemma NextNotLess(order: seq<Path>, root: Path, i: nat)
    requires Increasing(order) && i < |order| && root <= order[i]
    ensures i + 1 < |order| ==> !Less(order[i + 1], root)
  {
    PrefixNotLess(root, order[i]);
    if i + 1 < |order| && Less(order[i + 1], root) {
      LessIsTransitive(order[i], order[i + 1], root);
    }
  }

  /** The entries whose key is outside of the subtree or is still to come. */
  function Erased(s: Snapshot, order: seq<Path>, root: Path, i: nat): Snapshot
    requires i <= |order|
  {
    map k | k in s && !(InSubtree(root, k) && k in order[..i]) :: s[k]
  }

  lemma EraseNext(s: Snapshot, order: seq<Path>, root: Path, i: nat)
    requires i < |order|
    ensures Erased(s, order, root, i + 1)
         == if InSubtree(root, order[i]) then Erased(s, order, root, i) - {order[i]} else Erased(s, order, root, i)
  {
    assert order[..i + 1] == order[..i] + [order[i]];
  }

  /** With no key of the subtree to come, all of it is erased. */
  lemma ErasedAll(s: Snapshot, order: seq<Path>, root: Path, i: nat)
    requires i <= |order| && forall k | k in s :: k in order
    requires forall j | i <= j < |order| :: !InSubtree(root, order[j])
    ensures Erased(s, order, root, i) == map k | k in s && !InSubtree(root, k) :: s[k]
  {
    assert order == order[..i] + order[i..];
  }

  lemma ErasedNone(s: Snapshot, order: seq<Path>, root: Path, i: nat)
    requires i <= |order| && forall j | 0 <= j < i :: !InSubtree(root, order[j])
    ensures Erased(s, order, root, i) == s
  {
  }

  /** Starts at the lower bound of the root, and stops at the first key that does not begin with it. */
  method DropSubtree(s: Snapshot, order: seq<Path>, root: Path) returns (r: Snapshot)
    requires Increasing(order) && s.Keys == set i | 0 <= i < |order| :: order[i]
    ensures r == map k | k in s && !InSubtree(root, k) :: s[k]
  {
    var i := LowerBound(order, root);
    r := s;
    ErasedNone(s, order, root, i);
    while i < |order| && root <= order[i]
      invariant 0 <= i <= |order|
      invariant r == Erased(s, order, root, i)
      invariant i < |order| ==> !Less(order[i], root)
    {
      EraseNext(s, order, root, i);
      if |order[i]| == |root| || order[i][|root|] == PATH_DELIM {
        r := r - {order[i]};
      }
      NextNotLess(order, root, i);
      i := i + 1;
    }
    NoneFrom(order, root, i);
    ErasedAll(s, order, root, i);
  }
}
