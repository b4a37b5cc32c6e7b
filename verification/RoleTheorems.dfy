/** Flattening lists every reachable role once, nearer ones first. */
module RoleTheorems {
  import opened ByteStrings
  import opened RoleGraphs

  /** The roles within `k` steps are the first ones of the list. */
  ghost predicate Ball(g: Graph, seeds: seq<Role>, l: seq<Role>, k: nat)
  {
    exists n | 0 <= n <= |l| :: SetOf(l[..n]) == Within(g, seeds, k)
  }

  ghost predicate Closed(g: Graph, done: seq<Role>, all: set<Role>)
  {
    forall i | 0 <= i < |done| :: SetOf(SubRoles(g, done[i])) <= all
  }

  /** `m` marks the end of layer `d` in the list of roles met so far. */
  ghost predicate Layered(g: Graph, seeds: seq<Role>, done: seq<Role>, l: seq<Role>, d: nat, m: nat)
  {
    && done <= l && |done| <= m <= |l|
    && SetOf(l[..m]) == Within(g, seeds, d) && SetOf(l) <= Within(g, seeds, d + 1)
    && Closed(g, done, SetOf(l))
    && forall k: nat | k <= d :: Ball(g, seeds, l, k)
  }

  lemma InSetOf(s: seq<Role>, r: Role)
    ensures r in SetOf(s) <==> r in s
  {
  }

  lemma PrefixSet(l: seq<Role>, n: nat)
    requires n <= |l|
    ensures SetOf(l[..n]) <= SetOf(l)
  {
  }

  lemma BallStays(g: Graph, seeds: seq<Role>, l: seq<Role>, more: seq<Role>, k: nat)
    requires Ball(g, seeds, l, k) && l <= more
    ensures Ball(g, seeds, more, k)
  {
    var n :| 0 <= n <= |l| && SetOf(l[..n]) == Within(g, seeds, k);
    assert more[..n] == l[..n];
  }

  /** If the whole layer is done, everything met is the next layer. */
  lemma LayerIsFull(g: Graph, seeds: seq<Role>, done: seq<Role>, l: seq<Role>, d: nat)
    requires Layered(g, seeds, done, l, d, |done|)
    ensures SetOf(l) == Within(g, seeds, d + 1)
  {
  }

  lemma NextLayer(g: Graph, seeds: seq<Role>, done: seq<Role>, l: seq<Role>, d: nat)
    requires Layered(g, seeds, done, l, d, |done|)
    ensures Layered(g, seeds, done, l, d + 1, |l|)
  {
    LayerIsFull(g, seeds, done, l, d);
    assert l[..|l|] == l;
    assert Within(g, seeds, d + 1) <= Within(g, seeds, d + 2);
    forall k: nat | k <= d + 1 ensures Ball(g, seeds, l, k) {
      if k == d + 1 {
        assert SetOf(l[..|l|]) == Within(g, seeds, k);
      }
    }
  }

  lemma SubRolesAreNext(g: Graph, seeds: seq<Role>, cur: Role, d: nat)
    requires cur in Within(g, seeds, d)
    ensures SetOf(SubRoles(g, cur)) <= Within(g, seeds, d + 1)
  {
    forall s | s in SetOf(SubRoles(g, cur)) ensures s in Within(g, seeds, d + 1) {
      InSetOf(SubRoles(g, cur), s);
    }
  }

  /** Taking a role of the present layer off the queue and adding its sub-roles. */
  lemma TakeRole(g: Graph, seeds: seq<Role>, done: seq<Role>, l: seq<Role>, d: nat, m: nat, more: seq<Role>)
    requires Layered(g, seeds, done, l, d, m) && |done| < m && l <= more
    requires SetOf(more) == SetOf(l) + SetOf(SubRoles(g, l[|done|]))
    ensures Layered(g, seeds, done + [l[|done|]], more, d, m)
  {
    var cur := l[|done|];
    assert more[..m] == l[..m];
    assert l[..m][|done|] == cur;
    assert cur in Within(g, seeds, d);
    SubRolesAreNext(g, seeds, cur, d);
    forall k: nat | k <= d ensures Ball(g, seeds, more, k) {
      BallStays(g, seeds, l, more, k);
    }
  }

  lemma {:induction false} NothingBeyond(g: Graph, seeds: seq<Role>, d: nat, k: nat)
    requires Within(g, seeds, d + 1) == Within(g, seeds, d) && k >= d
    ensures Within(g, seeds, k) == Within(g, seeds, d)
    decreases k
  {
    if k > d {
      NothingBeyond(g, seeds, d, k - 1);
    }
  }

  ghost predicate BreadthFirst(g: Graph, seeds: seq<Role>, f: seq<Role>)
  {
    Distinct(f) && (forall k: nat :: Ball(g, seeds, f, k)) && exists k: nat :: SetOf(f) == Within(g, seeds, k)
  }

  lemma AllDone(g: Graph, seeds: seq<Role>, l: seq<Role>, d: nat)
    requires Distinct(l) && Layered(g, seeds, l, l, d, |l|)
    ensures BreadthFirst(g, seeds, l)
  {
    assert l[..|l|] == l;
    LayerIsFull(g, seeds, l, l, d);
    forall k: nat ensures Ball(g, seeds, l, k) {
      if k > d {
        NothingBeyond(g, seeds, d, k);
        assert SetOf(l[..|l|]) == Within(g, seeds, k);
      }
    }
    assert SetOf(l) == Within(g, seeds, d);
  }

  /** One turn of the loop. */
  lemma TurnKeeps(u: set<Role>, g: Graph, seeds: seq<Role>, done: seq<Role>, queue: seq<Role>, d: nat, m: nat)
    requires Ready(u, g, done, queue) && queue != [] && Layered(g, seeds, done, done + queue, d, m) && |done| < m
    ensures var cur := queue[0];
      var next := EnqueueAll(done + [cur], queue[1..], SubRoles(g, cur));
      && Ready(u, g, done + [cur], next) && |done| < |u|
      && Layered(g, seeds, done + [cur], done + [cur] + next, d, m)
      && Flatten(u, g, done, queue) == Flatten(u, g, done + [cur], next)
  {
    var l, cur := done + queue, queue[0];
    TakeFirst(u, g, done, queue);
    SubRolesIn(u, g, done, queue, cur);
    EnqueueKeeps(u, g, done + [cur], queue[1..], SubRoles(g, cur));
    DistinctFits(done + queue, u);
    var next := EnqueueAll(done + [cur], queue[1..], SubRoles(g, cur));
    assert l[|done|] == cur && l <= done + [cur] + next;
    TakeRole(g, seeds, done, l, d, m, done + [cur] + next);
  }

  lemma {:induction false} FlattenKeeps(u: set<Role>, g: Graph, seeds: seq<Role>, done: seq<Role>, queue: seq<Role>,
    d: nat, m: nat)
    requires Ready(u, g, done, queue) && Layered(g, seeds, done, done + queue, d, m)
    ensures BreadthFirst(g, seeds, Flatten(u, g, done, queue))
    decreases |u| - |done|, queue != [] && |done| == m
  {
    if queue == [] {
      assert done + queue == done;
      AllDone(g, seeds, done, d);
    } else if |done| == m {
      NextLayer(g, seeds, done, done + queue, d);
      FlattenKeeps(u, g, seeds, done, queue, d + 1, |done + queue|);
    } else {
      TurnKeeps(u, g, seeds, done, queue, d, m);
      var cur := queue[0];
      FlattenKeeps(u, g, seeds, done + [cur], EnqueueAll(done + [cur], queue[1..], SubRoles(g, cur)), d, m);
    }
  }

  lemma FlattenFromSeeds(g: Graph, seeds: seq<Role>)
    ensures BreadthFirst(g, seeds, FlattenRoles(g, seeds))
  {
    hide Flatten, EnqueueAll, Universe, Distinct;
    var u, q := Universe(g, seeds), EnqueueAll([], [], seeds);
    StartReady(g, seeds);
    var none: seq<Role> := [];
    assert none + q == q && q[..|q|] == q;
    assert SetOf(q[..|q|]) == Within(g, seeds, 0);
    assert Ball(g, seeds, q, 0);
    FlattenKeeps(u, g, seeds, [], q, 0, |q|);
  }

  /**
   On every finite role graph, with cycles or without: each reachable role exactly once, nothing else, and the
   roles within any distance of the seeds in front of all others.
   */
  lemma FlattenIsBreadthFirst(g: Graph, seeds: seq<Role>)
    ensures var f := FlattenRoles(g, seeds);
      && Distinct(f)
      && (forall k: nat :: Ball(g, seeds, f, k))
      && (forall r: Role :: r in f <==> Reaches(g, seeds, r))
  {
    FlattenFromSeeds(g, seeds);
    forall r: Role ensures r in FlattenRoles(g, seeds) <==> Reaches(g, seeds, r) {
      ListedIffReachable(g, seeds, FlattenRoles(g, seeds), r);
    }
  }

  /** Reachable from the seeds in any number of steps. */
  ghost predicate Reaches(g: Graph, seeds: seq<Role>, r: Role)
  {
    exists k: nat :: r in Within(g, seeds, k)
  }

  /** That is: the seeds, and the sub-roles of what is reachable. */
  lemma ReachesIff(g: Graph, seeds: seq<Role>, r: Role)
    ensures Reaches(g, seeds, r) <==> r in seeds || exists q: Role :: Reaches(g, seeds, q) && q in g && r in g[q]
  {
    InSetOf(seeds, r);
    if r in seeds {
      assert r in Within(g, seeds, 0);
    }
    if q: Role :| Reaches(g, seeds, q) && q in g && r in g[q] {
      var k: nat :| q in Within(g, seeds, k);
      assert r in SubRoles(g, q) && r in Within(g, seeds, k + 1);
    }
    if Reaches(g, seeds, r) && r !in seeds {
      var k: nat :| r in Within(g, seeds, k);
      ReachedLast(g, seeds, r, k);
    }
  }

  lemma {:induction false} ReachedLast(g: Graph, seeds: seq<Role>, r: Role, k: nat)
    requires r in Within(g, seeds, k) && r !in seeds
    ensures exists q: Role :: Reaches(g, seeds, q) && q in g && r in g[q]
  {
    InSetOf(seeds, r);
    if r in Within(g, seeds, k - 1) {
      ReachedLast(g, seeds, r, k - 1);
    } else {
      var q :| q in Within(g, seeds, k - 1) && r in SubRoles(g, q);
      assert Reaches(g, seeds, q) && q in g && r in g[q];
    }
  }

  lemma ListedIffReachable(g: Graph, seeds: seq<Role>, f: seq<Role>, r: Role)
    requires BreadthFirst(g, seeds, f)
    ensures r in f <==> Reaches(g, seeds, r)
  {
    var last: nat :| SetOf(f) == Within(g, seeds, last);
    InSetOf(f, r);
    if r in f {
      assert r in Within(g, seeds, last);
    }
    if k: nat :| r in Within(g, seeds, k) {
      assert Ball(g, seeds, f, k);
      var n :| 0 <= n <= |f| && SetOf(f[..n]) == Within(g, seeds, k);
      PrefixSet(f, n);
    }
  }

  /** A role in front of another one is at most as far from the seeds. */
  lemma NearerFirst(g: Graph, seeds: seq<Role>, i: nat, j: nat, k: nat)
    requires i < j < |FlattenRoles(g, seeds)| && FlattenRoles(g, seeds)[j] in Within(g, seeds, k)
    ensures FlattenRoles(g, seeds)[i] in Within(g, seeds, k)
  {
    var f := FlattenRoles(g, seeds);
    FlattenIsBreadthFirst(g, seeds);
    assert Ball(g, seeds, f, k);
    var n :| 0 <= n <= |f| && SetOf(f[..n]) == Within(g, seeds, k);
    InSetOf(f[..n], f[j]);
    var t :| 0 <= t < n && f[..n][t] == f[j];
    assert f[t] == f[j] && t == j;
    assert f[..n][i] == f[i];
  }

  // ---------------------------------------------------------------- the order within a distance

  /** The first occurrences of the roles in a list, in their order. */
  function Firsts(s: seq<Role>): (r: seq<Role>)
  {
    if s == [] then []
    else
      var older, last := Firsts(s[..|s| - 1]), s[|s| - 1];
      if last in older then older else older + [last]
  }

  /** The sub-roles of all roles in a list, one after the other. */
  function AllSubRoles(g: Graph, l: seq<Role>): seq<Role>
  {
    if l == [] then [] else AllSubRoles(g, l[..|l| - 1]) + SubRoles(g, l[|l| - 1])
  }

  lemma {:induction false} FirstsGrow(met: seq<Role>, done: seq<Role>, queue: seq<Role>, rs: seq<Role>)
    requires done + queue == Firsts(met)
    ensures done + EnqueueAll(done, queue, rs) == Firsts(met + rs)
    decreases |rs|
  {
    if rs == [] {
      assert met + rs == met;
    } else {
      var q := Enqueue(done, queue, rs[0]);
      assert (met + [rs[0]])[..|met|] == met;
      assert rs[0] in done + queue <==> rs[0] in done || rs[0] in queue;
      assert done + (queue + [rs[0]]) == done + queue + [rs[0]];
      FirstsGrow(met + [rs[0]], done, q, rs[1..]);
      assert met + [rs[0]] + rs[1..] == met + rs;
    }
  }

  /** One turn of the loop, over what has been met so far. */
  lemma MeetsSubRoles(g: Graph, seeds: seq<Role>, done: seq<Role>, queue: seq<Role>)
    requires queue != [] && done + queue == Firsts(seeds + AllSubRoles(g, done))
    ensures var cur := queue[0];
      done + [cur] + EnqueueAll(done + [cur], queue[1..], SubRoles(g, cur))
        == Firsts(seeds + AllSubRoles(g, done + [cur]))
  {
    hide Firsts, EnqueueAll;
    var cur := queue[0];
    assert done + [cur] + queue[1..] == done + queue;
    FirstsGrow(seeds + AllSubRoles(g, done), done + [cur], queue[1..], SubRoles(g, cur));
    NextSubRoles(g, seeds, done, cur);
  }

  lemma NextSubRoles(g: Graph, seeds: seq<Role>, done: seq<Role>, cur: Role)
    ensures seeds + AllSubRoles(g, done) + SubRoles(g, cur) == seeds + AllSubRoles(g, done + [cur])
  {
    assert (done + [cur])[..|done|] == done;
  }

  lemma {:induction false} FlattenInOrder(u: set<Role>, g: Graph, seeds: seq<Role>, done: seq<Role>, queue: seq<Role>)
    requires Ready(u, g, done, queue) && done + queue == Firsts(seeds + AllSubRoles(g, done))
    ensures var f := Flatten(u, g, done, queue); f == Firsts(seeds + AllSubRoles(g, f))
    decreases |u| - |done|
  {
    if queue == [] {
      assert done + queue == done;
    } else {
      var cur := queue[0];
      TakeFirst(u, g, done, queue);
      SubRolesIn(u, g, done, queue, cur);
      EnqueueKeeps(u, g, done + [cur], queue[1..], SubRoles(g, cur));
      DistinctFits(done + queue, u);
      MeetsSubRoles(g, seeds, done, queue);
      FlattenInOrder(u, g, seeds, done + [cur], EnqueueAll(done + [cur], queue[1..], SubRoles(g, cur)));
    }
  }

  /** The list: the seeds, then the sub-roles of its own roles in turn, each role at its first place. */
  lemma ListedInOrder(g: Graph, seeds: seq<Role>)
    ensures var f := FlattenRoles(g, seeds); f == Firsts(seeds + AllSubRoles(g, f))
  {
    var u, none: seq<Role> := Universe(g, seeds), [];
    StartReady(g, seeds);
    assert none + none == Firsts(none) && none + seeds == seeds;
    FirstsGrow(none, none, none, seeds);
    var q := EnqueueAll(none, none, seeds);
    assert seeds + AllSubRoles(g, none) == seeds && none + q == q;
    FlattenInOrder(u, g, seeds, none, q);
  }

  /** What a list of roles promises: all roles within reach of these, once, nearer ones first, and in order. */
  ghost predicate IsRoleList(g: Graph, seeds: seq<Role>, f: seq<Role>)
  {
    && Distinct(f)
    && (forall r: Role :: r in f <==> Reaches(g, seeds, r))
    && (forall k: nat :: Ball(g, seeds, f, k))
    && f == Firsts(seeds + AllSubRoles(g, f))
  }

  lemma FlattenIsRoleList(g: Graph, seeds: seq<Role>)
    ensures IsRoleList(g, seeds, FlattenRoles(g, seeds))
  {
    FlattenIsBreadthFirst(g, seeds);
    ListedInOrder(g, seeds);
  }
}
