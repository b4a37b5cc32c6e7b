/** Breadth-first flattening of a role graph (`AclManager::userFlattenRoles`). */
module RoleGraphs {
  import opened ByteStrings

  type Role = Bytes

  /** Sub-roles of each role; a role that is not defined has none. */
  type Graph = map<Role, seq<Role>>

  function SubRoles(g: Graph, r: Role): seq<Role> { if r in g then g[r] else [] }

  function SetOf(s: seq<Role>): set<Role> { set i | 0 <= i < |s| :: s[i] }

  predicate Distinct(s: seq<Role>) { forall i, j | 0 <= i < j < |s| :: s[i] != s[j] }

  // ---------------------------------------------------------------- the reference: distance from the seeds

  /** Roles reachable from the seeds in at most `k` steps. */
  function Within(g: Graph, seeds: seq<Role>, k: nat): set<Role>
  {
    if k == 0 then SetOf(seeds)
    else
      var near := Within(g, seeds, k - 1);
      near + set r, s | r in near && s in SubRoles(g, r) :: s
  }

  // ---------------------------------------------------------------- the algorithm

  /** Adds a role to the queue unless it is there or was there. */
  function Enqueue(done: seq<Role>, queue: seq<Role>, r: Role): seq<Role>
  {
    if r in done || r in queue then queue else queue + [r]
  }

  function EnqueueAll(done: seq<Role>, queue: seq<Role>, rs: seq<Role>): seq<Role>
    decreases |rs|
  {
    if rs == [] then queue else EnqueueAll(done, Enqueue(done, queue, rs[0]), rs[1..])
  }

  /** All roles that can occur: the seeds and everything the graph mentions. */
  function Universe(g: Graph, seeds: seq<Role>): set<Role>
  {
    SetOf(seeds) + set r, s | r in g && s in g[r] :: s
  }

  predicate Ready(u: set<Role>, g: Graph, done: seq<Role>, queue: seq<Role>)
  {
    && Distinct(done + queue) && SetOf(done + queue) <= u
    && forall r, s | r in g && s in g[r] :: s in u
  }

  lemma {:induction false} DistinctFits(s: seq<Role>, u: set<Role>)
    requires Distinct(s) && SetOf(s) <= u
    ensures |s| <= |u|
    decreases |s|
  {
    if s != [] {
      var r := s[|s| - 1];
      var older := s[..|s| - 1];
      assert r in SetOf(s);
      assert SetOf(older) <= u - {r} by {
        forall x | x in SetOf(older) ensures x in u - {r} {
          var i :| 0 <= i < |older| && older[i] == x;
          assert s[i] == x && s[i] in SetOf(s);
        }
      }
      DistinctFits(older, u - {r});
    }
  }

  lemma {:induction false} EnqueueKeeps(u: set<Role>, g: Graph, done: seq<Role>, queue: seq<Role>, rs: seq<Role>)
    requires Ready(u, g, done, queue) && SetOf(rs) <= u
    ensures var q := EnqueueAll(done, queue, rs);
      Ready(u, g, done, q) && queue <= q && SetOf(done + q) == SetOf(done + queue) + SetOf(rs)
    decreases |rs|
  {
    if rs != [] {
      var q := Enqueue(done, queue, rs[0]);
      assert rs[0] in SetOf(rs);
      EnqueueOne(u, g, done, queue, rs[0]);
      assert SetOf(rs) == {rs[0]} + SetOf(rs[1..]) by {
        assert forall x | x in SetOf(rs[1..]) :: x in SetOf(rs) by {
          forall x | x in SetOf(rs[1..]) ensures x in SetOf(rs) {
            var i :| 0 <= i < |rs[1..]| && rs[1..][i] == x;
            assert rs[i + 1] == x;
          }
        }
        forall x | x in SetOf(rs) ensures x in {rs[0]} + SetOf(rs[1..]) {
          var i :| 0 <= i < |rs| && rs[i] == x;
          assert i > 0 ==> rs[1..][i - 1] == x;
        }
      }
      EnqueueKeeps(u, g, done, q, rs[1..]);
    }
  }

  lemma EnqueueOne(u: set<Role>, g: Graph, done: seq<Role>, queue: seq<Role>, r: Role)
    requires Ready(u, g, done, queue) && r in u
    ensures var q := Enqueue(done, queue, r);
      Ready(u, g, done, q) && queue <= q && SetOf(done + q) == SetOf(done + queue) + {r}
  {
    var q := Enqueue(done, queue, r);
    if q == queue {
      assert r in done + queue;
      var i :| 0 <= i < |done + queue| && (done + queue)[i] == r;
    } else {
      assert done + q == done + queue + [r];
      SetOfAppend(done + queue, r);
    }
  }

  lemma SetOfAppend(s: seq<Role>, r: Role)
    ensures SetOf(s + [r]) == SetOf(s) + {r}
  {
    forall x | x in SetOf(s) ensures x in SetOf(s + [r]) {
      var i :| 0 <= i < |s| && s[i] == x;
      assert (s + [r])[i] == x;
    }
    assert (s + [r])[|s|] == r;
  }

  lemma SubRolesIn(u: set<Role>, g: Graph, done: seq<Role>, queue: seq<Role>, r: Role)
    requires Ready(u, g, done, queue)
    ensures SetOf(SubRoles(g, r)) <= u
  {
  }

  lemma TakeFirst(u: set<Role>, g: Graph, done: seq<Role>, queue: seq<Role>)
    requires Ready(u, g, done, queue) && queue != []
    ensures Ready(u, g, done + [queue[0]], queue[1..]) && done + queue == done + [queue[0]] + queue[1..]
  {
    assert done + queue == done + [queue[0]] + queue[1..];
  }

  /** The loop: takes roles off the queue until it is empty. */
  function Flatten(u: set<Role>, g: Graph, done: seq<Role>, queue: seq<Role>): (r: seq<Role>)
    requires Ready(u, g, done, queue)
    decreases |u| - |done|
  {
    if queue == [] then done
    else
      var cur := queue[0];
      TakeFirst(u, g, done, queue);
      SubRolesIn(u, g, done, queue, cur);
      EnqueueKeeps(u, g, done + [cur], queue[1..], SubRoles(g, cur));
      DistinctFits(done + queue, u);
      Flatten(u, g, done + [cur], EnqueueAll(done + [cur], queue[1..], SubRoles(g, cur)))
  }

  lemma StartReady(g: Graph, seeds: seq<Role>)
    ensures var u := Universe(g, seeds); var q := EnqueueAll([], [], seeds);
      Ready(u, g, [], q) && SetOf(q) == SetOf(seeds)
  {
    var u := Universe(g, seeds);
    var none: seq<Role> := [];
    assert none + none == none;
    EnqueueKeeps(u, g, [], [], seeds);
    assert [] + EnqueueAll([], [], seeds) == EnqueueAll([], [], seeds);
  }

  function FlattenRoles(g: Graph, seeds: seq<Role>): seq<Role>
  {
    StartReady(g, seeds);
    Flatten(Universe(g, seeds), g, [], EnqueueAll([], [], seeds))
  }
}
