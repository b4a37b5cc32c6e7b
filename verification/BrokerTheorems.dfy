/** What holds in every run of a broker network. */
module BrokerTheorems {
  import opened Brokers
  import opened BrokerNets

  // ---------------------------------------------------------------- ends are never forgotten

  ghost predicate Grows(a: map<End, Node>, b: map<End, Node>) { forall e | e in a :: e in b && b[e] == a[e] }

  lemma {:induction false} TrailStays(a: map<End, Node>, b: map<End, Node>, h: History)
    requires TrailOk(a, h) && Grows(a, b)
    ensures TrailOk(b, h)
    decreases |h.trail|
  {
    if h.trail != [] {
      TrailStays(a, b, Back(h));
    }
  }

  lemma FrameStays(net: Net, more: Net, f: Frame)
    requires FrameOk(net, f) && Grows(net.ends, more.ends)
    ensures FrameOk(more, f)
  {
    if f.genuine {
      TrailStays(net.ends, more.ends, f.call);
    }
    if !f.meta.revIds.Absent? {
      TrailStays(net.ends, more.ends, f.search);
    }
  }

  lemma NewEndIsNew(net: Net, b: int)
    requires NetOk(net)
    ensures NewEnd(net, b) !in net.ends && Grows(net.ends, AddEnd(net, b, LeafNode(0)).ends)
  {
  }

  // ---------------------------------------------------------------- histories

  lemma StackBack(h: History)
    requires h.trail != []
    ensures Stack(h) == Stack(Back(h)) + [h.trail[|h.trail| - 1].conn]
  {
  }

  /** A frame goes on over an end behind which its holder is. */
  lemma OnwardOk(ends: map<End, Node>, h: History, e: End)
    requires TrailOk(ends, h) && e in ends && e.conn > 0 && ends[e] == Holder(h)
    ensures TrailOk(ends, Onward(h, e)) && Holder(Onward(h, e)) == BrokerNode(e.broker)
  {
  }

  lemma PushOnward(c: CallerIds, h: History, e: End)
    requires Ids(c) == Stack(h)
    ensures Ids(Push(c, e.conn)) == Stack(Onward(h, e)) && !Push(c, e.conn).Odd?
  {
  }

  /** The id that is popped is that of the end the request came in on. */
  lemma PopBack(c: CallerIds, h: History)
    requires Ids(c) == Stack(h) && h.trail != []
    ensures Pop(c).id == h.trail[|h.trail| - 1].conn && Ids(Pop(c).rest) == Stack(Back(h)) && !Pop(c).rest.Odd?
  {
    StackBack(h);
    PopTakesLast(c);
  }

  // ---------------------------------------------------------------- sending

  /** A frame may be sent over an end if its histories fit the sender and the node behind the end. */
  lemma SentOk(net: Net, e: End, meta: Meta, call: History, genuine: bool, search: History)
    requires NetOk(net) && (meta.kind == Request ==> genuine)
    requires genuine ==> Ids(meta.callerIds) == Stack(call) && TrailOk(net.ends, call)
    requires genuine && call.origin.BrokerNode? ==> Ids(call.orig) == [] && !meta.callerIds.Odd?
    requires genuine && meta.kind == Request ==> Holder(call) == BrokerNode(e.broker)
    requires genuine && meta.kind == Response && e in net.ends ==> Holder(call) == net.ends[e]
    requires !meta.revIds.Absent? ==> Ids(meta.revIds) == Stack(search) && TrailOk(net.ends, search)
    requires !meta.revIds.Absent? ==> search.origin.LeafNode? && Holder(search) == BrokerNode(e.broker)
    ensures forall f | f in Sent(net, e, meta, call, genuine, search) :: FrameOk(net, f)
  {
  }

  // ---------------------------------------------------------------- a broker receives

  lemma SearchedOk(net: Net, f: Frame, e: End)
    requires FrameOk(net, f) && f.at == ToBroker(e) && e.conn > 0 && !f.meta.revIds.Absent?
    ensures var rev, h := RegisterRev(e.conn, f.meta).revIds, Searched(f, e);
      !rev.Absent? && Ids(rev) == Stack(h) && TrailOk(net.ends, h) && Holder(h) == BrokerNode(e.broker)
  {
  }

  lemma RequestOk(net: Net, f: Frame, e: End, granted: bool)
    requires NetOk(net) && FrameOk(net, f) && f.at == ToBroker(e) && f.meta.kind == Request
    ensures var a := Receive(e.conn, f.meta, OpenIds(net, e.broker), granted);
      forall g | g in Result(net, f, e, a) :: FrameOk(net, g)
  {
    var a := Receive(e.conn, f.meta, OpenIds(net, e.broker), granted);
    if a.Tree? {
      HandedOn(net, f, e);
    } else if a.Send? {
      SentOk(net, e, a.meta, f.call, f.genuine, f.search);
    }
  }

  /** A request that is handed to the node tree. */
  lemma HandedOn(net: Net, f: Frame, e: End)
    requires NetOk(net) && FrameOk(net, f) && f.at == ToBroker(e) && f.meta.kind == Request
    ensures var m := RegisterRev(e.conn, f.meta);
      FrameOk(net, Frame(m.(callerIds := Push(m.callerIds, e.conn)), InTree(e.broker), f.from, Onward(f.call, e),
                         f.genuine, Searched(f, e)))
  {
    if !f.meta.revIds.Absent? {
      SearchedOk(net, f, e);
    }
    PushOnward(f.meta.callerIds, f.call, e);
    OnwardOk(net.ends, f.call, e);
  }

  /** A genuine response that a broker passes on goes to the end its request came in on, and nowhere else. */
  lemma GenuineGoesBack(net: Net, f: Frame, e: End, granted: bool)
    requires NetOk(net) && FrameOk(net, f) && f.at == ToBroker(e) && f.meta.kind == Response && f.genuine
    ensures var a := Receive(e.conn, f.meta, OpenIds(net, e.broker), granted);
      if f.call.trail == [] then a.Drop?
      else
        var back := f.call.trail[|f.call.trail| - 1];
        && back.broker == e.broker && back in net.ends && net.ends[back] == Holder(Back(f.call))
        && (!EndsSearch(f.meta) ==>
              if back.conn in OpenIds(net, e.broker) then
                && a.Send? && a.conn == back.conn && a.meta.kind == Response
                && Ids(a.meta.callerIds) == Stack(Back(f.call)) && !a.meta.callerIds.Odd?
              else a.Drop?)
  {
    if f.call.trail != [] {
      hide Stack, Ids;
      PopBack(f.meta.callerIds, f.call);
    }
  }

  /** The answer to a tunnel search goes back to whom the search came from. */
  lemma SearchTurnsBack(net: Net, f: Frame, e: End, granted: bool)
    requires NetOk(net) && FrameOk(net, f) && f.at == ToBroker(e) && f.meta.kind == Response
    requires EndsSearch(f.meta) && !f.meta.revIds.Absent?
    ensures var a := Receive(e.conn, f.meta, OpenIds(net, e.broker), granted);
      && !a.Mismatch?
      && (a.Send? ==> a.conn == e.conn && a.meta.kind == Response && a.meta.revIds.Absent?
                      && Ids(a.meta.callerIds) == Stack(f.search))
      && net.ends[e] == Holder(f.search)
  {
    PopUndoesPush(f.meta.revIds, e.conn);
  }

  /** A frame that is passed on, with what it registered on its way. */
  lemma PassedOnOk(net: Net, f: Frame, e: End, meta: Meta, to: End, call: History, genuine: bool)
    requires NetOk(net) && FrameOk(net, f) && f.at == ToBroker(e) && meta.kind == Response && to.broker == e.broker
    requires meta.revIds == RegisterRev(e.conn, f.meta).revIds
    requires genuine ==> Ids(meta.callerIds) == Stack(call) && TrailOk(net.ends, call)
    requires genuine && call.origin.BrokerNode? ==> Ids(call.orig) == [] && !meta.callerIds.Odd?
    requires genuine && to in net.ends ==> Holder(call) == net.ends[to]
    ensures forall g | g in Sent(net, to, meta, call, genuine, Searched(f, e)) :: FrameOk(net, g)
  {
    if !f.meta.revIds.Absent? {
      SearchedOk(net, f, e);
    }
    SentOk(net, to, meta, call, genuine, Searched(f, e));
  }

  lemma GenuineOk(net: Net, f: Frame, e: End, granted: bool)
    requires NetOk(net) && FrameOk(net, f) && f.at == ToBroker(e) && f.meta.kind == Response && f.genuine
    requires !EndsSearch(f.meta)
    ensures var a := Receive(e.conn, f.meta, OpenIds(net, e.broker), granted);
      forall g | g in Result(net, f, e, a) :: FrameOk(net, g)
  {
    var a := Receive(e.conn, f.meta, OpenIds(net, e.broker), granted);
    GenuineGoesBack(net, f, e, granted);
    if a.Send? {
      PassedOnOk(net, f, e, a.meta, End(e.broker, a.conn), Back(f.call), true);
    }
  }

  lemma ForgedOk(net: Net, f: Frame, e: End, granted: bool)
    requires NetOk(net) && FrameOk(net, f) && f.at == ToBroker(e) && f.meta.kind == Response && !f.genuine
    requires !EndsSearch(f.meta)
    ensures var a := Receive(e.conn, f.meta, OpenIds(net, e.broker), granted);
      forall g | g in Result(net, f, e, a) :: FrameOk(net, g)
  {
    var a := Receive(e.conn, f.meta, OpenIds(net, e.broker), granted);
    if a.Send? {
      PassedOnOk(net, f, e, a.meta, End(e.broker, a.conn), if f.call.trail == [] then f.call else Back(f.call), false);
    }
  }

  lemma SearchEndOk(net: Net, f: Frame, e: End, granted: bool)
    requires NetOk(net) && FrameOk(net, f) && f.at == ToBroker(e) && f.meta.kind == Response && EndsSearch(f.meta)
    ensures var a := Receive(e.conn, f.meta, OpenIds(net, e.broker), granted);
      forall g | g in Result(net, f, e, a) :: FrameOk(net, g)
  {
    var a := Receive(e.conn, f.meta, OpenIds(net, e.broker), granted);
    if a.Send? && !f.meta.revIds.Absent? {
      SearchTurnsBack(net, f, e, granted);
      SentOk(net, e, a.meta, f.search, true, f.search);
    }
  }

  lemma ResponseOk(net: Net, f: Frame, e: End, granted: bool)
    requires NetOk(net) && FrameOk(net, f) && f.at == ToBroker(e) && f.meta.kind == Response
    ensures var a := Receive(e.conn, f.meta, OpenIds(net, e.broker), granted);
      forall g | g in Result(net, f, e, a) :: FrameOk(net, g)
  {
    if EndsSearch(f.meta) {
      SearchEndOk(net, f, e, granted);
    } else if f.genuine {
      GenuineOk(net, f, e, granted);
    } else {
      ForgedOk(net, f, e, granted);
    }
  }

  /** A response made in the node tree goes to the end its request came in on. */
  lemma TreeReplyOk(net: Net, f: Frame)
    requires NetOk(net) && FrameOk(net, f) && f.at.InTree? && f.call.trail != []
    ensures var a := Reply(ForRequest(f.meta), OpenIds(net, f.at.broker));
      var back := f.call.trail[|f.call.trail| - 1];
      && back.broker == f.at.broker
      && (a.Send? ==> a.conn == back.conn)
      && (a.Send? ==>
            forall g | g in Sent(net, End(f.at.broker, a.conn), a.meta, Back(f.call), f.genuine, f.search) ::
              FrameOk(net, g))
  {
    PopBack(f.meta.callerIds, f.call);
    var a := Reply(ForRequest(f.meta), OpenIds(net, f.at.broker));
    if a.Send? {
      SentOk(net, End(f.at.broker, a.conn), a.meta, Back(f.call), f.genuine, f.search);
    }
  }

  // ---------------------------------------------------------------- every step keeps the invariant

  lemma FramesStay(net: Net, more: Net)
    requires Inv(net) && NetOk(more) && Grows(net.ends, more.ends) && more.frames == net.frames
    ensures Inv(more)
  {
    forall f | f in net.frames ensures FrameOk(more, f) {
      FrameStays(net, more, f);
    }
  }

  /** Only frames that fit are added; the rest of the network does not change. */
  lemma FramesAdded(net: Net, more: Net, added: set<Frame>)
    requires Inv(net) && more.(frames := net.frames) == net && more.frames <= net.frames + added
    requires forall g | g in added :: FrameOk(net, g)
    ensures Inv(more)
  {
  }

  lemma AddEndOk(net: Net, b: int, n: Node)
    requires NetOk(net)
    ensures NetOk(AddEnd(net, b, n)) && Grows(net.ends, AddEnd(net, b, n).ends)
  {
    NewEndIsNew(net, b);
  }

  lemma ConnectOk(net: Net, e: End)
    requires NetOk(net) && Enabled(net, Connect(e))
    ensures NetOk(Apply(net, Connect(e)))
  {
    AddEndOk(net, net.ends[e].b, BrokerNode(e.broker));
  }

  lemma CloseOk(net: Net, e: End)
    requires NetOk(net) && Enabled(net, Close(e))
    ensures NetOk(Apply(net, Close(e)))
  {
  }

  lemma ConnectionsKeep(net: Net, s: Step)
    requires Inv(net) && Enabled(net, s) && (s.OpenLeaf? || s.NewMaster? || s.Connect? || s.Close?)
    ensures Inv(Apply(net, s)) && Grows(net.ends, Apply(net, s).ends)
  {
    hide FrameOk;
    match s {
      case OpenLeaf(b, l) => AddEndOk(net, b, LeafNode(l));
      case NewMaster(b, m) => AddEndOk(net, b, BrokerNode(m));
      case Connect(e) =>
        AddEndOk(net, net.ends[e].b, BrokerNode(e.broker));
        ConnectOk(net, e);
      case Close(e) => CloseOk(net, e);
    }
    FramesStay(net, Apply(net, s));
  }

  lemma LeavesKeep(net: Net, s: Step)
    requires Inv(net) && Enabled(net, s) && (s.LeafSends? || s.LeafResponds?)
    ensures Inv(Apply(net, s))
  {
    var more := Apply(net, s);
    FramesAdded(net, more, more.frames - net.frames);
  }

  lemma BrokersKeep(net: Net, s: Step)
    requires Inv(net) && Enabled(net, s)
    requires (s.BrokerReceives? || s.TreeForwards? || s.TreeReplies? || s.BrokerCalls? || s.Lose?)
    ensures Inv(Apply(net, s))
  {
    var more := Apply(net, s);
    match s {
      case BrokerReceives(f, granted) =>
        var e := f.at.end;
        assert FrameOk(net, f);
        if f.meta.kind == Request {
          RequestOk(net, f, e, granted);
        } else if f.meta.kind == Response {
          ResponseOk(net, f, e, granted);
        }
        FramesAdded(net, more, Result(net, f, e, Receive(e.conn, f.meta, OpenIds(net, e.broker), granted)));
      case TreeForwards(f, e) =>
        assert FrameOk(net, f);
        SentOk(net, e, f.meta, f.call, f.genuine, f.search);
        FramesAdded(net, more, Sent(net, e, f.meta, f.call, f.genuine, f.search));
      case TreeReplies(f) =>
        assert FrameOk(net, f);
        TreeReplyOk(net, f);
        FramesAdded(net, more, more.frames - net.frames);
      case BrokerCalls(e, id) =>
        var h := History(BrokerNode(e.broker), Absent, []);
        var meta := Meta(Request, id, Absent, Absent, NoTunnel);
        SentOk(net, e, meta, h, true, h);
        FramesAdded(net, more, Sent(net, e, meta, h, true, h));
      case Lose(f) => FramesAdded(net, more, {});
    }
  }

  lemma StepKeeps(net: Net, s: Step)
    requires Inv(net) && Enabled(net, s)
    ensures Inv(Apply(net, s)) && Grows(net.ends, Apply(net, s).ends)
  {
    if s.OpenLeaf? || s.NewMaster? || s.Connect? || s.Close? {
      ConnectionsKeep(net, s);
    } else if s.LeafSends? || s.LeafResponds? {
      LeavesKeep(net, s);
    } else {
      BrokersKeep(net, s);
    }
  }

  // ---------------------------------------------------------------- whole runs

  /** Each state follows from the one before it by an enabled step. */
  ghost predicate Follows(states: seq<Net>, steps: seq<Step>)
  {
    && |states| == |steps| + 1
    && forall i | 0 <= i < |steps| :: Enabled(states[i], steps[i]) && states[i + 1] == Apply(states[i], steps[i])
  }

  ghost predicate IsRun(states: seq<Net>, steps: seq<Step>) { Follows(states, steps) && states[0] == INITIAL }

  lemma {:induction false} RunKeeps(states: seq<Net>, steps: seq<Step>, n: nat)
    requires IsRun(states, steps) && n <= |steps|
    ensures Inv(states[n])
    decreases n
  {
    if n > 0 {
      RunKeeps(states, steps, n - 1);
      assert states[n - 1 + 1] == Apply(states[n - 1], steps[n - 1]);
      StepKeeps(states[n - 1], steps[n - 1]);
    }
  }

  lemma RunGrows(states: seq<Net>, steps: seq<Step>, n: nat)
    requires IsRun(states, steps) && n < |steps|
    ensures Grows(states[n].ends, states[n + 1].ends)
  {
    RunKeeps(states, steps, n);
    StepKeeps(states[n], steps[n]);
  }

  /** A connection id, once given out, names the same connection for the rest of the run. */
  lemma {:induction false} IdsAreNeverReused(states: seq<Net>, steps: seq<Step>, i: nat, j: nat, e: End)
    requires IsRun(states, steps) && i <= j <= |steps| && e in states[i].ends
    ensures e in states[j].ends && states[j].ends[e] == states[i].ends[e]
    decreases j
  {
    if i < j {
      IdsAreNeverReused(states, steps, i, j - 1, e);
      RunGrows(states, steps, j - 1);
    }
  }

  /**
   In every run, a copied response at a broker is passed on only over the connection its request came in on,
   with the id of that connection taken off, or is dropped if that connection is gone.
   */
  lemma ResponsesRetrace(states: seq<Net>, steps: seq<Step>, n: nat, f: Frame, granted: bool)
    requires IsRun(states, steps) && n <= |steps| && f in states[n].frames
    requires f.genuine && f.meta.kind == Response && f.at.ToBroker? && !EndsSearch(f.meta)
    ensures var b := f.at.end.broker;
      var a := Receive(f.at.end.conn, f.meta, OpenIds(states[n], b), granted);
      if f.call.trail == [] then a.Drop?
      else
        var back := f.call.trail[|f.call.trail| - 1];
        && back.broker == b && back in states[n].ends && states[n].ends[back] == Holder(Back(f.call))
        && if back.conn in OpenIds(states[n], b) then
             a.Send? && a.conn == back.conn && Ids(a.meta.callerIds) == Stack(Back(f.call))
           else a.Drop?
  {
    RunKeeps(states, steps, n);
    assert FrameOk(states[n], f);
    GenuineGoesBack(states[n], f, f.at.end, granted);
  }

  /**
   In every run, a copied response that reaches a leaf reaches the leaf that asked, with the caller ids it asked
   with.
   */
  lemma ResponsesArrive(states: seq<Net>, steps: seq<Step>, n: nat, f: Frame)
    requires IsRun(states, steps) && n <= |steps| && f in states[n].frames
    requires f.genuine && f.meta.kind == Response && f.at.ToLeaf?
    ensures f.call.origin == LeafNode(f.at.leaf) && f.call.trail == [] && Ids(f.meta.callerIds) == Ids(f.call.orig)
  {
    RunKeeps(states, steps, n);
    assert FrameOk(states[n], f);
    assert Conns([]) == [];
  }

  /**
   In every run, frames that register reverse ids never reach the mismatch branch, and the search turns back to
   its sender.
   */
  lemma SearchesNeverMismatch(states: seq<Net>, steps: seq<Step>, n: nat, f: Frame, granted: bool)
    requires IsRun(states, steps) && n <= |steps| && f in states[n].frames && f.at.ToBroker? && !f.meta.revIds.Absent?
    ensures var e := f.at.end;
      var a := Receive(e.conn, f.meta, OpenIds(states[n], e.broker), granted);
      && !a.Mismatch?
      && (f.meta.kind == Response && EndsSearch(f.meta) && a.Send? ==>
            a.conn == e.conn && e in states[n].ends && states[n].ends[e] == Holder(f.search)
              && Ids(a.meta.callerIds) == Stack(f.search))
  {
    RunKeeps(states, steps, n);
    assert FrameOk(states[n], f);
    var e := f.at.end;
    MismatchIff(e.conn, f.meta, OpenIds(states[n], e.broker), granted);
    if f.meta.kind == Response && EndsSearch(f.meta) {
      SearchTurnsBack(states[n], f, e, granted);
    }
  }

  /** A leaf that sends the answer to a search it never got, without reverse ids, takes its broker into that branch. */
  lemma MismatchIsReachable(b: int, l: int, granted: bool) returns (states: seq<Net>, f: Frame)
    ensures var e := End(b, 1);
      var stray := Meta(Response, 1, One(5), Absent, FindRequest);
      && IsRun(states, [OpenLeaf(b, l), LeafSends(e, stray)]) && f in states[2].frames && f.at == ToBroker(e)
      && Receive(e.conn, f.meta, OpenIds(states[2], b), granted).Mismatch?
  {
    var e := End(b, 1);
    var stray := Meta(Response, 1, One(5), Absent, FindRequest);
    var steps := [OpenLeaf(b, l), LeafSends(e, stray)];
    assert NewEnd(INITIAL, b) == e;
    var one := Apply(INITIAL, steps[0]);
    assert e in one.live && one.ends[e] == LeafNode(l);
    var two := Apply(one, steps[1]);
    states := [INITIAL, one, two];
    var none := History(LeafNode(l), Absent, []);
    f := Frame(stray, ToBroker(e), LeafNode(l), History(LeafNode(l), One(5), []), false, none);
    assert f in two.frames;
    assert IsRun(states, steps);
    assert f in states[2].frames;
  }
}
