/** What becomes of a frame in a network: requests are handed on or refused, and answers can come home. */
module BrokerDelivery {
  import opened Brokers
  import opened BrokerNets
  import opened BrokerTheorems

  // ---------------------------------------------------------------- connections that are up

  /** The other side of a connection that is up. */
  lemma PeerOfLive(net: Net, e: End) returns (p: Place)
    requires NetOk(net) && e in net.live
    ensures Peer(net, e) == {p} && NodeAt(p) == net.ends[e] && !p.InTree?
  {
    p := if net.ends[e].LeafNode? then ToLeaf(net.ends[e].l, e) else ToBroker(net.mates[e]);
  }

  lemma OpenId(net: Net, e: End)
    requires e in net.live + net.masters
    ensures e.conn in OpenIds(net, e.broker)
  {
  }

  // ---------------------------------------------------------------- requests

  /** The frame that takes the place of another one. */
  ghost predicate Replaces(net: Net, more: Net, f: Frame, g: Frame)
  {
    more.frames == net.frames - {f} + {g} && more == net.(frames := more.frames)
  }

  lemma ReceiveIsHandedOn(conn: int, frame: Meta, open: set<int>)
    requires conn > 0 && conn in open && frame.kind == Request
    ensures var a := Receive(conn, frame, open, true); a.Tree? && IsHandedOn(conn, frame, a.meta)
  {
    ReceiveHandles(conn, frame, open, true);
  }

  lemma ReceiveIsRefused(conn: int, frame: Meta, open: set<int>)
    requires conn > 0 && conn in open && frame.kind == Request
    ensures var a := Receive(conn, frame, open, false); a.Send? && a.conn == conn && IsRefusal(frame, a.meta)
  {
    ReceiveHandles(conn, frame, open, false);
  }

  /**
   In every run, a granted request is handed to the node tree of its broker, with the same request id, and carries the
   stack of the connections it came in on.
   */
  lemma GrantedIsHandedOn(states: seq<Net>, steps: seq<Step>, n: nat, f: Frame) returns (g: Frame)
    requires IsRun(states, steps) && n <= |steps| && f in states[n].frames && f.at.ToBroker? && f.meta.kind == Request
    requires f.at.end in states[n].live + states[n].masters
    ensures Enabled(states[n], BrokerReceives(f, true))
    ensures Replaces(states[n], Apply(states[n], BrokerReceives(f, true)), f, g)
    ensures g.at == InTree(f.at.end.broker) && IsHandedOn(f.at.end.conn, f.meta, g.meta)
    ensures g.genuine && g.call == Onward(f.call, f.at.end) && Ids(g.meta.callerIds) == Stack(g.call)
  {
    var net, e := states[n], f.at.end;
    RunKeeps(states, steps, n);
    hide Receive, TrailOk, Stack;
    assert FrameOk(net, f);
    OpenId(net, e);
    ReceiveIsHandedOn(e.conn, f.meta, OpenIds(net, e.broker));
    var a := Receive(e.conn, f.meta, OpenIds(net, e.broker), true);
    g := Frame(a.meta, InTree(e.broker), f.from, Onward(f.call, e), f.genuine, Searched(f, e));
    assert Result(net, f, e, a) == {g};
    StackOnward(f.call, e);
  }

  lemma StackOnward(h: History, e: End)
    ensures Stack(Onward(h, e)) == Stack(h) + [e.conn]
  {
    assert Back(Onward(h, e)) == h;
    StackBack(Onward(h, e));
  }

  /** In every run, a request that is not granted is answered over the connection it came in on, while that is up. */
  lemma RefusalIsSent(states: seq<Net>, steps: seq<Step>, n: nat, f: Frame) returns (g: Frame)
    requires IsRun(states, steps) && n <= |steps| && f in states[n].frames && f.at.ToBroker? && f.meta.kind == Request
    requires f.at.end in states[n].live
    ensures Enabled(states[n], BrokerReceives(f, false))
    ensures Replaces(states[n], Apply(states[n], BrokerReceives(f, false)), f, g)
    ensures NodeAt(g.at) == f.from && IsRefusal(f.meta, g.meta) && g.genuine && g.call == f.call
  {
    var net, e := states[n], f.at.end;
    RunKeeps(states, steps, n);
    hide Receive, TrailOk, Stack;
    assert FrameOk(net, f);
    OpenId(net, e);
    ReceiveIsRefused(e.conn, f.meta, OpenIds(net, e.broker));
    var a := Receive(e.conn, f.meta, OpenIds(net, e.broker), false);
    var p := PeerOfLive(net, e);
    g := Frame(a.meta, p, BrokerNode(e.broker), f.call, f.genuine, f.search);
    assert Result(net, f, e, a) == {g};
  }

  /** In every run, a request in the node tree that is forwarded reaches the other side as it is. */
  lemma ForwardedReaches(states: seq<Net>, steps: seq<Step>, n: nat, f: Frame, e: End) returns (g: Frame)
    requires IsRun(states, steps) && n <= |steps| && Enabled(states[n], TreeForwards(f, e))
    ensures Replaces(states[n], Apply(states[n], TreeForwards(f, e)), f, g)
    ensures e in states[n].ends && NodeAt(g.at) == states[n].ends[e]
    ensures g.meta == f.meta && g.call == f.call && g.genuine == f.genuine
  {
    var net := states[n];
    RunKeeps(states, steps, n);
    hide Receive, TrailOk, Stack, FrameOk;
    var p := PeerOfLive(net, e);
    g := Frame(f.meta, p, BrokerNode(e.broker), f.call, f.genuine, f.search);
    assert Sent(net, e, f.meta, f.call, f.genuine, f.search) == {g};
  }

  // ---------------------------------------------------------------- answers

  /** All connections that a request came over are up. */
  ghost predicate AllLive(net: Net, h: History) { forall i | 0 <= i < |h.trail| :: h.trail[i] in net.live }

  /** A response to a request of a leaf, on its way back. */
  ghost predicate Returning(net: Net, f: Frame)
  {
    && f in net.frames && f.genuine && f.meta.kind == Response && f.meta.tunnel != FindRequest
    && f.call.origin.LeafNode? && AllLive(net, f.call)
  }

  /** A response that has come to the leaf that asked, with the ids it asked with. */
  ghost predicate IsHome(net: Net, f: Frame, g: Frame)
  {
    && g in net.frames && g.at.ToLeaf? && LeafNode(g.at.leaf) == f.call.origin && g.meta.kind == Response
    && g.meta.requestId == f.meta.requestId && Ids(g.meta.callerIds) == Ids(f.call.orig)
  }

  lemma ReceiveIsPassedOn(conn: int, frame: Meta, open: set<int>)
    requires conn > 0 && frame.kind == Response && frame.tunnel != FindRequest
    requires Peek(frame.callerIds) > 0 && Peek(frame.callerIds) in open
    ensures var a := Receive(conn, frame, open, false);
      && a.Send? && a.conn == Peek(frame.callerIds) && a.meta.kind == Response
      && a.meta.requestId == frame.requestId && a.meta.tunnel == frame.tunnel
  {
    ReceiveHandles(conn, frame, open, false);
  }

  /** The newest id is that of the end the request came in on. */
  lemma PeekBack(c: CallerIds, h: History)
    requires Ids(c) == Stack(h) && h.trail != []
    ensures Peek(c) == h.trail[|h.trail| - 1].conn
  {
    StackBack(h);
    PopBack(c, h);
    PopTakesLast(c);
  }

  /** The end that a returning response goes back over. */
  lemma BackIsUp(net: Net, f: Frame) returns (back: End)
    requires Inv(net) && Returning(net, f) && f.at.ToBroker?
    ensures f.call.trail != [] && back == f.call.trail[|f.call.trail| - 1]
    ensures back.broker == f.at.end.broker && back.conn > 0 && back in net.live && f.at.end.conn > 0
    ensures back.conn in OpenIds(net, back.broker) && Peek(f.meta.callerIds) == back.conn
  {
    hide Stack, TrailOk;
    assert FrameOk(net, f);
    back := f.call.trail[|f.call.trail| - 1];
    OpenId(net, back);
    PeekBack(f.meta.callerIds, f.call);
  }

  /** One step back towards the leaf that asked. */
  lemma StepsBack(net: Net, f: Frame) returns (g: Frame)
    requires Inv(net) && Returning(net, f) && f.at.ToBroker?
    ensures Enabled(net, BrokerReceives(f, false))
    ensures f.call.trail != [] && Replaces(net, Apply(net, BrokerReceives(f, false)), f, g)
    ensures Returning(Apply(net, BrokerReceives(f, false)), g)
    ensures g.call == Back(f.call) && g.meta.requestId == f.meta.requestId
  {
    hide Receive, Peek, FrameOk, OpenIds, Peer;
    var e := f.at.end;
    var back := BackIsUp(net, f);
    ReceiveIsPassedOn(e.conn, f.meta, OpenIds(net, e.broker));
    var a := Receive(e.conn, f.meta, OpenIds(net, e.broker), false);
    var p := PeerOfLive(net, back);
    assert End(e.broker, a.conn) == back;
    g := Frame(a.meta, p, BrokerNode(e.broker), Back(f.call), true, Searched(f, e));
    assert Result(net, f, e, a) == {g};
  }

  lemma Prepended(net: Net, s: Step, states: seq<Net>, steps: seq<Step>)
    requires Enabled(net, s) && Follows(states, steps) && states[0] == Apply(net, s)
    ensures Follows([net] + states, [s] + steps)
  {
    var more, all := [net] + states, [s] + steps;
    forall i | 0 <= i < |all| ensures Enabled(more[i], all[i]) && more[i + 1] == Apply(more[i], all[i]) {
      if i > 0 {
        assert more[i] == states[i - 1] && all[i] == steps[i - 1] && more[i + 1] == states[i - 1 + 1];
      }
    }
  }

  /** While the connections of its request are up, a response can be brought home, step by step. */
  lemma {:induction false} ResponseComesHome(net: Net, f: Frame) returns (states: seq<Net>, steps: seq<Step>, g: Frame)
    requires Inv(net) && Returning(net, f)
    ensures Follows(states, steps) && states[0] == net && IsHome(states[|steps|], f, g)
    decreases |f.call.trail|
  {
    assert FrameOk(net, f);
    if f.at.ToLeaf? {
      assert Conns([]) == [];
      states, steps, g := [net], [], f;
    } else {
      var s := BrokerReceives(f, false);
      var next := StepsBack(net, f);
      StepKeeps(net, s);
      states, steps, g := ResponseComesHome(Apply(net, s), next);
      Prepended(net, s, states, steps);
      states, steps := [net] + states, [s] + steps;
    }
  }

  /** The answer of a node of the broker that has the request. */
  lemma TreeAnswers(net: Net, f: Frame) returns (g: Frame)
    requires Inv(net) && f in net.frames && f.at.InTree? && f.call.origin.LeafNode? && AllLive(net, f.call)
    ensures Enabled(net, TreeReplies(f)) && Replaces(net, Apply(net, TreeReplies(f)), f, g)
    ensures Returning(Apply(net, TreeReplies(f)), g)
    ensures g.call == Back(f.call) && g.meta.requestId == f.meta.requestId
  {
    hide Reply, TrailOk, Stack;
    assert FrameOk(net, f);
    var back := f.call.trail[|f.call.trail| - 1];
    TreeReplyOk(net, f);
    OpenId(net, back);
    PeekBack(f.meta.callerIds, f.call);
    ReplyHandles(ForRequest(f.meta), OpenIds(net, f.at.broker));
    var a := Reply(ForRequest(f.meta), OpenIds(net, f.at.broker));
    var p := PeerOfLive(net, back);
    assert End(f.at.broker, a.conn) == back;
    g := Frame(a.meta, p, BrokerNode(f.at.broker), Back(f.call), f.genuine, f.search);
    assert Sent(net, back, a.meta, Back(f.call), f.genuine, f.search) == {g};
  }

  /** The answer of a leaf that has the request. */
  lemma LeafAnswers(net: Net, f: Frame) returns (g: Frame)
    requires Inv(net) && f in net.frames && f.at.ToLeaf? && f.meta.kind == Request
    requires f.call.origin.LeafNode? && AllLive(net, f.call)
    ensures var s := LeafResponds(f, Absent, NoTunnel);
      && Enabled(net, s) && Returning(Apply(net, s), g) && g.call == f.call && g.meta.requestId == f.meta.requestId
  {
    assert FrameOk(net, f);
    var meta := ForRequest(f.meta);
    var leaf := LeafNode(f.at.leaf);
    g := Frame(meta, ToBroker(f.at.via), leaf, f.call, f.genuine, History(leaf, Absent, []));
    assert meta.(revIds := Absent, tunnel := NoTunnel) == meta;
    assert g in Apply(net, LeafResponds(f, Absent, NoTunnel)).frames;
  }

  /**
   Every request of a leaf can be answered: from any state of a run in which the connections it came over are up, there
   are steps after which a response with its id is at the leaf that asked, with the caller ids it asked with.
   */
  lemma AnswerCanComeHome(states: seq<Net>, steps: seq<Step>, n: nat, f: Frame)
    returns (later: seq<Net>, more: seq<Step>, g: Frame)
    requires IsRun(states, steps) && n <= |steps| && f in states[n].frames && f.meta.kind == Request
    requires !f.at.ToBroker? && f.call.origin.LeafNode? && AllLive(states[n], f.call)
    ensures Follows(later, more) && later[0] == states[n] && IsHome(later[|more|], f, g)
  {
    var net := states[n];
    RunKeeps(states, steps, n);
    var s := if f.at.InTree? then TreeReplies(f) else LeafResponds(f, Absent, NoTunnel);
    var r: Frame;
    if f.at.InTree? {
      r := TreeAnswers(net, f);
    } else {
      r := LeafAnswers(net, f);
    }
    StepKeeps(net, s);
    later, more, g := ResponseComesHome(Apply(net, s), r);
    Prepended(net, s, later, more);
    later, more := [net] + later, [s] + more;
  }
}
