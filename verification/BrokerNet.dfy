/**
 A network of brokers and leaf clients as a state machine.  Connections open, close and are
 re-established at any time, frames are in flight in any number and order and may be lost,
 and leaves may send whatever they like; ids of connections are never given out twice.
 */
module BrokerNets {
  import opened Brokers

  datatype Node = BrokerNode(b: int) | LeafNode(l: int)

  /** The end of a connection at a broker, by the id it has there. */
  datatype End = End(broker: int, conn: int)

  /** Where a frame is: about to be received, or handed to the node tree of a broker. */
  datatype Place = ToBroker(end: End) | ToLeaf(leaf: int, via: End) | InTree(broker: int)

  /** Who made a stack of ids, what it was, and the ends that were pushed since. */
  datatype History = History(origin: Node, orig: CallerIds, trail: seq<End>)

  /**
   `call` is known for requests, and for responses whose responder copied the caller ids of a request;
   `search` tells the same of the reverse ids, when the frame registers them.
   */
  datatype Frame = Frame(meta: Meta, at: Place, from: Node, call: History, genuine: bool, search: History)

  datatype Net = Net(
    ends: map<End, Node>,      // every end ever created, and the node on the other side
    live: set<End>,            // ends of connections that are up
    masters: set<End>,         // connections to master brokers, kept while they are down
    mates: map<End, End>,      // the two ends of a broker-to-broker connection that is up
    last: map<int, int>,       // newest connection id of each broker
    frames: set<Frame>)

  const INITIAL := Net(map[], {}, {}, map[], map[], {})

  // ---------------------------------------------------------------- what frames say about their way

  function Conns(trail: seq<End>): (r: seq<int>)
    ensures |r| == |trail| && forall i | 0 <= i < |r| :: r[i] == trail[i].conn
  {
    seq(|trail|, i requires 0 <= i < |trail| => trail[i].conn)
  }

  function Stack(h: History): seq<int> { Ids(h.orig) + Conns(h.trail) }

  /** The node that a frame with this history has come to, and to which an answer goes back. */
  function Holder(h: History): Node
  {
    if h.trail == [] then h.origin else BrokerNode(h.trail[|h.trail| - 1].broker)
  }

  function Back(h: History): History
    requires h.trail != []
  {
    h.(trail := h.trail[..|h.trail| - 1])
  }

  function Onward(h: History, e: End): History { h.(trail := h.trail + [e]) }

  /** Each end on the trail leads back to the node before it. */
  ghost predicate TrailOk(ends: map<End, Node>, h: History)
    decreases |h.trail|
  {
    h.trail == [] ||
    (var e := h.trail[|h.trail| - 1]; e in ends && e.conn > 0 && ends[e] == Holder(Back(h)) && TrailOk(ends, Back(h)))
  }

  function NodeAt(p: Place): Node
  {
    match p
    case ToBroker(e) => BrokerNode(e.broker)
    case ToLeaf(l, _) => LeafNode(l)
    case InTree(b) => BrokerNode(b)
  }

  /** The node that has the frame, or had it last while it is on the way. */
  function Owner(f: Frame): Node { if f.at.InTree? then BrokerNode(f.at.broker) else f.from }

  ghost predicate Physical(net: Net, f: Frame)
  {
    match f.at
    case ToBroker(e) => e in net.ends && net.ends[e] == f.from
    case ToLeaf(l, via) => via in net.ends && net.ends[via] == LeafNode(l) && f.from == BrokerNode(via.broker)
    case InTree(b) => f.meta.kind == Request
  }

  /** Requests carry the stack of the ends they came in on; copied responses go to whom that stack leads back. */
  ghost predicate CallOk(net: Net, f: Frame)
  {
    f.genuine ==>
      && Ids(f.meta.callerIds) == Stack(f.call) && TrailOk(net.ends, f.call)
      && (f.call.origin.BrokerNode? ==> Ids(f.call.orig) == [] && !f.meta.callerIds.Odd?)
      && (f.meta.kind == Request ==> Owner(f) == Holder(f.call))
      && (f.meta.kind == Response ==> NodeAt(f.at) == Holder(f.call))
  }

  ghost predicate SearchOk(net: Net, f: Frame)
  {
    !f.meta.revIds.Absent? ==>
      && Ids(f.meta.revIds) == Stack(f.search) && TrailOk(net.ends, f.search)
      && f.search.origin.LeafNode? && Owner(f) == Holder(f.search)
  }

  ghost predicate FrameOk(net: Net, f: Frame)
  {
    Physical(net, f) && CallOk(net, f) && SearchOk(net, f) && (f.meta.kind == Request ==> f.genuine)
  }

  function LastId(net: Net, b: int): int { if b in net.last then net.last[b] else 0 }

  ghost predicate NetOk(net: Net)
  {
    && (forall e | e in net.ends :: 0 < e.conn <= LastId(net, e.broker))
    && (forall b | b in net.last :: net.last[b] > 0)
    && net.live <= net.ends.Keys && net.masters <= net.ends.Keys
    && (forall e | e in net.live && net.ends[e].BrokerNode? :: e in net.mates)
    && (forall e | e in net.mates ::
          e in net.ends && net.mates[e] in net.ends
          && net.ends[e] == BrokerNode(net.mates[e].broker) && net.ends[net.mates[e]] == BrokerNode(e.broker))
  }

  ghost predicate Inv(net: Net) { NetOk(net) && forall f | f in net.frames :: FrameOk(net, f) }

  // ---------------------------------------------------------------- steps

  datatype Step =
    | OpenLeaf(b: int, l: int)
    | NewMaster(b: int, m: int)
    | Connect(e: End)
    | Close(e: End)
    | LeafSends(e: End, meta: Meta)
    | LeafResponds(f: Frame, rev: CallerIds, tunnel: Tunnel)
    | BrokerReceives(f: Frame, granted: bool)
    | TreeForwards(f: Frame, e: End)
    | TreeReplies(f: Frame)
    | BrokerCalls(e: End, requestId: int)
    | Lose(f: Frame)

  function NewEnd(net: Net, b: int): End { End(b, LastId(net, b) + 1) }

  function AddEnd(net: Net, b: int, n: Node): Net
  {
    var e := NewEnd(net, b);
    net.(ends := net.ends[e := n], last := net.last[b := e.conn])
  }

  /** The ids that `commonClientConnectionById` finds. */
  function OpenIds(net: Net, b: int): set<int>
  {
    set e | e in net.live + net.masters && e.broker == b :: e.conn
  }

  /** Where a frame goes that is written to a connection; nowhere if the connection is down. */
  function Peer(net: Net, e: End): set<Place>
  {
    if e !in net.live || e !in net.ends then {}
    else if net.ends[e].LeafNode? then {ToLeaf(net.ends[e].l, e)}
    else if e in net.mates then {ToBroker(net.mates[e])}
    else {}
  }

  /** A frame written to a connection by broker `e.broker`. */
  function Sent(net: Net, e: End, meta: Meta, call: History, genuine: bool, search: History): set<Frame>
  {
    set p | p in Peer(net, e) :: Frame(meta, p, BrokerNode(e.broker), call, genuine, search)
  }

  function Searched(f: Frame, e: End): History
  {
    if f.meta.revIds.Absent? then f.search else Onward(f.search, e)
  }

  /** A tunnel search at the last broker on its way. */
  predicate EndsSearch(m: Meta) { m.tunnel == FindRequest && NoneLeft(Pop(m.callerIds).rest) }

  /** The frames that come of an action at the end `e`. */
  function Result(net: Net, f: Frame, e: End, a: Action): set<Frame>
  {
    match a
    case Tree(m) => {Frame(m, InTree(e.broker), f.from, Onward(f.call, e), f.genuine, Searched(f, e))}
    case Send(id, m) =>
      if f.meta.kind == Request then Sent(net, e, m, f.call, f.genuine, f.search)
      else if EndsSearch(f.meta) then
        Sent(net, e, m, f.search, true, f.search)
      else if f.call.trail == [] then Sent(net, End(e.broker, id), m, f.call, false, Searched(f, e))
      else Sent(net, End(e.broker, id), m, Back(f.call), f.genuine, Searched(f, e))
    case _ => {}
  }

  ghost predicate Enabled(net: Net, s: Step)
  {
    match s
    case OpenLeaf(_, _) => true
    case NewMaster(b, m) => true
    case Connect(e) => e in net.masters && e in net.ends && e !in net.live && net.ends[e].BrokerNode?
    case Close(e) => e in net.live
    case LeafSends(e, meta) => e in net.live && e in net.ends && net.ends[e].LeafNode?
    case LeafResponds(f, _, _) => f in net.frames && f.at.ToLeaf? && f.meta.kind == Request
    case BrokerReceives(f, _) => f in net.frames && f.at.ToBroker?
    case TreeForwards(f, e) => f in net.frames && f.at.InTree? && e in net.live && e.broker == f.at.broker
    case TreeReplies(f) => f in net.frames && f.at.InTree? && f.call.trail != []
    case BrokerCalls(e, _) => e in net.live
    case Lose(f) => f in net.frames
  }

  ghost function Apply(net: Net, s: Step): Net
    requires Enabled(net, s)
  {
    match s
    case OpenLeaf(b, l) => AddEnd(net, b, LeafNode(l)).(live := net.live + {NewEnd(net, b)})
    case NewMaster(b, m) => AddEnd(net, b, BrokerNode(m)).(masters := net.masters + {NewEnd(net, b)})
    case Connect(e) =>
      var mate := NewEnd(net, net.ends[e].b);
      AddEnd(net, net.ends[e].b, BrokerNode(e.broker)).(live := net.live + {e, mate},
        mates := net.mates[e := mate][mate := e])
    case Close(e) =>
      var gone := if e in net.mates then {e, net.mates[e]} else {e};
      net.(live := net.live - gone, mates := net.mates - gone)
    case LeafSends(e, meta) =>
      var h := History(net.ends[e], meta.callerIds, []);
      net.(frames := net.frames + {Frame(meta, ToBroker(e), net.ends[e], h, meta.kind == Request,
        History(net.ends[e], meta.revIds, []))})
    case LeafResponds(f, rev, tunnel) =>
      var meta := ForRequest(f.meta).(revIds := rev, tunnel := tunnel);
      net.(frames := net.frames + {Frame(meta, ToBroker(f.at.via), LeafNode(f.at.leaf), f.call, f.genuine,
        History(LeafNode(f.at.leaf), rev, []))})
    case BrokerReceives(f, granted) =>
      var e := f.at.end;
      var a := Receive(e.conn, f.meta, OpenIds(net, e.broker), granted);
      net.(frames := net.frames - {f} + Result(net, f, e, a))
    case TreeForwards(f, e) => net.(frames := net.frames - {f} + Sent(net, e, f.meta, f.call, f.genuine, f.search))
    case TreeReplies(f) =>
      var a := Reply(ForRequest(f.meta), OpenIds(net, f.at.broker));
      net.(frames := net.frames - {f}
        + if a.Send? then Sent(net, End(f.at.broker, a.conn), a.meta, Back(f.call), f.genuine, f.search) else {})
    case BrokerCalls(e, id) =>
      var h := History(BrokerNode(e.broker), Absent, []);
      net.(frames := net.frames + Sent(net, e, Meta(Request, id, Absent, Absent, NoTunnel), h, true, h))
    case Lose(f) => net.(frames := net.frames - {f})
  }
}
