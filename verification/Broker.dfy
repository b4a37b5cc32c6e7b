/**
 Caller-id stacks (libshvchainpack/src/rpcmessage.cpp) and what one broker does with one frame
 (`BrokerApp::onRpcFrameReceived`, `onRootNodeSendRpcMesage`).
 */
module Brokers {
  import opened ByteStrings

  // ---------------------------------------------------------------- caller ids

  /** The meta value for caller ids: missing, a number, a list, or anything else, which counts as its `toInt`. */
  datatype CallerIds = Absent | One(id: int) | Many(ids: seq<int>) | Odd(asInt: int)

  datatype Popped = Popped(rest: CallerIds, id: int)

  function Push(c: CallerIds, id: int): CallerIds
  {
    match c
    case Many(ids) => Many(ids + [id])
    case One(first) => Many([first, id])
    case _ => One(id)
  }

  function Pop(c: CallerIds): Popped
  {
    match c
    case Many(ids) => if ids == [] then Popped(c, 0) else Popped(Many(ids[..|ids| - 1]), ids[|ids| - 1])
    case One(id) => Popped(Absent, id)
    case Odd(i) => Popped(Absent, i)
    case Absent => Popped(Absent, 0)
  }

  function Peek(c: CallerIds): int
  {
    match c
    case Many(ids) => if ids == [] then 0 else ids[|ids| - 1]
    case One(id) => id
    case Odd(i) => i
    case Absent => 0
  }

  /** The stack of ids, whatever its representation; what is no id at all is replaced by the first push. */
  function Ids(c: CallerIds): seq<int>
  {
    match c
    case Many(ids) => ids
    case One(id) => [id]
    case _ => []
  }

  /** Pop takes the newest id off a stack that has one. */
  lemma PopTakesLast(c: CallerIds)
    requires Ids(c) != []
    ensures Pop(c).id == Ids(c)[|Ids(c)| - 1] == Peek(c) && Ids(Pop(c).rest) == Ids(c)[..|Ids(c)| - 1]
  {
  }

  lemma PopUndoesPush(c: CallerIds, id: int)
    ensures Pop(Push(c, id)).id == id && Ids(Pop(Push(c, id)).rest) == Ids(c)
  {
  }

  // ---------------------------------------------------------------- one frame at one broker

  datatype Kind = Request | Response | Signal

  datatype Tunnel = NoTunnel | FindRequest | FindResponse

  datatype Meta = Meta(kind: Kind, requestId: int, callerIds: CallerIds, revIds: CallerIds, tunnel: Tunnel)

  /** What the broker does with a frame; `Mismatch` is the branch that reports "this should never happen". */
  datatype Action = Drop | Send(conn: int, meta: Meta) | Tree(meta: Meta) | Mismatch

  function ForRequest(m: Meta): Meta { Meta(Response, m.requestId, m.callerIds, Absent, NoTunnel) }

  function RegisterRev(conn: int, m: Meta): Meta
  {
    if m.revIds.Absent? then m else m.(revIds := Push(m.revIds, conn))
  }

  predicate NoneLeft(c: CallerIds) { c.Absent? || c == Many([]) }

  /** The answer to a tunnel search goes back the way the search came. */
  function TunnelReply(conn: int, m: Meta, isOpen: bool): Action
  {
    var rev := Pop(m.revIds);
    if rev.id != conn then Mismatch
    else if isOpen then Send(conn, Meta(Response, m.requestId, rev.rest, Absent, FindResponse))
    else Drop
  }

  /** `onRpcFrameReceived`: `granted` says whether access is granted and the path could be mapped. */
  function Receive(conn: int, frame: Meta, open: set<int>, granted: bool): Action
  {
    var m := RegisterRev(conn, frame);
    match m.kind
    case Request =>
      if conn !in open then Drop
      else if granted then Tree(m.(callerIds := Push(m.callerIds, conn)))
      else Send(conn, ForRequest(m))
    case Response =>
      var top := Pop(m.callerIds);
      if top.id <= 0 then Drop
      else if m.tunnel == FindRequest && NoneLeft(top.rest) then TunnelReply(conn, m, conn in open)
      else if top.id in open then Send(top.id, m.(callerIds := top.rest))
      else Drop
    case Signal => Drop
  }

  /** `onRootNodeSendRpcMesage`: a response made by a node of this broker. */
  function Reply(m: Meta, open: set<int>): Action
  {
    var top := Pop(m.callerIds);
    if top.id in open then Send(top.id, m.(callerIds := top.rest)) else Drop
  }

  /**
   The mismatch branch is reached exactly by tunnel searches at their last broker that do not register reverse
   ids.
   */
  lemma MismatchIff(conn: int, frame: Meta, open: set<int>, granted: bool)
    requires conn > 0
    ensures Receive(conn, frame, open, granted).Mismatch? <==>
      && frame.kind == Response && frame.tunnel == FindRequest
      && Pop(frame.callerIds).id > 0 && NoneLeft(Pop(frame.callerIds).rest)
      && frame.revIds.Absent?
  {
  }

  // ---------------------------------------------------------------- what a broker owes a frame

  /** Frames that register reverse ids carry the connection they came in on, others stay without. */
  ghost predicate Registers(conn: int, frame: Meta, m: Meta)
  {
    if frame.revIds.Absent? then m.revIds.Absent?
    else !m.revIds.Absent? && Ids(m.revIds) == Ids(frame.revIds) + [conn]
  }

  /** The request itself, with the connection it came in on behind its caller ids. */
  ghost predicate IsHandedOn(conn: int, frame: Meta, m: Meta)
  {
    && m.kind == Request && m.requestId == frame.requestId && m.tunnel == frame.tunnel
    && Ids(m.callerIds) == Ids(frame.callerIds) + [conn] && Registers(conn, frame, m)
  }

  /** A response to the request, for whoever sent it over this connection. */
  ghost predicate IsRefusal(frame: Meta, m: Meta)
  {
    && m.kind == Response && m.requestId == frame.requestId && m.callerIds == frame.callerIds
    && m.revIds.Absent? && m.tunnel == NoTunnel
  }

  /** The response without its newest caller id. */
  ghost predicate IsPassedOn(frame: Meta, m: Meta)
  {
    && m.kind == Response && m.requestId == frame.requestId && m.tunnel == frame.tunnel
    && Ids(m.callerIds) == if Ids(frame.callerIds) == [] then [] else Ids(frame.callerIds)[..|Ids(frame.callerIds)| - 1]
  }

  /** The answer to a search, addressed by the ids that the search registered on its way. */
  ghost predicate IsSearchAnswer(frame: Meta, m: Meta)
  {
    && m.kind == Response && m.requestId == frame.requestId && m.tunnel == FindResponse
    && Ids(m.callerIds) == Ids(frame.revIds) && m.revIds.Absent?
  }

  ghost predicate HandlesRequest(conn: int, frame: Meta, open: set<int>, granted: bool,
                                 sent: seq<(int, Meta)>, tree: seq<Meta>)
  {
    if conn !in open then sent == [] && tree == []
    else if granted then sent == [] && |tree| == 1 && IsHandedOn(conn, frame, tree[0])
    else tree == [] && |sent| == 1 && sent[0].0 == conn && IsRefusal(frame, sent[0].1)
  }

  ghost predicate HandlesSearch(conn: int, frame: Meta, open: set<int>, sent: seq<(int, Meta)>)
  {
    if frame.revIds.Absent? || conn !in open then sent == []
    else |sent| == 1 && sent[0].0 == conn && IsSearchAnswer(frame, sent[0].1)
  }

  ghost predicate HandlesResponse(conn: int, frame: Meta, open: set<int>, sent: seq<(int, Meta)>)
  {
    var top := Peek(frame.callerIds);
    if top <= 0 then sent == []
    else if frame.tunnel == FindRequest && |Ids(frame.callerIds)| <= 1 then HandlesSearch(conn, frame, open, sent)
    else if top !in open then sent == []
    else
      && |sent| == 1 && sent[0].0 == top
      && IsPassedOn(frame, sent[0].1) && Registers(conn, frame, sent[0].1)
  }

  /** What is sent and handed to the node tree for a frame. */
  ghost predicate Handles(conn: int, frame: Meta, open: set<int>, granted: bool,
                          sent: seq<(int, Meta)>, tree: seq<Meta>)
  {
    match frame.kind
    case Request => HandlesRequest(conn, frame, open, granted, sent, tree)
    case Response => tree == [] && HandlesResponse(conn, frame, open, sent)
    case Signal => sent == [] && tree == []
  }

  function SentBy(a: Action): seq<(int, Meta)> { if a.Send? then [(a.conn, a.meta)] else [] }

  function HandedBy(a: Action): seq<Meta> { if a.Tree? then [a.meta] else [] }

  lemma PushAppends(c: CallerIds, id: int)
    ensures Ids(Push(c, id)) == Ids(c) + [id] && !Push(c, id).Absent?
  {
  }

  /** What is done with a frame is what is owed to it. */
  lemma ReceiveHandles(conn: int, frame: Meta, open: set<int>, granted: bool)
    requires conn > 0
    ensures var a := Receive(conn, frame, open, granted); Handles(conn, frame, open, granted, SentBy(a), HandedBy(a))
  {
    PushAppends(frame.revIds, conn);
    PushAppends(frame.callerIds, conn);
  }

  /** A response of a local node goes to the connection of its newest caller id. */
  lemma ReplyHandles(m: Meta, open: set<int>)
    requires m.kind == Response
    ensures var sent, top := SentBy(Reply(m, open)), Peek(m.callerIds);
      if top !in open then sent == []
      else |sent| == 1 && sent[0].0 == top && IsPassedOn(m, sent[0].1) && sent[0].1.revIds == m.revIds
  {
  }

  /** The broker as an object: its connection tables and what it has sent. */
  class BrokerApp {
    var clients: map<int, bool>      // client connections, true for slave brokers
    var masters: set<int>            // connections to master brokers
    var sent: seq<(int, Meta)>
    var tree: seq<Meta>              // requests passed to the node tree

    constructor ()
      ensures clients == map[] && masters == {} && sent == [] && tree == []
    {
      clients, masters, sent, tree := map[], {}, [], [];
    }

    function Open(): set<int>
      reads this
    {
      clients.Keys + masters
    }

    predicate HasConnection(id: int)
      reads this
    {
      id in clients || id in masters
    }

    method SendTo(id: int, m: Meta)
      modifies `sent
      ensures sent == old(sent) + [(id, m)]
    {
      sent := sent + [(id, m)];
    }

    ghost predicate Did(a: Action, sentBefore: seq<(int, Meta)>, treeBefore: seq<Meta>)
      reads this
    {
      match a
      case Send(id, m) => sent == sentBefore + [(id, m)] && tree == treeBefore
      case Tree(m) => sent == sentBefore && tree == treeBefore + [m]
      case _ => sent == sentBefore && tree == treeBefore
    }

    method OnRpcFrameReceived(conn: int, frame: Meta, granted: bool)
      modifies `sent, `tree
      ensures Did(Receive(conn, frame, Open(), granted), old(sent), old(tree))
      ensures old(sent) <= sent && old(tree) <= tree
      ensures conn > 0 ==> Handles(conn, frame, Open(), granted, sent[|old(sent)|..], tree[|old(tree)|..])
    {
      if conn > 0 {
        ReceiveHandles(conn, frame, Open(), granted);
      }
      var m := frame;
      if !m.revIds.Absent? {
        m := m.(revIds := Push(m.revIds, conn));
      }
      if m.kind == Request {
        var rsp := ForRequest(m);
        if HasConnection(conn) {
          if granted {
            m := m.(callerIds := Push(m.callerIds, conn));
            tree := tree + [m];
          } else {
            SendTo(conn, rsp);
          }
        }
      } else if m.kind == Response {
        var top := Pop(m.callerIds);
        m := m.(callerIds := top.rest);
        if top.id > 0 {
          if m.tunnel == FindRequest && NoneLeft(m.callerIds) {
            var rev := Pop(m.revIds);
            if rev.id != conn {
              return;
            }
            if HasConnection(conn) {
              SendTo(conn, Meta(Response, m.requestId, rev.rest, Absent, FindResponse));
            }
            return;
          }
          if HasConnection(top.id) {
            SendTo(top.id, m);
          }
        }
      }
    }

    method OnRootNodeSendRpcMessage(m: Meta)
      requires m.kind == Response
      modifies `sent
      ensures Did(Reply(m, Open()), old(sent), old(tree))
      ensures tree == old(tree) && old(sent) <= sent
      ensures Peek(m.callerIds) !in Open() ==> sent == old(sent)
      ensures Peek(m.callerIds) in Open() ==>
        && |sent| == |old(sent)| + 1 && sent[|old(sent)|].0 == Peek(m.callerIds)
        && IsPassedOn(m, sent[|old(sent)|].1) && sent[|old(sent)|].1.revIds == m.revIds
    {
      var top := Pop(m.callerIds);
      if HasConnection(top.id) {
        SendTo(top.id, m.(callerIds := top.rest));
      }
    }
  }
}
