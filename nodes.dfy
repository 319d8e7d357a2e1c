/**
 * The value state of a protocol node (protocol_api/protocol.py, class `Node`,
 * and the fields its subclasses in protocol_api/broadcast.py and
 * protocol_api/blockchain.py add), and the outcome of one protocol step.
 */
module Nodes {
  import opened Wrappers
  import opened Strings
  import opened Values
  import opened NetSpec

  /** Which broadcast class: `ByzantineBroadcast` or one of its two adversarial subclasses. */
  datatype Variant = Plain | Inconsistent | Invalid

  /** The class of a node; the subclass `protocol()` overrides are dispatched on this tag.
      `BroadcastChain(v)` is `ByzantineBroadcastBlockchain` with the broadcast class of
      variant `v` as `bbclass` (`InconsistentBroadcastBlockchain`, `InvalidBroadcastBlockchain`). */
  datatype Kind = Broadcast(variant: Variant) | NaiveChain | BroadcastChain(variant: Variant)

  /** Every field a node can have. `netId` and `netN` are the id and party count of
      the node's `NetworkClient`, which name the node on the network. A broadcast
      node has run round 0 exactly when `senderId` is set, to whatever its round-0
      input unpacked to (an int for a proposal); a naive chain node has
      run round 0 exactly when `started`; `bbbaseround` means something only while
      a chain node has a `child`. */
  datatype NodeState = NodeState(
    instance: string, id: int, n: int, netId: int, netN: int, kind: Kind,
    io: IOState, hasTerminated: bool,
    senderId: Option<Payload>, outval: Payload,
    inconsistentOutputs: Option<seq<Payload>>, invalidOutput: Option<Payload>,
    started: bool, pending: set<Payload>, outputs: set<Payload>,
    child: Option<NodeState>, bbbaseround: int)

  /** `a` and `b` are the same node: a step changes none of these. */
  predicate SameNode(a: NodeState, b: NodeState)
  {
    a.instance == b.instance && a.id == b.id && a.n == b.n && a.netId == b.netId && a.netN == b.netN && a.kind == b.kind
  }

  /** One step of `protocol(round)`: an exception, or the new node and network
      states and the step's return value. */
  datatype Outcome = Crash | Stepped(node: NodeState, net: NetState, done: bool)

  /** The fields right after construction: `Node.__init__`, plus the empty sets
      `ByzantineBroadcastBlockchain.__init__` adds. */
  function Fresh(instance: string, id: int, n: int, netId: int, netN: int, kind: Kind, io: IOState): (s: NodeState)
    ensures s.instance == instance && s.id == id && s.n == n && s.kind == kind && s.io == io
    ensures !s.hasTerminated && s.senderId.None? && s.child.None?
    ensures s.started <==> kind.BroadcastChain?
  {
    NodeState(instance, id, n, netId, netN, kind, io, false, None, Null, None, None,
              kind.BroadcastChain?, {}, {}, None, 0)
  }

  /** Constructing a node: its fields, and the registration of its instance with the network. */
  function Construct(net: NetState, instance: string, id: int, n: int, netId: int, netN: int, kind: Kind, io: IOState)
    : (r: (NodeState, NetState))
    ensures r.0 == Fresh(instance, id, n, netId, netN, kind, io) && !r.0.hasTerminated
    ensures r.1 == net.NewInstance(instance) && r.1.Base(instance) == net.Base(instance)
              + (if instance in net.baserounds then 0 else net.round - net.Base(instance))
  {
    (Fresh(instance, id, n, netId, netN, kind, io), net.NewInstance(instance))
  }

  /** `start_subprotocol`'s naming: the child instance hangs under the parent's. */
  function ChildName(parent: string, sub: string): (r: string)
    ensures |r| == |parent| + 1 + |sub|
    ensures r[..|parent|] == parent && r[|parent|] == '-' && r[|parent| + 1..] == sub
  {
    parent + "-" + sub
  }

  /** `start_subprotocol`: a node of the given class under the child name, with the
      parent's id, party count and network client, on the given IO tape. */
  function StartSubprotocol(parent: NodeState, net: NetState, kind: Kind, sub: string, subio: IOState)
    : (r: (NodeState, NetState))
    ensures r.0.instance == ChildName(parent.instance, sub)
    ensures r.0.id == parent.id && r.0.n == parent.n && r.0.netId == parent.netId && r.0.netN == parent.netN
    ensures r.0.io == subio && r.0.kind == kind && !r.0.hasTerminated
    ensures ChildName(parent.instance, sub) in r.1.baserounds
  {
    Construct(net, ChildName(parent.instance, sub), parent.id, parent.n, parent.netId, parent.netN, kind, subio)
  }

  /** Python's `a % b` (the sign follows the divisor); Dafny's `%` is Euclidean. */
  function PyMod(a: int, b: int): (r: int)
    requires b != 0
    ensures b > 0 ==> 0 <= r < b && r == a % b
    ensures b < 0 ==> b < r <= 0
    ensures b < 0 ==> r % -b == a % -b
  {
    if b > 0 then a % b
    else
      var e := a % -b;
      if e == 0 then 0 else e + b
  }
}
