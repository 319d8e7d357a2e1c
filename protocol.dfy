/**
 * The protocol objects of protocol_api/protocol.py, protocol_api/broadcast.py
 * and protocol_api/blockchain.py: one `Node` class whose `kind` stands for the
 * subclass, with the fields every subclass adds. Each `protocol(round)` method
 * is proved to move the node, its IO tapes and the shared network exactly as
 * the step functions of BroadcastSpec, ChainSpec and DriverSpec say.
 */
module Protocol {
  import opened Wrappers
  import opened Strings
  import opened Values
  import opened NetSpec
  import opened Net
  import opened Nodes
  import opened BroadcastSpec
  import opened ChainSpec
  import opened DriverSpec

  class Node {
    const instance: string
    const id: int
    const n: int
    const client: NetworkClient
    const io: IO
    const kind: Kind
    var hasTerminated: bool
    // ByzantineBroadcast and its variants
    var senderId: Option<Payload>
    var outval: Payload
    var inconsistentOutputs: Option<seq<Payload>>
    var invalidOutput: Option<Payload>
    // the blockchains
    var started: bool
    var pending: set<Payload>
    var outputs: set<Payload>
    var bbnode: Node?
    var bbio: IO?
    var bbbaseround: int

    /** A child exists only under the broadcast blockchain; it is a broadcast
        node of the blockchain's variant, on its own tape, with no child itself,
        and it shares only the network client. */
    ghost predicate Valid()
      reads this, bbnode
    {
      if bbnode == null then bbio == null
      else
        && kind.BroadcastChain? && bbnode.kind == Broadcast(kind.variant)
        && bbio == bbnode.io && io != bbio && this != bbnode && bbnode.client == client
        && bbnode.bbnode == null && bbnode.bbio == null
    }

    /** The node as a value. */
    function State(): (s: NodeState)
      requires Valid()
      reads this, io, bbnode, bbio
      decreases if bbnode == null then 0 else 1
      ensures WellFormed(s) && s.instance == instance && s.id == id && s.kind == kind
      ensures s.netId == client.id && s.netN == client.n && s.io == io.State()
    {
      NodeState(instance, id, n, client.id, client.n, kind, io.State(), hasTerminated, senderId, outval,
                inconsistentOutputs, invalidOutput, started, pending, outputs,
                if bbnode == null then None else Some(bbnode.State()), bbbaseround)
    }

    /** `Node(instance, id, sk, n, net, io)` of the node's class: the fields, and
        the registration of the instance with the network. */
    constructor (instance: string, id: int, n: int, client: NetworkClient, io: IO, kind: Kind)
      modifies client.net
      ensures old(client.net.Valid()) ==> client.net.Valid()
      ensures Valid() && this.client == client && this.io == io && bbnode == null && bbio == null
      ensures (State(), client.net.State()) ==
        Construct(old(client.net.State()), instance, id, n, client.id, client.n, kind, io.State())
      ensures io.State() == old(io.State())
    {
      this.instance := instance;
      this.id := id;
      this.n := n;
      this.client := client;
      this.io := io;
      this.kind := kind;
      hasTerminated := false;
      senderId := None;
      outval := Null;
      inconsistentOutputs := None;
      invalidOutput := None;
      started := kind.BroadcastChain?;
      pending := {};
      outputs := {};
      bbnode := null;
      bbio := null;
      bbbaseround := 0;
      new;
      client.NewInstance(instance);
    }

    /** `start_subprotocol(nodetype, subinstance, subio)`. */
    method StartSubprotocol(childKind: Kind, sub: string, subio: IO) returns (child: Node)
      requires Valid()
      modifies client.net
      ensures fresh(child) && child.Valid() && child.bbio == null
      ensures old(client.net.Valid()) ==> client.net.Valid()
      ensures child.client == client && child.io == subio && child.kind == childKind && child.bbnode == null
      ensures (child.State(), client.net.State()) ==
        Nodes.StartSubprotocol(State(), old(client.net.State()), childKind, sub, subio.State())
    {
      child := new Node(ChildName(instance, sub), id, n, client, subio, childKind);
    }

    /** `adversary_set_outputs(outputs)` of `InconsistentByzantineBroadcast`. */
    method AdversarySetOutputs(outs: seq<Payload>)
      requires Valid() && kind == Broadcast(Inconsistent)
      modifies this
      ensures Valid() && bbnode == old(bbnode) && bbio == old(bbio) && State() == SetOutputs(old(State()), outs)
    {
      inconsistentOutputs := Some(outs);
    }

    /** `adversary_set_output(output)` of `InvalidByzantineBroadcast`. */
    method AdversarySetOutput(v: Payload)
      requires Valid() && kind == Broadcast(Invalid)
      modifies this
      ensures Valid() && bbnode == old(bbnode) && bbio == old(bbio) && State() == SetOutput(old(State()), v)
    {
      invalidOutput := Some(v);
    }

    /** `ByzantineBroadcast.protocol(round)`. */
    method BaseProtocol(round: nat) returns (done: bool)
      requires Valid() && kind.Broadcast? && client.net.Valid()
      requires BaseStep(State(), client.net.State(), round).Stepped?
      modifies this, io, client.net
      ensures Valid() && bbnode == old(bbnode) && bbio == old(bbio) && client.net.Valid()
      ensures var o := BaseStep(old(State()), old(client.net.State()), round);
        State() == o.node && client.net.State() == o.net && done == o.done
    {
      if round == 0 {
        outval := Null;
        var (sender, v) := Unpack(io.State().GetInput(0)).value;
        senderId := Some(sender);
        if sender == Num(id) {
          client.Send(instance, All, v);
        }
        done := false;
      } else if round < MaxRounds - 1 {
        var received := ReadSender(round - 1);
        // the first message received is the output
        if |received| > 0 && outval == Null {
          outval := received[0];
        }
        done := false;
      } else {
        if outval != Null {
          io.Output(outval);
        } else {
          io.Output(Num(0));
        }
        done := true;
      }
    }

    /** `get_messages(r, self.sender_id)`: only an int sender id names a source. */
    method ReadSender(r: nat) returns (received: seq<Payload>)
      requires Valid() && client.net.Valid() && senderId.Some?
      requires r + client.net.State().Base(instance) < |client.net.State().msgs|
      ensures received == FromSender(State(), client.net.State(), r, senderId.value)
    {
      match senderId.value
      case Num(src) =>
        received := client.GetMessages(instance, r, src).value;
      case _ =>
        received := [];
    }

    /** `InconsistentByzantineBroadcast.protocol(round)`. */
    method InconsistentProtocol(round: nat) returns (done: bool)
      requires Valid() && kind == Broadcast(Inconsistent) && client.net.Valid()
      requires InconsistentStep(State(), client.net.State(), round).Stepped?
      modifies this, io, client.net
      ensures Valid() && bbnode == old(bbnode) && bbio == old(bbio) && client.net.Valid()
      ensures var o := InconsistentStep(old(State()), old(client.net.State()), round);
        State() == o.node && client.net.State() == o.net && done == o.done
    {
      done := BaseProtocol(round);
      done := InconsistentOverride(round, done);
    }

    /** The part of `InconsistentByzantineBroadcast.protocol` after `super().protocol(round)`. */
    method InconsistentOverride(round: nat, baseDone: bool) returns (done: bool)
      requires Valid() && kind == Broadcast(Inconsistent) && client.net.Valid()
      requires InconsistentExtra(State(), client.net.State(), round, baseDone).Stepped?
      modifies this, client.net
      ensures Valid() && bbnode == old(bbnode) && bbio == old(bbio) && client.net.Valid()
      ensures var o := InconsistentExtra(old(State()), old(client.net.State()), round, baseDone);
        State() == o.node && client.net.State() == o.net && done == o.done
    {
      done := baseDone;
      if round == 1 && senderId == Some(Num(id)) {
        // the hook: unicast outs[i] to party i
        if inconsistentOutputs.Some? {
          SendEachParty(inconsistentOutputs.value);
        }
      } else if round == 2 {
        // an override message from the sender in round 1 wins
        var received := ReadSender(1);
        if |received| > 0 {
          outval := received[0];
        }
      }
    }

    /** The sender's hook loop: `outs[i]` goes to party `i` alone. */
    method SendEachParty(outs: seq<Payload>)
      requires client.net.Valid()
      modifies client.net
      ensures client.net.Valid() && client.net.State() == SendEach(old(client.net.State()), instance, client.id, outs)
    {
      ghost var net0 := client.net.State();
      var i := 0;
      while i < |outs|
        invariant 0 <= i <= |outs|
        invariant client.net.Valid() && client.net.State() == SendEach(net0, instance, client.id, outs[..i])
      {
        assert outs[..i + 1][..i] == outs[..i];
        client.Send(instance, To(i), outs[i]);
        i := i + 1;
      }
      assert outs[..|outs|] == outs;
    }

    /** `InvalidByzantineBroadcast.protocol(round)`. */
    method InvalidProtocol(round: nat) returns (done: bool)
      requires Valid() && kind == Broadcast(Invalid) && client.net.Valid()
      requires InvalidStep(State(), client.net.State(), round).Stepped?
      modifies this, io, client.net
      ensures Valid() && bbnode == old(bbnode) && bbio == old(bbio) && client.net.Valid()
      ensures var o := InvalidStep(old(State()), old(client.net.State()), round);
        State() == o.node && client.net.State() == o.net && done == o.done
    {
      done := BaseProtocol(round);
      done := InvalidOverride(round, done);
    }

    /** The part of `InvalidByzantineBroadcast.protocol` after `super().protocol(round)`. */
    method InvalidOverride(round: nat, baseDone: bool) returns (done: bool)
      requires Valid() && kind == Broadcast(Invalid) && client.net.Valid()
      requires InvalidExtra(State(), client.net.State(), round, baseDone).Stepped?
      modifies this, client.net
      ensures Valid() && bbnode == old(bbnode) && bbio == old(bbio) && client.net.Valid()
      ensures var o := InvalidExtra(old(State()), old(client.net.State()), round, baseDone);
        State() == o.node && client.net.State() == o.net && done == o.done
    {
      if round == 1 {
        done := InvalidSendHook(baseDone);
      } else if round == 2 {
        done := InvalidAdopt(baseDone);
      } else {
        done := baseDone;
      }
    }

    /** Round 1 of the override: a party with its hook set sends that value to all. */
    method InvalidSendHook(baseDone: bool) returns (done: bool)
      requires Valid() && kind == Broadcast(Invalid) && client.net.Valid()
      modifies this, client.net
      ensures Valid() && bbnode == old(bbnode) && bbio == old(bbio) && client.net.Valid()
      ensures var o := InvalidExtra(old(State()), old(client.net.State()), 1, baseDone);
        o.Stepped? && State() == o.node && client.net.State() == o.net && done == o.done
    {
      done := baseDone;
      if invalidOutput.Some? {
        client.Send(instance, All, invalidOutput.value);
      }
    }

    /** Round 2 of the override: a single distinct value received in round 1 wins. */
    method InvalidAdopt(baseDone: bool) returns (done: bool)
      requires Valid() && kind == Broadcast(Invalid) && client.net.Valid()
      requires InvalidExtra(State(), client.net.State(), 2, baseDone).Stepped?
      modifies this
      ensures Valid() && bbnode == old(bbnode) && bbio == old(bbio) && unchanged(client.net)
      ensures var o := InvalidExtra(old(State()), old(client.net.State()), 2, baseDone);
        State() == o.node && client.net.State() == o.net && done == o.done
    {
      done := baseDone;
      var received := client.AllMessagesContents(instance, 1);
      if |received.value| == 1 {
        outval := Only(received.value);
      }
    }

    /** `protocol(round)` of the node's broadcast class. */
    method BroadcastProtocol(round: nat) returns (done: bool)
      requires Valid() && kind.Broadcast? && client.net.Valid()
      requires BroadcastStep(State(), client.net.State(), round).Stepped?
      modifies this, io, client.net
      ensures Valid() && bbnode == old(bbnode) && bbio == old(bbio) && client.net.Valid()
      ensures var o := BroadcastStep(old(State()), old(client.net.State()), round);
        State() == o.node && client.net.State() == o.net && done == o.done
    {
      match kind.variant
      case Plain => done := BaseProtocol(round);
      case Inconsistent => done := InconsistentProtocol(round);
      case Invalid => done := InvalidProtocol(round);
    }

    /** `node.protocol(round)`, dispatched on the node's class. Only the
        broadcast blockchain replaces its child, with a fresh one. */
    method Protocol(round: nat) returns (done: bool)
      requires Valid() && client.net.Valid()
      requires StepNode(State(), client.net.State(), round).Stepped?
      modifies this, io, bbnode, bbio, client.net
      ensures Valid() && client.net.Valid()
      ensures (bbnode == old(bbnode) && bbio == old(bbio)) || (bbnode != null && fresh(bbnode) && fresh(bbio))
      ensures var o := StepNode(old(State()), old(client.net.State()), round);
        State() == o.node && client.net.State() == o.net && done == o.done
    {
      match kind
      case Broadcast(_) => done := BroadcastProtocol(round);
      case NaiveChain => done := NaiveProtocol(round);
      case BroadcastChain(_) => done := ChainProtocol(round);
    }

    /** `node.io.set_input(r, inp)`. */
    method SetInput(r: nat, inp: Input)
      requires Valid()
      modifies io
      ensures Valid() && State() == old(State()).(io := old(io.State()).(inp := old(io.inp)[r := inp]))
    {
      io.SetInput(r, inp);
    }

    /** The body of `simulate_protocol`'s inner loop for a node that has not
        terminated: `io.set_input(r, inp)`, `protocol(r)` and, when that returns
        true, `has_terminated = True`. */
    method Visit(r: nat, inp: Input) returns (done: bool)
      requires Valid() && client.net.Valid()
      requires StepNode(State().(io := io.State().(inp := io.inp[r := inp])), client.net.State(), r).Stepped?
      modifies this, io, bbnode, bbio, client.net
      ensures Valid() && client.net.Valid()
      ensures var o := StepNode(old(State()).(io := old(io.State()).(inp := old(io.inp)[r := inp])), old(client.net.State()), r);
        && State() == (if o.done then o.node.(hasTerminated := true) else o.node)
        && client.net.State() == o.net && done == o.done
    {
      SetInput(r, inp);
      done := Protocol(r);
      if done {
        hasTerminated := true;
      }
    }

    /** `TotallyNaiveBlockchain.protocol(round)`. */
    method NaiveProtocol(round: nat) returns (done: bool)
      requires Valid() && kind.NaiveChain? && client.net.Valid()
      requires NaiveStep(State(), client.net.State(), round).Stepped?
      modifies this, io, client.net
      ensures Valid() && bbnode == old(bbnode) && bbio == old(bbio) && client.net.Valid()
      ensures var o := NaiveStep(old(State()), old(client.net.State()), round);
        State() == o.node && client.net.State() == o.net && done == o.done
    {
      NaiveReceive(round);
      var inputs := Items(io.State().GetInput(round));
      NaiveRelayInputs(round, inputs);
      done := false;
    }

    /** The first half of the naive round: initialise in round 0, otherwise
        output and record the previous sender's messages. */
    method NaiveReceive(round: nat)
      requires Valid() && kind.NaiveChain? && client.net.Valid() && n != 0
      requires NaiveRead(State(), client.net.State(), round).Some?
      modifies this, io
      ensures Valid() && bbnode == old(bbnode) && bbio == old(bbio)
      ensures State() == NaiveRead(old(State()), client.net.State(), round).value
    {
      if round == 0 {
        started := true;
        pending := {};
        outputs := {};
      } else {
        NaiveTake(round);
      }
    }

    /** A later naive round's reading: output every message the previous
        round's sender sent, count them as output and drop them from pending. */
    method NaiveTake(round: nat)
      requires Valid() && kind.NaiveChain? && client.net.Valid() && n != 0 && round > 0
      requires NaiveRead(State(), client.net.State(), round).Some?
      modifies this, io
      ensures Valid() && bbnode == old(bbnode) && bbio == old(bbio)
      ensures State() == NaiveRead(old(State()), client.net.State(), round).value
    {
      ghost var s0 := State();
      var received := client.GetMessages(instance, round - 1, PyMod(round - 1, n)).value;
      assert received == Received(s0, client.net.State(), round - 1, PyMod(round - 1, n));
      io.OutputAll(received);
      outputs := outputs + Elems(received);
      pending := pending - Elems(received);
      assert State() == s0.(io := s0.io.(out := s0.io.out + received), outputs := s0.outputs + Elems(received),
                            pending := s0.pending - Elems(received));
    }

    /** The second half of the naive round: queue the inputs not output yet, and
        send every pending input to all in this node's turn. */
    method NaiveRelayInputs(round: nat, inputs: set<Payload>)
      requires Valid() && kind.NaiveChain? && client.net.Valid() && n != 0
      modifies this, client.net
      ensures Valid() && bbnode == old(bbnode) && bbio == old(bbio) && client.net.Valid()
      ensures var o := NaiveFinish(old(State()), old(client.net.State()), round, inputs);
        State() == o.node && client.net.State() == o.net
    {
      pending := pending + (inputs - outputs);
      if PyMod(round, n) == id {
        SendAll(Enumerate(pending));
      }
    }

    /** `send(ALL, item)` for each item in turn. */
    method SendAll(items: seq<Payload>)
      requires client.net.Valid()
      modifies client.net
      ensures client.net.Valid()
      ensures client.net.State() == Multicast(old(client.net.State()), instance, client.id, Resolve(All, client.n), items)
    {
      ghost var net0 := client.net.State();
      var i := 0;
      while i < |items|
        invariant 0 <= i <= |items|
        invariant client.net.Valid()
        invariant client.net.State() == Multicast(net0, instance, client.id, Resolve(All, client.n), items[..i])
      {
        assert items[..i + 1][..i] == items[..i];
        client.Send(instance, All, items[i]);
        i := i + 1;
      }
      assert items[..|items|] == items;
    }

    /** `ByzantineBroadcastBlockchain.protocol(round)`. */
    method ChainProtocol(round: nat) returns (done: bool)
      requires Valid() && kind.BroadcastChain? && client.net.Valid()
      requires ChainStep(State(), client.net.State(), round).Stepped?
      modifies this, io, bbnode, bbio, client.net
      ensures Valid() && client.net.Valid() && bbnode != null
      ensures round % R == 0 ==> fresh(bbnode) && fresh(bbio)
      ensures round % R != 0 ==> bbnode == old(bbnode) && bbio == old(bbio)
      ensures var o := ChainStep(old(State()), old(client.net.State()), round);
        State() == o.node && client.net.State() == o.net && done == o.done
    {
      ChainStepParts(State(), client.net.State(), round);
      if round % R == 0 {
        EpochRound(round);
      } else {
        MidEpochRound(round);
      }
      done := false;
    }

    /** A chain round that starts an epoch: queue the inputs, start the child, step it. */
    method EpochRound(round: nat)
      requires Valid() && kind.BroadcastChain? && client.net.Valid() && round % R == 0
      requires var s1 := AddInputs(State(), Items(State().io.GetInput(round)));
        && StartEpoch(s1, client.net.State(), round).Some?
        && Continue(StartEpoch(s1, client.net.State(), round).value.0, StartEpoch(s1, client.net.State(), round).value.1, round).Stepped?
      modifies this, io, client.net
      ensures Valid() && client.net.Valid() && bbnode != null && fresh(bbnode) && fresh(bbio)
      ensures var s1 := AddInputs(old(State()), Items(old(State()).io.GetInput(round)));
        var o := Continue(StartEpoch(s1, old(client.net.State()), round).value.0, StartEpoch(s1, old(client.net.State()), round).value.1, round);
        State() == o.node && client.net.State() == o.net
    {
      QueueInputs(round);
      StartAndStep(round);
    }

    /** Start the epoch's child and run its first round. */
    method StartAndStep(round: nat)
      requires Valid() && kind.BroadcastChain? && client.net.Valid()
      requires StartEpoch(State(), client.net.State(), round).Some?
      requires Continue(StartEpoch(State(), client.net.State(), round).value.0,
                        StartEpoch(State(), client.net.State(), round).value.1, round).Stepped?
      modifies this, io, client.net
      ensures Valid() && client.net.Valid() && bbnode != null && fresh(bbnode) && fresh(bbio)
      ensures var e := StartEpoch(old(State()), old(client.net.State()), round).value;
        var o := Continue(e.0, e.1, round);
        State() == o.node && client.net.State() == o.net
    {
      ChainStartEpoch(round);
      ChainContinue(round);
    }

    /** A chain round inside an epoch: queue the inputs, step the current child. */
    method MidEpochRound(round: nat)
      requires Valid() && kind.BroadcastChain? && client.net.Valid()
      requires Continue(AddInputs(State(), Items(State().io.GetInput(round))), client.net.State(), round).Stepped?
      modifies this, io, bbnode, bbio, client.net
      ensures Valid() && client.net.Valid() && bbnode == old(bbnode) && bbio == old(bbio)
      ensures var o := Continue(AddInputs(old(State()), Items(old(State()).io.GetInput(round))), old(client.net.State()), round);
        State() == o.node && client.net.State() == o.net
    {
      QueueInputs(round);
      ChainContinue(round);
    }

    /** Queue this round's inputs that were not output yet. */
    method QueueInputs(round: nat)
      requires Valid()
      modifies this
      ensures Valid() && bbnode == old(bbnode) && bbio == old(bbio)
      ensures State() == AddInputs(old(State()), Items(old(State()).io.GetInput(round)))
    {
      var inputs := Items(io.State().GetInput(round));
      pending := pending + (inputs - outputs);
    }

    /** The start of an epoch: the child broadcast node of epoch `round / R`, on a
        fresh single-input tape, with `bbbaseround = round`. */
    method ChainStartEpoch(round: nat)
      requires Valid() && kind.BroadcastChain? && client.net.Valid()
      requires StartEpoch(State(), client.net.State(), round).Some?
      modifies this, client.net
      ensures Valid() && client.net.Valid() && bbnode != null && fresh(bbnode) && fresh(bbio)
      ensures (State(), client.net.State()) == StartEpoch(old(State()), old(client.net.State()), round).value
    {
      ghost var s0 := State();
      ghost var net0 := client.net.State();
      var child, inp := EpochChild(round);
      StartEpochWith(s0, net0, round, inp);
      Adopt(child, round);
    }

    /** The child broadcast node of epoch `round / R` on a fresh `SingleInputIO`
        holding its input, registered with the network. */
    method EpochChild(round: nat) returns (child: Node, ghost inp: Input)
      requires Valid() && kind.BroadcastChain? && client.net.Valid() && n != 0
      requires ChildInput(State(), round).Some?
      modifies client.net
      ensures Some(inp) == ChildInput(old(State()), round)
      ensures fresh(child) && fresh(child.io) && child.Valid() && child.bbio == null
      ensures child.client == client && child.kind == Broadcast(kind.variant) && child.bbnode == null
      ensures client.net.Valid()
      ensures (child.State(), client.net.State()) ==
        Nodes.StartSubprotocol(old(State()), old(client.net.State()), Broadcast(kind.variant), EpochName(round / R), SingleInput(inp))
    {
      var input := EpochInput(round);
      inp := input;
      var subio := new IO.Single(input);
      child := StartSubprotocol(Broadcast(kind.variant), EpochName(round / R), subio);
    }

    /** Make `child` the current broadcast child, started at `round`. */
    method Adopt(child: Node, round: nat)
      requires Valid() && kind.BroadcastChain? && child.Valid() && child.bbnode == null
      requires child.kind == Broadcast(kind.variant) && child.client == client
      requires child != this && child.io != io
      modifies this
      ensures Valid() && bbnode == child && bbio == child.io
      ensures State() == old(State()).(child := Some(child.State()), bbbaseround := round)
    {
      bbnode := child;
      bbio := child.io;
      bbbaseround := round;
    }

    /** The input of the epoch's child: `(sender, "|".join(pending_inputs))` for
        the epoch's sender `k mod n`, `(sender, None)` for everyone else. */
    method EpochInput(round: nat) returns (inp: Input)
      requires Valid() && kind.BroadcastChain? && n != 0 && ChildInput(State(), round).Some?
      ensures ChildInput(State(), round) == Some(inp)
    {
      var k := round / R;
      var sender := PyMod(k, n);
      if sender == id {
        // the sender serialises its pending inputs into one string
        inp := Proposal(sender, Str(Batch(pending).value));
      } else {
        inp := Proposal(sender, Null);
      }
    }

    /** Step the current child at `round - bbbaseround`, then read and decode its outputs. */
    method ChainContinue(round: nat)
      requires Valid() && kind.BroadcastChain? && client.net.Valid()
      requires Continue(State(), client.net.State(), round).Stepped?
      modifies this, io, bbnode, bbio, client.net
      ensures Valid() && bbnode == old(bbnode) && bbio == old(bbio) && client.net.Valid()
      ensures var o := Continue(old(State()), old(client.net.State()), round);
        State() == o.node && client.net.State() == o.net
    {
      var _ := bbnode.BroadcastProtocol(round - bbbaseround);
      var outs := bbio.ReadOutputs();
      DrainBatches(outs);
    }

    /** Decode every broadcast output: emit each `"|"`-separated piece, drop
        the pieces from the pending inputs and add them to the outputs. */
    method DrainBatches(outs: seq<Payload>)
      requires Valid()
      modifies this, io
      ensures Valid() && bbnode == old(bbnode) && bbio == old(bbio)
      ensures State() == Drain(old(State()), outs)
    {
      ghost var s0 := State();
      pending, outputs := DecodeOutputs(io, outs, s0, pending, outputs);
      DrainFrame(s0, outs);
    }
  }

  /** The decoding loop of `ByzantineBroadcastBlockchain.protocol` on the tape
      and the two sets, started from the node state `s0` they belong to: the
      tape and the sets end as `Drain` says. */
  method DecodeOutputs(io: IO, outs: seq<Payload>, ghost s0: NodeState, pending0: set<Payload>, outputs0: set<Payload>)
    returns (pending: set<Payload>, outputs: set<Payload>)
    requires s0.io == io.State() && s0.pending == pending0 && s0.outputs == outputs0
    modifies io
    ensures var d := Drain(s0, outs); io.State() == d.io && pending == d.pending && outputs == d.outputs
  {
    pending, outputs := pending0, outputs0;
    var i := 0;
    while i < |outs|
      invariant 0 <= i <= |outs|
      invariant var d := Drain(s0, outs[..i]); io.State() == d.io && pending == d.pending && outputs == d.outputs
    {
      assert outs[..i + 1][..i] == outs[..i];
      var pieces := Strs(Split(Show(outs[i])));
      io.OutputAll(pieces);
      pending := pending - Elems(pieces);
      outputs := outputs + Elems(pieces);
      i := i + 1;
    }
    assert outs[..|outs|] == outs;
  }
}
