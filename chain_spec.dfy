/**
 * The two blockchains of protocol_api/blockchain.py as functions on the node
 * and network value states: the round-robin relay `TotallyNaiveBlockchain`
 * and `ByzantineBroadcastBlockchain`, which runs one broadcast instance per
 * epoch of `MaxRounds` rounds and decodes its output as a `"|"`-joined batch.
 */
module ChainSpec {
  import opened Wrappers
  import opened Strings
  import opened Values
  import opened NetSpec
  import opened Nodes
  import opened BroadcastSpec

  /** The epoch length `R`: the broadcast class's `get_maxrounds()`. */
  const R: nat := MaxRounds

  /** The network after `send(ALL, item)` for every item, in order. */
  function Multicast(net: NetState, inst: string, src: int, targets: seq<int>, items: seq<Payload>): (r: NetState)
    requires net.Valid()
    ensures r.Valid() && r.round == net.round && r.baserounds == net.baserounds
    ensures r.timing == net.timing && |r.msgs| == |net.msgs|
    decreases |items|
  {
    if |items| == 0 then net
    else Multicast(net, inst, src, targets, items[..|items| - 1]).Send(inst, src, targets, items[|items| - 1])
  }

  /** A blockchain node's state makes sense: a child exists only under the
      broadcast blockchain, is a broadcast node of its variant, and has no child itself. */
  predicate WellFormed(s: NodeState)
  {
    s.child.Some? ==> s.kind.BroadcastChain? && s.child.value.kind == Broadcast(s.kind.variant) && s.child.value.child.None?
  }

  /** The first half of a naive chain round: round 0 starts from fresh, empty
      sets; a later round outputs every message received from the previous
      round's sender, counts it as output and drops it from the pending inputs.
      `None` when that raises. */
  function NaiveRead(s: NodeState, net: NetState, round: nat): (r: Option<NodeState>)
    requires net.Valid() && s.n != 0
    ensures r.None? <==> round > 0 && (!s.started || round - 1 + net.Base(s.instance) >= |net.msgs|)
    ensures r.Some? ==> r.value.started && SameNode(r.value, s) && r.value.child == s.child
    ensures r.Some? ==> r.value.io.inp == s.io.inp && r.value.hasTerminated == s.hasTerminated
  {
    if round == 0 then Some(s.(started := true, pending := {}, outputs := {}))
    else if !s.started || round - 1 + net.Base(s.instance) >= |net.msgs| then None
    else
      // `get_messages(round - 1, (round - 1) % n)`, which does not raise here
      var received := Received(s, net, round - 1, PyMod(round - 1, s.n));
      Some(s.(io := s.io.(out := s.io.out + received), outputs := s.outputs + Elems(received),
              pending := s.pending - Elems(received)))
  }

  /** The second half of every naive chain round: queue the new inputs not
      output yet, and multicast every pending input when it is this node's turn. */
  function NaiveFinish(s: NodeState, net: NetState, round: nat, inputs: set<Payload>): (o: Outcome)
    requires net.Valid() && s.n != 0
    ensures o.Stepped? && !o.done && o.node == s.(pending := o.node.pending)
    ensures o.net.Valid() && o.net.round == net.round && o.net.baserounds == net.baserounds
    ensures o.net.timing == net.timing && |o.net.msgs| == |net.msgs|
  {
    var s2 := s.(pending := s.pending + (inputs - s.outputs));
    if PyMod(round, s.n) == s.id then
      Stepped(s2, Multicast(net, s.instance, s.netId, Resolve(All, s.netN), Enumerate(s2.pending)), false)
    else Stepped(s2, net, false)
  }

  /** `TotallyNaiveBlockchain.protocol(round)`: it raises only when `n` is 0, or
      after round 0 when round 0 never ran or the previous round is not readable;
      it never terminates. */
  function NaiveStep(s: NodeState, net: NetState, round: nat): (o: Outcome)
    requires net.Valid() && s.kind.NaiveChain?
    ensures o.Crash? <==> s.n == 0 || (round > 0 && (!s.started || round - 1 + net.Base(s.instance) >= |net.msgs|))
    ensures o.Stepped? ==> !o.done && o.node.started && SameNode(o.node, s) && o.node.child == s.child
    ensures o.Stepped? ==> o.net.Valid() && o.net.round == net.round && o.net.baserounds == net.baserounds
    ensures o.Stepped? ==> o.net.timing == net.timing && |o.net.msgs| == |net.msgs|
    ensures o.Stepped? ==> o.node.io.inp == s.io.inp && o.node.hasTerminated == s.hasTerminated
  {
    if s.n == 0 then Crash
    else match NaiveRead(s, net, round)
      case None => Crash
      case Some(s1) => NaiveFinish(s1, net, round, Items(s.io.GetInput(round)))
  }

  /** Round 0 starts from empty sets: the pending inputs are the round's inputs,
      nothing is output. */
  lemma NaiveRoundZero(s: NodeState, net: NetState)
    requires net.Valid() && s.kind.NaiveChain? && NaiveStep(s, net, 0).Stepped?
    ensures var o := NaiveStep(s, net, 0);
      o.node.io == s.io && o.node.outputs == {} && o.node.pending == Items(s.io.GetInput(0))
  {
  }

  /** A later round outputs, in order, every message received from node
      `(round - 1) mod n` in the previous round, moves them from pending to
      output, and then queues the new inputs that were not output yet. */
  lemma NaiveRelay(s: NodeState, net: NetState, round: nat)
    requires net.Valid() && s.kind.NaiveChain? && round > 0 && NaiveStep(s, net, round).Stepped?
    ensures var o := NaiveStep(s, net, round);
      var received := Received(s, net, round - 1, PyMod(round - 1, s.n));
      && o.node.io == s.io.(out := s.io.out + received)
      && o.node.outputs == s.outputs + Elems(received)
      && o.node.pending == (s.pending - Elems(received)) + (Items(s.io.GetInput(round)) - o.node.outputs)
  {
  }

  /** The node multicasts its pending inputs exactly in its own turn, `round mod n == id`. */
  lemma NaiveTurn(s: NodeState, net: NetState, round: nat)
    requires net.Valid() && s.kind.NaiveChain? && NaiveStep(s, net, round).Stepped?
    ensures var o := NaiveStep(s, net, round);
      o.net == if PyMod(round, s.n) == s.id
               then Multicast(net, s.instance, s.netId, Resolve(All, s.netN), Enumerate(o.node.pending))
               else net
  {
  }

  /** Pending inputs and outputs stay disjoint. */
  lemma NaiveDisjoint(s: NodeState, net: NetState, round: nat)
    requires net.Valid() && s.kind.NaiveChain? && NaiveStep(s, net, round).Stepped?
    requires round == 0 || s.pending * s.outputs == {}
    ensures var o := NaiveStep(s, net, round); o.node.pending * o.node.outputs == {}
  {
    if round > 0 {
      NaiveRelay(s, net, round);
    }
  }

  /** The pieces one drained broadcast output decodes to: `str(out).split("|")`. */
  function Decode(x: Payload): (r: seq<Payload>)
    ensures |r| >= 1 && forall i :: 0 <= i < |r| ==> r[i].Str? && Sep !in r[i].s
  {
    Strs(Split(Show(x)))
  }

  /** The pieces every drained broadcast output decodes to, in order. */
  function Pieces(outs: seq<Payload>): (r: seq<Payload>)
    ensures forall i :: 0 <= i < |r| ==> r[i].Str? && Sep !in r[i].s
    ensures |r| >= |outs|
    decreases |outs|
  {
    if |outs| == 0 then []
    else Pieces(outs[..|outs| - 1]) + Decode(outs[|outs| - 1])
  }

  /** One more output adds its own pieces after the earlier ones. */
  lemma PiecesStep(outs: seq<Payload>, i: nat)
    requires i < |outs|
    ensures Pieces(outs[..i + 1]) == Pieces(outs[..i]) + Decode(outs[i])
    ensures Elems(Pieces(outs[..i + 1])) == Elems(Pieces(outs[..i])) + Elems(Decode(outs[i]))
  {
    assert outs[..i + 1][..i] == outs[..i];
  }

  /** The loop over drained outputs: emit every piece, drop it from the pending
      inputs and add it to the outputs. */
  function Drain(s: NodeState, outs: seq<Payload>): (r: NodeState)
    ensures SameNode(r, s) && r.child == s.child && r.bbbaseround == s.bbbaseround
    ensures r.io.inp == s.io.inp && r.hasTerminated == s.hasTerminated
    decreases |outs|
  {
    if |outs| == 0 then s
    else
      var t := Drain(s, outs[..|outs| - 1]);
      var pieces := Decode(outs[|outs| - 1]);
      t.(io := t.io.(out := t.io.out + pieces), pending := t.pending - Elems(pieces), outputs := t.outputs + Elems(pieces))
  }

  /** Draining emits every piece in order, moves the pieces from pending to output, and nothing else. */
  lemma DrainEffect(s: NodeState, outs: seq<Payload>)
    ensures Drain(s, outs) == s.(io := s.io.(out := s.io.out + Pieces(outs)),
                                 outputs := s.outputs + Elems(Pieces(outs)),
                                 pending := s.pending - Elems(Pieces(outs)))
  {
    DrainOut(s, outs);
    DrainOutputs(s, outs);
    DrainPending(s, outs);
    DrainFrame(s, outs);
  }

  lemma {:induction false} DrainFrame(s: NodeState, outs: seq<Payload>)
    ensures var r := Drain(s, outs); r == s.(io := r.io, outputs := r.outputs, pending := r.pending)
    decreases |outs|
  {
    if |outs| > 0 {
      DrainFrame(s, outs[..|outs| - 1]);
    }
  }

  lemma {:induction false} DrainOut(s: NodeState, outs: seq<Payload>)
    ensures Drain(s, outs).io.out == s.io.out + Pieces(outs)
    decreases |outs|
  {
    if |outs| > 0 {
      var init := outs[..|outs| - 1];
      var pieces := Decode(outs[|outs| - 1]);
      DrainOut(s, init);
      assert Drain(s, outs).io.out == Drain(s, init).io.out + pieces;
      assert Pieces(outs) == Pieces(init) + pieces;
      assert (s.io.out + Pieces(init)) + pieces == s.io.out + (Pieces(init) + pieces);
    }
  }

  lemma {:induction false} DrainOutputs(s: NodeState, outs: seq<Payload>)
    ensures Drain(s, outs).outputs == s.outputs + Elems(Pieces(outs))
    decreases |outs|
  {
    if |outs| > 0 {
      var init := outs[..|outs| - 1];
      var pieces := Decode(outs[|outs| - 1]);
      DrainOutputs(s, init);
      assert Pieces(outs) == Pieces(init) + pieces;
      assert Elems(Pieces(outs)) == Elems(Pieces(init)) + Elems(pieces);
    }
  }

  lemma {:induction false} DrainPending(s: NodeState, outs: seq<Payload>)
    ensures Drain(s, outs).pending == s.pending - Elems(Pieces(outs))
    decreases |outs|
  {
    if |outs| > 0 {
      var init := outs[..|outs| - 1];
      var pieces := Decode(outs[|outs| - 1]);
      DrainPending(s, init);
      assert Pieces(outs) == Pieces(init) + pieces;
      assert Elems(Pieces(outs)) == Elems(Pieces(init)) + Elems(pieces);
    }
  }

  /** `"|".join(pending_inputs)`: defined only when every pending input is a string
      (otherwise `join` raises). */
  function Batch(pending: set<Payload>): (r: Option<string>)
    ensures r.Some? <==> forall p :: p in pending ==> p.Str?
  {
    var xs := Enumerate(pending);
    if forall i :: 0 <= i < |xs| ==> xs[i].Str? then Some(Join(TextsOf(xs))) else None
  }

  /** The sub-instance name of epoch `k`. */
  function EpochName(k: int): string
  {
    "BB" + IntToString(k)
  }

  /** The round-`round` input of the child started by a node with this id: the
      sender of the epoch gets the joined batch, everyone else `None`. */
  function ChildInput(s: NodeState, round: nat): Option<Input>
    requires s.n != 0
  {
    var sender := PyMod(round / R, s.n);
    if sender != s.id then Some(Proposal(sender, Null))
    else match Batch(s.pending)
      case None => None
      case Some(b) => Some(Proposal(sender, Str(b)))
  }

  /** Step the current child at `round - bbbaseround`, then drain and decode its outputs. */
  function Continue(s: NodeState, net: NetState, round: nat): (o: Outcome)
    requires net.Valid() && WellFormed(s)
    ensures o.Crash? <==> s.child.None? || round < s.bbbaseround
                          || BroadcastStep(s.child.value, net, round - s.bbbaseround).Crash?
    ensures o.Stepped? ==>
      var c := BroadcastStep(s.child.value, net, round - s.bbbaseround);
      && o.net == c.net && !o.done
      && o.node == Drain(s.(child := Some(c.node.(io := c.node.io.(out := [])))), c.node.io.out)
    ensures o.Stepped? ==> SameNode(o.node, s) && o.node.bbbaseround == s.bbbaseround && WellFormed(o.node)
    ensures o.Stepped? ==> o.node.child.Some? && o.node.child.value.io.out == []
    ensures o.Stepped? ==> o.node.child.value.instance == s.child.value.instance
    ensures o.Stepped? ==> o.node.child.value.io.inp == s.child.value.io.inp
    ensures o.Stepped? ==> o.node.io.inp == s.io.inp && o.node.hasTerminated == s.hasTerminated
    ensures o.Stepped? ==> o.net.Valid() && o.net.round == net.round && o.net.baserounds == net.baserounds
    ensures o.Stepped? ==> o.net.timing == net.timing && |o.net.msgs| == |net.msgs|
  {
    if s.child.None? || round < s.bbbaseround then Crash
    else
      match BroadcastStep(s.child.value, net, round - s.bbbaseround)
      case Crash => Crash
      case Stepped(c, net2, _) =>
        Stepped(Drain(s.(child := Some(c.(io := c.io.(out := [])))), c.io.out), net2, false)
  }

  /** The start of an epoch (`round mod R == 0`): the child for epoch `k = round div R`
      with sender `k mod n`, registered with the network, and `bbbaseround = round`.
      `None` when that raises. */
  function StartEpoch(s: NodeState, net: NetState, round: nat): (r: Option<(NodeState, NetState)>)
    requires net.Valid() && s.kind.BroadcastChain?
    ensures r.Some? <==> s.n != 0 && ChildInput(s, round).Some?
    ensures r.Some? ==> var (s2, net2) := r.value;
      && SameNode(s2, s) && s2.io == s.io && s2.pending == s.pending && s2.outputs == s.outputs
      && s2.hasTerminated == s.hasTerminated
      && WellFormed(s2) && s2.child.Some? && s2.bbbaseround == round
      && s2.child.value.instance == ChildName(s.instance, EpochName(round / R))
      && s2.child.value.io == SingleInput(ChildInput(s, round).value)
      && s2.child.value.senderId.None? && !s2.child.value.hasTerminated
      && net2 == net.NewInstance(ChildName(s.instance, EpochName(round / R)))
  {
    if s.n == 0 then None
    else match ChildInput(s, round)
      case None => None
      case Some(inp) =>
        var (child, net1) := StartSubprotocol(s, net, Broadcast(s.kind.variant), EpochName(round / R), SingleInput(inp));
        Some((s.(child := Some(child), bbbaseround := round), net1))
  }

  /** The start of an epoch once the child's input is known. */
  lemma StartEpochWith(s: NodeState, net: NetState, round: nat, inp: Input)
    requires net.Valid() && s.kind.BroadcastChain? && s.n != 0 && ChildInput(s, round) == Some(inp)
    ensures var (c, net1) := StartSubprotocol(s, net, Broadcast(s.kind.variant), EpochName(round / R), SingleInput(inp));
      StartEpoch(s, net, round) == Some((s.(child := Some(c), bbbaseround := round), net1))
  {
  }

  /** `ByzantineBroadcastBlockchain.protocol(round)`: queue the new inputs not output
      yet; at the start of an epoch start its child; step the child; decode its output. */
  function ChainStep(s: NodeState, net: NetState, round: nat): (o: Outcome)
    requires net.Valid() && s.kind.BroadcastChain? && WellFormed(s)
    ensures o.Stepped? ==> !o.done && WellFormed(o.node) && SameNode(o.node, s) && o.node.child.Some?
    ensures o.Stepped? ==> o.node.child.value.io.out == []
    ensures o.Stepped? ==> o.node.bbbaseround == if round % R == 0 then round else s.bbbaseround
    ensures o.Stepped? ==> 0 <= round - o.node.bbbaseround
    ensures o.Stepped? && round % R != 0 ==> s.child.Some? && o.node.child.value.instance == s.child.value.instance
    ensures o.Stepped? ==> o.net.Valid() && o.net.round == net.round
    ensures o.Stepped? ==> o.net.timing == net.timing && |o.net.msgs| == |net.msgs|
    ensures o.Stepped? ==> o.node.io.inp == s.io.inp && o.node.hasTerminated == s.hasTerminated
  {
    var s1 := AddInputs(s, Items(s.io.GetInput(round)));
    if round % R == 0 then
      match StartEpoch(s1, net, round)
      case None => Crash
      case Some((s2, net1)) => Continue(s2, net1, round)
    else Continue(s1, net, round)
  }

  /** A chain round that does not raise is its three parts in turn. */
  lemma ChainStepParts(s: NodeState, net: NetState, round: nat)
    requires net.Valid() && s.kind.BroadcastChain? && WellFormed(s) && ChainStep(s, net, round).Stepped?
    ensures var s1 := AddInputs(s, Items(s.io.GetInput(round)));
      && s1.kind.BroadcastChain? && WellFormed(s1)
      && (round % R == 0 ==>
            && StartEpoch(s1, net, round).Some?
            && Continue(StartEpoch(s1, net, round).value.0, StartEpoch(s1, net, round).value.1, round)
               == ChainStep(s, net, round))
      && (round % R != 0 ==> Continue(s1, net, round) == ChainStep(s, net, round))
  {
  }

  /** Queue the inputs that were not output yet (`pending_inputs.update(inputs - outputs)`). */
  function AddInputs(s: NodeState, inputs: set<Payload>): NodeState
  {
    s.(pending := s.pending + (inputs - s.outputs))
  }

  /** The pieces of a single output. */
  lemma PiecesSingle(x: Payload)
    ensures Pieces([x]) == Decode(x)
  {
    assert [x][..0] == [];
  }

  /** Wrapping the texts of string payloads gives the payloads back. */
  lemma StrsTexts(xs: seq<Payload>)
    requires forall i :: 0 <= i < |xs| ==> xs[i].Str?
    ensures Strs(TextsOf(xs)) == xs
  {
  }

  /** A sender's batch decodes back to its pending inputs when no input holds
      the delimiter; the batch of nothing decodes to the single empty string. */
  lemma BatchRoundTrip(pending: set<Payload>)
    requires forall p :: p in pending ==> p.Str? && Sep !in p.s
    ensures Batch(pending).Some?
    ensures pending != {} ==> Elems(Pieces([Str(Batch(pending).value)])) == pending
    ensures pending == {} ==> Pieces([Str(Batch(pending).value)]) == [Str("")]
  {
    var xs := Enumerate(pending);
    var texts := TextsOf(xs);
    var batch := Join(texts);
    assert Batch(pending) == Some(batch);
    PiecesSingle(Str(batch));
    assert Decode(Str(batch)) == Strs(Split(batch));
    if pending != {} {
      forall i | 0 <= i < |texts|
        ensures Sep !in texts[i]
      {
        assert xs[i] in pending;
      }
      SplitJoin(texts);
      StrsTexts(xs);
      assert Decode(Str(batch)) == xs;
      ElemsEnumerate(pending);
    } else {
      EmptyBatch();
    }
  }

  /** Enumerating a set and collecting the elements gives the set back. */
  lemma ElemsEnumerate(s: set<Payload>)
    ensures Elems(Enumerate(s)) == s
  {
  }

  /** Stepping the child and draining its outputs moves outputs from pending
      to output and nothing back. */
  lemma ContinueSets(s: NodeState, net: NetState, round: nat)
    requires net.Valid() && WellFormed(s) && Continue(s, net, round).Stepped?
    requires s.pending !! s.outputs
    ensures var t := Continue(s, net, round).node;
      t.pending !! t.outputs && s.outputs <= t.outputs && s.pending <= t.pending + t.outputs
  {
    var c := BroadcastStep(s.child.value, net, round - s.bbbaseround);
    var base := s.(child := Some(c.node.(io := c.node.io.(out := []))));
    DrainEffect(base, c.node.io.out);
    var t := Continue(s, net, round).node;
    var e := Elems(Pieces(c.node.io.out));
    assert t.pending == s.pending - e && t.outputs == s.outputs + e;
    MoveSets(s.pending, s.outputs, e);
  }

  /** Moving some elements from one of two disjoint sets into the other. */
  lemma MoveSets(p: set<Payload>, o: set<Payload>, e: set<Payload>)
    requires p !! o
    ensures (p - e) !! (o + e) && o <= o + e && p <= (p - e) + (o + e)
  {
  }

  /** A chain round keeps pending inputs and outputs disjoint, never forgets an
      output, and loses no input: every earlier pending input and every new
      round input is afterwards pending or output. */
  lemma ChainDisjoint(s: NodeState, net: NetState, round: nat)
    requires net.Valid() && s.kind.BroadcastChain? && WellFormed(s) && ChainStep(s, net, round).Stepped?
    requires s.pending !! s.outputs
    ensures var t := ChainStep(s, net, round).node;
      && t.pending !! t.outputs && s.outputs <= t.outputs
      && s.pending + Items(s.io.GetInput(round)) <= t.pending + t.outputs
  {
    ChainStepParts(s, net, round);
    var s1 := AddInputs(s, Items(s.io.GetInput(round)));
    if round % R == 0 {
      var (s2, net1) := StartEpoch(s1, net, round).value;
      ContinueSets(s2, net1, round);
    } else {
      ContinueSets(s1, net, round);
    }
  }

  /** The epoch a chain node is in after a round: its child is the instance of
      epoch `round div R`, started at round `round - round mod R`. */
  ghost predicate InEpoch(s: NodeState, round: nat)
  {
    && s.child.Some? && s.bbbaseround == round - round % R
    && s.child.value.instance == ChildName(s.instance, EpochName(round / R))
  }

  /** Mid-epoch, a round is in the same epoch as the one before it. */
  lemma SameEpoch(round: nat)
    requires round % R != 0
    ensures round > 0 && (round - 1) / R == round / R
    ensures (round - 1) - (round - 1) % R == round - round % R
  {
  }

  /** Every chain round that does not raise leaves the node in the epoch of
      that round, given it was in the previous round's epoch mid-epoch. */
  lemma EpochInvariant(s: NodeState, net: NetState, round: nat)
    requires net.Valid() && s.kind.BroadcastChain? && WellFormed(s) && ChainStep(s, net, round).Stepped?
    requires round % R != 0 ==> round > 0 && InEpoch(s, round - 1)
    ensures InEpoch(ChainStep(s, net, round).node, round)
  {
    ChainStepParts(s, net, round);
    if round % R != 0 {
      SameEpoch(round);
    }
  }

  /** The instances of different epochs of one chain node have different names. */
  lemma EpochNamesDistinct(parent: string, a: nat, b: nat)
    requires ChildName(parent, EpochName(a)) == ChildName(parent, EpochName(b))
    ensures a == b
  {
    var na, nb := ChildName(parent, EpochName(a)), ChildName(parent, EpochName(b));
    assert EpochName(a) == na[|parent| + 1..] == nb[|parent| + 1..] == EpochName(b);
    assert IntToString(a) == EpochName(a)[2..] == EpochName(b)[2..] == IntToString(b);
    NatToStringInjective(a, b);
  }

  /** The child's instance is registered with the network at `bbbaseround`, so
      its reads at relative round `i` land on round `bbbaseround + i`. */
  ghost predicate Anchored(s: NodeState, net: NetState)
  {
    s.child.Some? && net.Base(s.child.value.instance) == s.bbbaseround
  }

  /** A chain round run with the network at that round keeps the child anchored:
      an epoch's start registers the new instance at the current round (its name
      is not yet taken, or was taken at this very round), and a mid-epoch round
      keeps the instance and the base rounds. */
  lemma ChainAnchored(s: NodeState, net: NetState, round: nat)
    requires net.Valid() && s.kind.BroadcastChain? && WellFormed(s) && ChainStep(s, net, round).Stepped?
    requires net.round == round
    requires round % R == 0 ==> var c := ChildName(s.instance, EpochName(round / R));
      c !in net.baserounds || net.baserounds[c] == round
    requires round % R != 0 ==> Anchored(s, net)
    ensures Anchored(ChainStep(s, net, round).node, ChainStep(s, net, round).net)
  {
    ChainStepParts(s, net, round);
    var s1 := AddInputs(s, Items(s.io.GetInput(round)));
    if round % R == 0 {
      var (s2, net1) := StartEpoch(s1, net, round).value;
      assert Anchored(s2, net1);
      ContinueKeepsAnchor(s2, net1, round);
    } else {
      ContinueKeepsAnchor(s1, net, round);
    }
  }

  lemma ContinueKeepsAnchor(s: NodeState, net: NetState, round: nat)
    requires net.Valid() && WellFormed(s) && Continue(s, net, round).Stepped? && Anchored(s, net)
    ensures Anchored(Continue(s, net, round).node, Continue(s, net, round).net)
  {
  }
}
