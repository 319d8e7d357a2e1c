/**
 * What the three broadcast classes of protocol_api/broadcast.py promise about
 * a run: which value a party outputs at round 3 given what it reads, and what
 * the sends of rounds 0 and 1 put in front of every party on the synchronous
 * network.
 */
module Scenarios {
  import opened Wrappers
  import opened Values
  import opened NetSpec
  import opened Nodes
  import opened BroadcastSpec

  /** Validity, on one party: when the first message the sender sent it in
      round 0 is `v` (not `None`), rounds 1, 2 and 3 do not raise, only round 3
      reports termination, and the party outputs exactly `v`. */
  lemma PlainOutput(s: NodeState, net1: NetState, net2: NetState, net3: NetState, v: Payload)
    requires s.kind == Broadcast(Plain) && s.senderId.Some? && s.outval == Null && v != Null
    requires net1.Valid() && net2.Valid() && net3.Valid()
    requires net1.Base(s.instance) < |net1.msgs| && 1 + net2.Base(s.instance) < |net2.msgs|
    requires net2.Base(s.instance) == net1.Base(s.instance)
    requires FromSender(s, net1, 0, s.senderId.value) != [] && FromSender(s, net1, 0, s.senderId.value)[0] == v
    ensures var o1 := BroadcastStep(s, net1, 1);
      && o1.Stepped? && !o1.done && o1.node.outval == v
      && var o2 := BroadcastStep(o1.node, net2, 2);
      && o2.Stepped? && !o2.done
      && var o3 := BroadcastStep(o2.node, net3, 3);
      && o3.Stepped? && o3.done && o3.node.io.out == s.io.out + [v]
  {
    var o1 := BaseStep(s, net1, 1);
    var o2 := BaseStep(o1.node, net2, 2);
    assert o2.node.outval == v;
  }

  /** The inconsistent variant, on one party: when the first message the sender
      sent it in round 1 is `x` (not `None`), it outputs exactly `x` at round 3,
      whatever it adopted before. */
  lemma InconsistentOutput(s: NodeState, net2: NetState, net3: NetState, x: Payload)
    requires s.kind == Broadcast(Inconsistent) && s.senderId.Some? && x != Null
    requires net2.Valid() && net3.Valid() && 1 + net2.Base(s.instance) < |net2.msgs|
    requires FromSender(s, net2, 1, s.senderId.value) != [] && FromSender(s, net2, 1, s.senderId.value)[0] == x
    ensures var o2 := BroadcastStep(s, net2, 2);
      && o2.Stepped? && !o2.done && o2.node.outval == x
      && var o3 := BroadcastStep(o2.node, net3, 3);
      && o3.Stepped? && o3.done && o3.node.io.out == s.io.out + [x]
  {
  }

  /** The invalid variant, on one party: when the distinct contents it received
      in round 1 are the single value `v` (not `None`), it outputs exactly `v`. */
  lemma InvalidOutput(s: NodeState, net2: NetState, net3: NetState, v: Payload)
    requires s.kind == Broadcast(Invalid) && s.senderId.Some? && v != Null
    requires net2.Valid() && net3.Valid() && 1 + net2.Base(s.instance) < |net2.msgs|
    requires Contents(Inbox(net2.msgs[1 + net2.Base(s.instance)], s.instance, s.netId)) == {v}
    ensures var o2 := BroadcastStep(s, net2, 2);
      && o2.Stepped? && !o2.done && o2.node.outval == v
      && var o3 := BroadcastStep(o2.node, net3, 3);
      && o3.Stepped? && o3.done && o3.node.io.out == s.io.out + [v]
  {
  }

  /** `ALL` names every party exactly once. */
  lemma {:induction false} AllOnce(n: int, t: int)
    ensures multiset(Resolve(All, n))[t] == if 0 <= t < n then 1 else 0
    decreases if n < 0 then 0 else n
  {
    if n > 0 {
      var ts := Resolve(All, n);
      assert ts[..n - 1] == Resolve(All, n - 1);
      AllOnce(n - 1, t);
      CountSnoc(ts, t);
    }
  }

  /** Sending `v` to `ALL`: party `t` finds `v` appended to what `src` sent
      it, once, and only when it is one of the `n` parties. */
  lemma RecordAll(slot: Slot, inst: string, src: int, n: int, v: Payload, t: int, from: int)
    ensures Lookup(Record(slot, inst, src, Resolve(All, n), v), inst, t, from) ==
      Lookup(slot, inst, t, from) + (if from == src && 0 <= t < n then [v] else [])
  {
    RecordLookup(slot, inst, src, Resolve(All, n), v, inst, t, from);
    AllOnce(n, t);
  }

  /** Round 0 of the sender, on the synchronous network: every party `t` of the
      network finds `v` appended to what the sender sent it on this instance
      this round, and nothing else changes for it. */
  lemma SenderReachesAll(s: NodeState, net: NetState, t: int, from: int)
    requires s.kind.Broadcast? && net.Valid() && net.timing.Synchronous?
    requires s.io.GetInput(0).Proposal? && s.io.GetInput(0).sender == s.id
    ensures var o := BroadcastStep(s, net, 0);
      && o.Stepped? && !o.done
      && Lookup(o.net.msgs[net.round], s.instance, t, from) ==
         Lookup(net.msgs[net.round], s.instance, t, from)
         + (if from == s.netId && 0 <= t < s.netN then [s.io.GetInput(0).value] else [])
  {
    var v := s.io.GetInput(0).value;
    assert BaseStep(s, net, 0).net.msgs[net.round] == Record(net.msgs[net.round], s.instance, s.netId, Resolve(All, s.netN), v);
    RecordAll(net.msgs[net.round], s.instance, s.netId, s.netN, v, t, from);
  }

  /** One unicast `send(k, m)` on the synchronous network. */
  lemma SendOne(net: NetState, inst: string, src: int, k: int, m: Payload, t: int, from: int)
    requires net.Valid() && net.timing.Synchronous?
    ensures Lookup(net.Send(inst, src, [k], m).msgs[net.round], inst, t, from) ==
      Lookup(net.msgs[net.round], inst, t, from) + (if from == src && t == k then [m] else [])
  {
    RecordLookup(net.msgs[net.round], inst, src, [k], m, inst, t, from);
    assert multiset([k])[t] == if t == k then 1 else 0;
  }

  /** Sends of `outs[i]` to each party `i` in turn: party `t` finds `outs[t]`
      appended to what `src` sent it, and nothing else changes. */
  lemma {:induction false} SendEachReaches(net: NetState, inst: string, src: int, outs: seq<Payload>, t: int, from: int)
    requires net.Valid() && net.timing.Synchronous?
    ensures Lookup(SendEach(net, inst, src, outs).msgs[net.round], inst, t, from) ==
      Lookup(net.msgs[net.round], inst, t, from) + (if from == src && 0 <= t < |outs| then [outs[t]] else [])
    decreases |outs|
  {
    if |outs| > 0 {
      SendEachReaches(net, inst, src, outs[..|outs| - 1], t, from);
      SendEachLast(net, inst, src, outs, t, from);
    }
  }

  /** The last send of `SendEach`, given what the earlier ones delivered. */
  lemma SendEachLast(net: NetState, inst: string, src: int, outs: seq<Payload>, t: int, from: int)
    requires net.Valid() && net.timing.Synchronous? && |outs| > 0
    requires Lookup(SendEach(net, inst, src, outs[..|outs| - 1]).msgs[net.round], inst, t, from) ==
      Lookup(net.msgs[net.round], inst, t, from)
      + (if from == src && 0 <= t < |outs[..|outs| - 1]| then [outs[..|outs| - 1][t]] else [])
    ensures Lookup(SendEach(net, inst, src, outs).msgs[net.round], inst, t, from) ==
      Lookup(net.msgs[net.round], inst, t, from) + (if from == src && 0 <= t < |outs| then [outs[t]] else [])
  {
    var k := |outs| - 1;
    var mid := SendEach(net, inst, src, outs[..k]);
    assert SendEach(net, inst, src, outs) == mid.Send(inst, src, [k], outs[k]) && mid.round == net.round;
    if from == src && 0 <= t < k {
      assert outs[..k][t] == outs[t];
    }
    SendNext(mid, inst, src, outs, Lookup(net.msgs[net.round], inst, t, from), t, from);
  }

  /** The last unicast send of `SendEach`, to party `|outs| - 1`, extends what
      the earlier sends delivered. */
  lemma SendNext(mid: NetState, inst: string, src: int, outs: seq<Payload>,
                 before: seq<Payload>, t: int, from: int)
    requires mid.Valid() && mid.timing.Synchronous? && |outs| > 0
    requires Lookup(mid.msgs[mid.round], inst, t, from) ==
      before + (if from == src && 0 <= t < |outs| - 1 then [outs[t]] else [])
    ensures Lookup(mid.Send(inst, src, [|outs| - 1], outs[|outs| - 1]).msgs[mid.round], inst, t, from) ==
      before + (if from == src && 0 <= t < |outs| then [outs[t]] else [])
  {
    SendOne(mid, inst, src, |outs| - 1, outs[|outs| - 1], t, from);
  }

  /** The inconsistent sender's round 1 with its hook set to `outs`, on the
      synchronous network: party `t < |outs|` finds `outs[t]` appended to what
      the sender sent it this round; with no hook, nothing is sent. */
  lemma HookReachesEach(s: NodeState, net: NetState, t: int)
    requires s.kind == Broadcast(Inconsistent) && net.Valid() && net.timing.Synchronous?
    requires s.senderId == Some(Num(s.id)) && net.Base(s.instance) < |net.msgs|
    ensures var o := BroadcastStep(s, net, 1);
      && o.Stepped? && !o.done
      && (s.inconsistentOutputs.None? ==> o.net == net)
      && (s.inconsistentOutputs.Some? ==>
            Lookup(o.net.msgs[net.round], s.instance, t, s.netId) ==
            Lookup(net.msgs[net.round], s.instance, t, s.netId)
            + (if 0 <= t < |s.inconsistentOutputs.value| then [s.inconsistentOutputs.value[t]] else []))
  {
    if s.inconsistentOutputs.Some? {
      SendEachReaches(net, s.instance, s.netId, s.inconsistentOutputs.value, t, s.netId);
    }
  }

  /** A single hooked party of the invalid variant sends `v` to all in round 1
      of a synchronous run where nothing else reached party `t` in that round:
      the distinct contents party `t` reads are exactly `{v}`. */
  lemma SingleHookContents(slot: Slot, inst: string, src: int, n: int, v: Payload, t: int)
    requires 0 <= t < n
    requires forall from :: Lookup(slot, inst, t, from) == []
    ensures Contents(Inbox(Record(slot, inst, src, Resolve(All, n), v), inst, t)) == {v}
  {
    var box := Inbox(Record(slot, inst, src, Resolve(All, n), v), inst, t);
    forall from
      ensures (from in box ==> box[from] == if from == src then [v] else []) && (from == src ==> from in box)
    {
      RecordAll(slot, inst, src, n, v, t, from);
    }
    SingletonContents(box, src, v);
  }

  /** A src -> payloads map whose only non-empty list is `[v]` has contents `{v}`. */
  lemma SingletonContents(box: map<int, seq<Payload>>, src: int, v: Payload)
    requires src in box && box[src] == [v]
    requires forall from :: from in box && from != src ==> box[from] == []
    ensures Contents(box) == {v}
  {
    forall p | p in Contents(box)
      ensures p == v
    {
      var from :| from in box && p in box[from];
    }
  }
}
