/**
 * The imperative message substrate of protocol_api/net.py: the network object
 * that protocols share, the per-node client that resolves targets, and the IO
 * tape. Every method is proved to move the object's state exactly as the
 * reference definitions in NetSpec and Values say.
 */
module Net {
  import opened Wrappers
  import opened Values
  import opened NetSpec

  /** One pass of the loop of `Network.send`: the nested `setdefault` calls,
      then the append to `[inst][target][src]`. */
  method AppendSlot(slot: Slot, inst: string, target: int, src: int, m: Payload) returns (r: Slot)
    requires inst in slot
    ensures r == AppendOne(slot, inst, target, src, m)
  {
    var byTarget := slot[inst];
    var bySrc := if target in byTarget then byTarget[target] else map[];
    var sent := if src in bySrc then bySrc[src] else [];
    r := slot[inst := byTarget[target := bySrc[src := sent + [m]]]];
  }

  /** `Network` and `PartiallySynchronousNetwork`, told apart by `timing`. The
      by-round pending index of the source is derived from `pending` (keyed by id). */
  class Network {
    var msgs: seq<Slot>
    var baserounds: map<string, int>
    var round: int
    const timing: Timing
    var pending: map<nat, PendingMsg>
    var lastId: nat

    function State(): NetState
      reads this
    {
      NetState(msgs, baserounds, round, timing, pending, lastId)
    }

    ghost predicate Valid()
      reads this
    {
      State().Valid()
    }

    /** `Network()`. */
    constructor ()
      ensures State() == InitialNet && Valid()
    {
      msgs := [map[]];
      baserounds := map[];
      round := 0;
      timing := Synchronous;
      pending := map[];
      lastId := 0;
    }

    /** `PartiallySynchronousNetwork(Delta)`; the source fails for Δ = 0. */
    constructor Delayed(delta: int)
      requires delta >= 1
      ensures State() == InitialDelayed(delta) && Valid()
    {
      msgs := [map[]];
      baserounds := map[];
      round := 0;
      timing := PartiallySynchronous(delta);
      pending := map[];
      lastId := 0;
    }

    /** `newinstance`. */
    method NewInstance(inst: string)
      modifies this
      ensures State() == old(State()).NewInstance(inst)
    {
      if inst !in baserounds {
        baserounds := baserounds[inst := round];
      }
    }

    /** `Network.setround`: set the round, then append empty rounds up to it. */
    method Advance(r: nat)
      modifies this
      ensures State() == old(State()).Advance(r)
    {
      var grown := msgs;
      if |grown| <= r {
        var count := r + 1 - |grown|;
        var j := 0;
        while j < count
          invariant 0 <= j <= count && |grown| == |msgs| + j
          invariant grown[..|msgs|] == msgs
          invariant forall k :: |msgs| <= k < |grown| ==> grown[k] == map[]
        {
          grown := grown + [map[]];
          j := j + 1;
        }
        assert grown == Grown(msgs, r);
      }
      round := r;
      msgs := grown;
    }

    /** `setround` of either network. */
    method SetRound(r: int)
      requires Valid() && State().CanSetRound(r)
      modifies this
      ensures State() == old(State()).SetRound(r) && Valid()
    {
      if timing.Synchronous? {
        Advance(r);
      } else if r == round + 1 {
        // the loop over range(self.round + 1, r + 1) runs exactly once
        ForceDeltaDeliveries();
        Advance(r);
      }
    }

    /** `Network.send`: append `m` to `[round][inst][target][src]` for every target. */
    method Record(inst: string, src: int, targets: seq<int>, m: Payload)
      requires 0 <= round < |msgs|
      modifies this
      ensures State() == old(State()).RecordNow(inst, src, targets, m)
    {
      var slot := msgs[round];
      if inst !in slot {
        slot := slot[inst := map[]];
      }
      var i := 0;
      while i < |targets|
        invariant 0 <= i <= |targets|
        invariant unchanged(this)
        invariant slot == NetSpec.Record(old(msgs[round]), inst, src, targets[..i], m)
      {
        assert targets[..i + 1][..i] == targets[..i];
        slot := AppendSlot(slot, inst, targets[i], src, m);
        i := i + 1;
      }
      assert targets[..|targets|] == targets;
      msgs := msgs[round := slot];
    }

    /** `send` of either network: record now, or hold back as pending with fresh ids. */
    method Send(inst: string, src: int, targets: seq<int>, m: Payload)
      requires Valid()
      modifies this
      ensures State() == old(State()).Send(inst, src, targets, m) && Valid()
    {
      if timing.Synchronous? {
        Record(inst, src, targets, m);
      } else {
        Enqueue(inst, src, targets, m);
      }
    }

    /** `PartiallySynchronousNetwork.send`: one pending entry per target, under
        successive fresh ids. */
    method Enqueue(inst: string, src: int, targets: seq<int>, m: Payload)
      requires State().IdsIssued()
      modifies this
      ensures State() == old(State()).Enqueue(inst, src, targets, m)
    {
      var i := 0;
      while i < |targets|
        invariant 0 <= i <= |targets|
        invariant State() == old(State()).Enqueue(inst, src, targets[..i], m)
      {
        assert targets[..i + 1][..i] == targets[..i];
        pending := pending[lastId := PendingMsg(src, targets[i], m, inst, round)];
        lastId := lastId + 1;
        i := i + 1;
      }
      assert targets[..|targets|] == targets;
    }

    /** `deliver_pending_msg(id)`. */
    method DeliverPendingMsg(id: nat) returns (ok: bool)
      requires 0 <= round < |msgs|
      modifies this
      ensures (State(), ok) == old(State()).DeliverPending(id)
    {
      if id !in pending {
        return false;
      }
      var p := pending[id];
      RecordSingle(msgs[round], p.instance, p.src, p.target, p.msg);
      Record(p.instance, p.src, [p.target], p.msg);
      pending := pending - {id};
      return true;
    }

    /** `force_delta_deliveries`: deliver every message sent Δ - 1 rounds ago. */
    method ForceDeltaDeliveries()
      requires Valid() && timing.PartiallySynchronous?
      modifies this
      ensures State() == old(State()).ForceDeltaDeliveries()
    {
      var r0 := round - timing.delta + 1;
      if r0 < 0 {
        return;
      }
      ghost var s0 := State();
      var id := 0;
      while id < lastId
        invariant 0 <= id <= lastId == s0.lastId
        invariant State() == s0.FlushUpTo(r0, id)
      {
        FlushOne(s0, r0, id);
        id := id + 1;
      }
    }

    /** One iteration of the loop of `force_delta_deliveries`: deliver message
        `id` when it is pending and was sent in round `r0`. */
    method FlushOne(ghost s0: NetState, r0: int, id: nat)
      requires 0 <= s0.round < |s0.msgs| && State() == s0.FlushUpTo(r0, id)
      modifies this
      ensures State() == s0.FlushUpTo(r0, id + 1)
    {
      if id in pending && pending[id].round == r0 {
        var _ := DeliverPendingMsg(id);
      }
    }
  }

  /** `NetworkClient`: a node's handle on the shared network. */
  class NetworkClient {
    const id: int
    const n: int
    const net: Network

    constructor (id: int, n: int, net: Network)
      ensures this.id == id && this.n == n && this.net == net
    {
      this.id := id;
      this.n := n;
      this.net := net;
    }

    method NewInstance(inst: string)
      modifies net
      ensures net.State() == old(net.State()).NewInstance(inst)
    {
      net.NewInstance(inst);
    }

    /** `send`: resolve the target, then send from this client's id. */
    method Send(inst: string, target: Target, m: Payload)
      requires net.Valid()
      modifies net
      ensures net.State() == old(net.State()).Send(inst, id, Resolve(target, n), m) && net.Valid()
    {
      net.Send(inst, id, Resolve(target, n), m);
    }

    /** `get_messages`: what `src` sent to this client at an instance round. */
    function GetMessages(inst: string, instRound: int, src: int): Result<seq<Payload>, ReadError>
      requires instRound + net.State().Base(inst) >= 0
      reads net
    {
      net.State().Messages(inst, instRound, id, src)
    }

    /** `get_allmessages_contents`: the distinct payloads received at an instance round. */
    method AllMessagesContents(inst: string, instRound: int) returns (r: Result<set<Payload>, ReadError>)
      requires instRound + net.State().Base(inst) >= 0
      ensures r.Failure? <==> instRound + net.State().Base(inst) >= |net.msgs|
      ensures r.Success? ==> r.value == Contents(Inbox(net.msgs[instRound + net.State().Base(inst)], inst, id))
    {
      var all := net.State().AllMessages(inst, instRound, id);
      if all.Failure? {
        return Failure(all.error);
      }
      var bySrc := all.value;
      var acc: set<Payload> := {};
      var todo := bySrc.Keys;
      while todo != {}
        invariant todo <= bySrc.Keys
        invariant forall p :: p in acc <==> exists src :: src in bySrc && src !in todo && p in bySrc[src]
        decreases todo
      {
        var src :| src in todo;
        acc := acc + set p | p in bySrc[src];
        todo := todo - {src};
      }
      assert acc == Contents(bySrc);
      return Success(acc);
    }
  }

  /** `IO`: the output list and the round -> input map of one node. */
  class IO {
    var out: seq<Payload>
    var inp: map<int, Input>

    function State(): IOState
      reads this
    {
      IOState(out, inp)
    }

    /** `IO()`. */
    constructor ()
      ensures State() == EmptyIO
    {
      out := [];
      inp := map[];
    }

    /** `SingleInputIO(inp)`. */
    constructor Single(inp0: Input)
      ensures State() == SingleInput(inp0)
    {
      out := [];
      inp := map[0 := inp0];
    }

    /** `output(msg)`: append to the output list. */
    method Output(m: Payload)
      modifies this
      ensures out == old(out) + [m] && inp == old(inp)
    {
      out := out + [m];
    }

    /** `output(msg)` for each message in turn. */
    method OutputAll(ms: seq<Payload>)
      modifies this
      ensures out == old(out) + ms && inp == old(inp)
    {
      var i := 0;
      while i < |ms|
        invariant 0 <= i <= |ms|
        invariant out == old(out) + ms[..i] && inp == old(inp)
      {
        assert ms[..i + 1] == ms[..i] + [ms[i]];
        Output(ms[i]);
        i := i + 1;
      }
      assert ms[..|ms|] == ms;
    }

    /** `set_input(round, inp)`. */
    method SetInput(round: int, v: Input)
      modifies this
      ensures inp == old(inp)[round := v] && out == old(out)
      ensures State().GetInput(round) == v
    {
      inp := inp[round := v];
    }

    /** `read_outputs`: return the outputs and clear the list. */
    method ReadOutputs() returns (outputs: seq<Payload>)
      modifies this
      ensures outputs == old(out) && out == [] && inp == old(inp)
    {
      outputs := out;
      out := [];
    }
  }
}
