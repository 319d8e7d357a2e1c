# Lock-step protocol simulator: a Dafny model

This project models the core of a small Python framework for simulating
round-based distributed protocols and checking blockchain properties.

- **The network.** `Network` is a shared synchronous message table. It is
  indexed by absolute round, protocol instance, target and source. Each
  instance has a base round, so a protocol reads its messages by
  instance-relative round. `PartiallySynchronousNetwork` holds every sent
  message as pending. The adversary may deliver it early. Otherwise it is
  forced into the table Δ rounds after it was sent.
- **`NetworkClient` and `IO`.** A `NetworkClient` resolves targets: one id,
  `ALL` (ids `0 .. n-1`) or a list. `IO` is a node's input map and output tape.
- **Nodes and the driver.** A `Node` runs one `protocol(round)` step at a
  time. It can start a subprotocol under the instance name
  `parent + "-" + sub`. `simulate_protocol` advances the network round by
  round, hands each live node its input and steps it. It returns the set of
  ids whose step reported termination.
- **Byzantine broadcast.** The 4-round broadcast is modelled with two
  adversarial variants. The *inconsistent* sender's hook sends party `i` its
  own value in round 1. The *invalid* hook sends one value to all in round 1.
- **Blockchains.** The totally naive blockchain is modelled. So are the
  blockchains that run one broadcast instance per epoch of `R = 4` rounds,
  where the sender serialises its pending inputs with `"|"`.
- **Test oracles.** The consistency and liveness oracles of
  `test_bad_blockchains.py` are modelled.

The modules are:

- `NetSpec`, `Values`, `Strings`, `Nodes`, `BroadcastSpec`, `ChainSpec` and
  `DriverSpec` are reference definitions on values.
- `Net` and `Protocol` are the imperative classes (`Network`, `NetworkClient`,
  `IO`, `Node`). Every method is proved to move the object's state exactly as
  the matching reference function says.
- `Scenarios` holds what the broadcast variants promise about a run.
- `Oracles` holds the two test oracles, as loops over the honest nodes. They
  are proved equal to declarative verdicts, which are characterised by
  if-and-only-if lemmas.

Python values become `Payload = Str | Num | Null` (a string, an int or
`None`). An input is `Absent`, a broadcast `Proposal(sender, value)` or a
blockchain `Txs(items)`. An exception that escapes a step becomes `Crash`
(in the functions) or a precondition (in the methods).

## Model

| member | source | states |
|---|---|---|
| Strings.Split | protocol_api/blockchain.py:89 | splitting on the separator: at least one piece, no piece contains the separator, one piece exactly when the text has no separator |
| Strings.SplitJoin | protocol_api/blockchain.py:67 | splitting the separator-join of separator-free pieces gives the pieces back |
| Strings.JoinSplit | protocol_api/blockchain.py:89 | joining the pieces of a split gives the text back |
| Strings.EmptyBatch | protocol_api/blockchain.py:67 | an empty pending set joins to `""`, which splits to `[""]` |
| Strings.NatToString | protocol_api/blockchain.py:77 | `str(k)` of a natural is a non-empty string of decimal digits with no leading zero (unless `k = 0`), whose decimal value is `k` |
| Strings.NatToStringInjective | protocol_api/blockchain.py:77 | distinct naturals have distinct decimal forms |
| Strings.IntToString | protocol_api/blockchain.py:77 | `str(i)` never contains the separator and agrees with the digit form on naturals |
| Values.Show | protocol_api/blockchain.py:89 | `str(out)`: a string is itself, an int is its decimal form |
| Values.Items | test_bad_blockchains.py:61-63 | the elements an input contributes to `set(...)`/`update(...)`: the transactions, the `(sender, value)` pair, or nothing |
| Values.IOState.GetInput | protocol_api/net.py:199-200 | `inp.get(round, None)`: the stored input, `Absent` when there is none |
| Values.SingleInput | protocol_api/net.py:219-225 | `SingleInputIO`: empty output, the given input at round 0 and none at any other round |
| Values.Least | protocol_api/blockchain.py:27 | a non-empty set has a member no greater than every member, under a total order on payloads |
| Values.Enumerate | protocol_api/blockchain.py:27-28 | iterating a set visits each member exactly once: same length, same members, no repeats |
| NetSpec.Inbox | protocol_api/net.py:54-57 | the `src -> messages` dict of a target: each source maps to exactly what the table holds for it, with absent entries empty |
| NetSpec.AppendOne | protocol_api/net.py:31-40 | appending one message keeps every instance key and adds the sending one |
| NetSpec.AppendOneLookup | protocol_api/net.py:31-40 | appending one message adds it to exactly the `(instance, target, src)` list named, and changes no other list |
| NetSpec.Record | protocol_api/net.py:31-40 | `Network.send` on one round's slot keeps every instance key and adds the sending one |
| NetSpec.RecordLookup | protocol_api/net.py:34-40 | after sending to a target list, each `(target, src)` list gains the message once per occurrence of the target in the list, in order; all other lists are unchanged |
| NetSpec.RecordSingle | protocol_api/net.py:87 | sending to the one-element list `[target]` is appending one message |
| NetSpec.Grown | protocol_api/net.py:18-20 | `setround` grows the table to at least `round + 1` slots, keeps the old slots and adds empty ones |
| NetSpec.NetState.Base | protocol_api/net.py:50 | `baserounds.get(instance, 0)` |
| NetSpec.NetState.NewInstance | protocol_api/net.py:12-14 | the first use records the current round as base round; a later use changes nothing; other instances keep their base; the invariant is kept |
| NetSpec.NetState.SetRound | protocol_api/net.py:16-20 | the new round is set, the invariant is kept, and base rounds and timing are unchanged |
| NetSpec.NetState.RecordNow | protocol_api/net.py:23-40 | a synchronous send changes only the current round's slot |
| NetSpec.NetState.Enqueue | protocol_api/net.py:113-122 | a partially synchronous send gives each target a fresh consecutive id and a pending entry `(src, target, msg, instance, round)`; old entries and the table are unchanged |
| NetSpec.NetState.Send | protocol_api/net.py:23-40 | either network's send keeps the invariant, the round, the base rounds and the table's length |
| NetSpec.NetState.DeliverPending | protocol_api/net.py:82-90 | `deliver_pending_msg`: true exactly when the id is pending; then the message goes to the current slot and the id is removed; otherwise nothing changes |
| NetSpec.NetState.FlushUpTo | protocol_api/net.py:98-104 | delivering the pending ids below `k` that were sent in round `r0` removes exactly those ids, keeps the others' entries, and touches only the current slot |
| NetSpec.NetState.ForceDeltaDeliveries | protocol_api/net.py:93-104 | forcing deliveries keeps round, base rounds, timing, id counter and table length |
| NetSpec.NetState.ForcePreservesValid | protocol_api/net.py:106-111 | forcing the deliveries and then advancing one round restores the invariant: no pending message is older than Δ - 1 rounds |
| NetSpec.NetState.AllMessages | protocol_api/net.py:42-57 | `get_allmessages` fails exactly when the absolute round has no slot yet; otherwise each source maps to exactly what the table holds |
| NetSpec.NetState.Messages | protocol_api/net.py:59-64 | `get_messages` fails exactly when the absolute round has no slot yet; otherwise it is the table's list for that source |
| NetSpec.NetState.PendingUpTo | protocol_api/net.py:134-136 | the pending messages of an instance with id below `k`, each with its round made relative to the instance base |
| NetSpec.PendingMessagesExact | protocol_api/net.py:125-136 | `get_pendingmessages` lists exactly the pending messages of a known instance, with relative rounds, and nothing for an unknown one |
| NetSpec.InitialDelayed | protocol_api/net.py:69-80 | a new partially synchronous network is valid, at round 0, with nothing pending |
| NetSpec.ReadAfterSend | protocol_api/net.py:23-64 | on the synchronous network, a read of the current round after a send shows the earlier list plus the message once per occurrence of the reader in the targets |
| NetSpec.DeliverOnce | protocol_api/net.py:82-90 | delivering a pending id appends its message to its `(instance, target, src)` list, and a second delivery of the same id returns false |
| NetSpec.FlushLookup | protocol_api/net.py:101-104 | after the flush each list is the old list plus the due messages, in id order |
| NetSpec.DueContains | protocol_api/net.py:101-104 | every pending message of round `r0` with id below `k` is among the due ones |
| NetSpec.DeltaBound | protocol_api/net.py:93-111 | a message sent Δ - 1 rounds before the current one is no longer pending after the next `setround`, and is in its target's list of the current round |
| NetSpec.OverdueRemoved | protocol_api/net.py:93-111 | the overdue message's id is no longer pending after advancing |
| NetSpec.OverdueRecorded | protocol_api/net.py:93-111 | the overdue message is readable in the table after advancing |
| NetSpec.OverdueFlushed | protocol_api/net.py:98-104 | flushing a round delivers each of its pending messages |
| NetSpec.ForwardIsFlush | protocol_api/net.py:106-111 | advancing one round equals flushing the round sent Δ - 1 rounds ago, for both the table and the pending set |
| NetSpec.SetRoundKeepsMessages | protocol_api/net.py:16-20 | the synchronous `setround` never loses a slot and makes the new round readable |
| NetSpec.Resolve | protocol_api/net.py:155-161 | an int is `[id]`, `ALL` is `range(n)`, a list is itself |
| NetSpec.Contents | protocol_api/net.py:177-187 | `get_allmessages_contents`: a payload is in the set exactly when some source's list holds it |
| Net.Network.constructor | protocol_api/net.py:6-10 | a new synchronous network: one empty slot, round 0, no instances |
| Net.Network.Delayed | protocol_api/net.py:69-80 | a new partially synchronous network with the given Δ |
| Net.Network.NewInstance | protocol_api/net.py:12-14 | the object's new state is `NewInstance` of the old |
| Net.Network.Advance | protocol_api/net.py:16-20 | the object's new state is the synchronous `setround` of the old |
| Net.Network.SetRound | protocol_api/net.py:106-111 | the object's new state is `SetRound` of the old (the partially synchronous network first forces the delayed deliveries, then advances as `Advance` does); the invariant is kept |
| Net.Network.Record | protocol_api/net.py:31-40 | the loop over targets leaves the table as `Record` says |
| Net.Network.Send | protocol_api/net.py:113-122 | the object's new state is `Send` of the old (the synchronous network records directly, as `Record` does; the other enqueues); the invariant is kept |
| Net.Network.Enqueue | protocol_api/net.py:116-122 | the loop over targets leaves the state as `NetState.Enqueue` of the old: one pending entry per target under successive fresh ids |
| Net.Network.DeliverPendingMsg | protocol_api/net.py:82-90 | new state and return value are `DeliverPending` of the old state |
| Net.Network.ForceDeltaDeliveries | protocol_api/net.py:93-104 | the loop over pending ids leaves the state as `ForceDeltaDeliveries` says |
| Net.NetworkClient.constructor | protocol_api/net.py:147-150 | the client keeps its id, party count and network |
| Net.NetworkClient.NewInstance | protocol_api/net.py:152-153 | forwards to the network's `newinstance` |
| Net.NetworkClient.Send | protocol_api/net.py:155-162 | sends from the client's id to the resolved target list |
| Net.NetworkClient.AllMessagesContents | protocol_api/net.py:177-187 | fails exactly when the round has no slot; otherwise the set of contents of this client's inbox |
| Net.IO.constructor | protocol_api/net.py:191-193 | empty output tape and no inputs |
| Net.IO.Single | protocol_api/net.py:219-225 | the `SingleInputIO` state |
| Net.IO.Output | protocol_api/net.py:196-197 | appends one output, inputs unchanged |
| Net.IO.OutputAll | protocol_api/blockchain.py:17-18 | appends the outputs in order, inputs unchanged |
| Net.IO.SetInput | protocol_api/net.py:203-204 | stores the input for the round; `get_input` then returns it |
| Net.IO.ReadOutputs | protocol_api/net.py:209-216 | returns the tape and clears it, inputs unchanged |
| Nodes.Fresh | protocol_api/protocol.py:5-19 | a new node has the given instance, ids and IO, has not terminated, and has no sender and no child |
| Nodes.Construct | protocol_api/protocol.py:5-20 | constructing a node registers its instance: the base round is the current round on first use |
| Nodes.ChildName | protocol_api/protocol.py:23 | the child instance is `parent + "-" + sub`, character by character |
| Nodes.StartSubprotocol | protocol_api/protocol.py:22-24 | the child has the child name, the parent's ids and party count, the given IO and class, and its instance is registered |
| Nodes.PyMod | protocol_api/blockchain.py:25 | Python's `%`: in `[0, b)` for positive `b`, in `(b, 0]` for negative `b`, and congruent |
| BroadcastSpec.Final | protocol_api/broadcast.py:20-24 | the output is the adopted value, or `0` when there is none; never `None` |
| BroadcastSpec.SendEach | protocol_api/broadcast.py:44-45 | sending `outs[i]` to each `i` keeps the invariant, round, base rounds and table length |
| BroadcastSpec.Only | protocol_api/broadcast.py:82-83 | `pop()` of a one-element set is its element |
| BroadcastSpec.FromSender | protocol_api/broadcast.py:16 | reading from the unpacked sender id: an int reads that source's list, any other key reads `[]` |
| BroadcastSpec.Unpack | protocol_api/broadcast.py:12 | the round-0 unpacking succeeds exactly for a proposal or a list of exactly two transactions, and yields the input's two members in order |
| BroadcastSpec.BaseStep | protocol_api/broadcast.py:9-27 | raises exactly when the round-0 input does not unpack into two values, no sender is known, or the previous round's slot is missing; round 0 records the unpacked sender id and sends the value to all exactly when that id is this node's id; rounds 1-2 adopt the sender's first message if nothing is adopted; round 3 outputs and terminates |
| BroadcastSpec.TxPairRun | protocol_api/broadcast.py:9-27 | a plain node whose round-0 input is a list of two transactions raises at no round, sends nothing, adopts nothing and outputs `0` at round 3 |
| BroadcastSpec.InconsistentExtra | protocol_api/broadcast.py:41-53 | the override: raises exactly at round 2 without sender or slot; touches only `outval` |
| BroadcastSpec.InconsistentStep | protocol_api/broadcast.py:39-55 | the base step, plus round-1 sends of the hook's values when this node is the sender, plus round-2 adoption of the sender's first round-1 message |
| BroadcastSpec.InvalidExtra | protocol_api/broadcast.py:72-83 | the override: raises exactly at round 2 without the round-1 slot; touches only `outval` |
| BroadcastSpec.InvalidStep | protocol_api/broadcast.py:70-85 | the base step, plus a round-1 send of the hook value to all, plus round-2 adoption of the single distinct value received |
| BroadcastSpec.BroadcastStep | protocol_api/broadcast.py:9-85 | any variant: only round 3 terminates; the IO changes only at round 3, by one output; the network invariant is kept |
| BroadcastSpec.SetOutputs | protocol_api/broadcast.py:30-37 | sets the inconsistent hook, nothing else |
| BroadcastSpec.SetOutput | protocol_api/broadcast.py:61-68 | sets the invalid hook, nothing else |
| Scenarios.PlainOutput | protocol_api/broadcast.py:9-27 | validity at one party: if the sender's first round-0 message to it is `v`, rounds 1-2 do not terminate and round 3 outputs exactly `v` |
| Scenarios.InconsistentOutput | protocol_api/broadcast.py:48-53 | if the sender's first round-1 message to a party is `x`, that party outputs exactly `x` |
| Scenarios.InvalidOutput | protocol_api/broadcast.py:78-83 | if the distinct round-1 contents a party received are `{v}`, it outputs exactly `v` |
| Scenarios.AllOnce | protocol_api/net.py:158-159 | `ALL` names each of `0 .. n-1` exactly once and nothing else |
| Scenarios.RecordAll | protocol_api/net.py:155-162 | sending to `ALL` appends the message once to each party's list from the sender, and to no other list |
| Scenarios.SenderReachesAll | protocol_api/broadcast.py:10-14 | on the synchronous network the sender's round 0 puts its value once in front of every party |
| Scenarios.SendOne | protocol_api/net.py:155-157 | a unicast send reaches exactly its target |
| Scenarios.SendEachReaches | protocol_api/broadcast.py:44-45 | after the hook's sends, party `t` finds exactly `outs[t]` appended from the sender |
| Scenarios.HookReachesEach | protocol_api/broadcast.py:41-47 | the inconsistent sender's round 1 delivers `outs[t]` to each party `t`; with no hook it sends nothing |
| Scenarios.SingleHookContents | protocol_api/broadcast.py:75-83 | when one hooked party sends `v` to all and nothing else reached a party in round 1, that party reads exactly `{v}` |
| ChainSpec.Multicast | protocol_api/blockchain.py:27-28 | sending each item to all keeps the invariant, round, base rounds and table length |
| ChainSpec.NaiveRead | protocol_api/blockchain.py:10-20 | the reading half: raises exactly at a later round before initialisation or without the previous slot; otherwise the inputs and child are unchanged |
| ChainSpec.NaiveFinish | protocol_api/blockchain.py:22-30 | the relaying half never raises, never terminates and changes only the pending set |
| ChainSpec.NaiveStep | protocol_api/blockchain.py:9-30 | raises exactly when `n == 0` or a later round comes before initialisation or its slot; otherwise it never terminates and keeps the network invariant |
| ChainSpec.NaiveRoundZero | protocol_api/blockchain.py:10-24 | round 0 starts with no outputs and exactly the round-0 inputs pending |
| ChainSpec.NaiveRelay | protocol_api/blockchain.py:15-24 | a later round outputs the previous sender's messages in order, adds them to the outputs, removes them from pending, and queues the new inputs not output yet |
| ChainSpec.NaiveTurn | protocol_api/blockchain.py:25-28 | the node sends every pending input to all exactly when `round % n` is its id |
| ChainSpec.NaiveDisjoint | protocol_api/blockchain.py:12-24 | pending inputs and outputs stay disjoint |
| ChainSpec.Decode | protocol_api/blockchain.py:89 | splitting one output on the separator gives at least one piece, each a string with no separator in it |
| ChainSpec.Pieces | protocol_api/blockchain.py:87-91 | the outputs split into separator-free strings, at least one per output |
| ChainSpec.Drain | protocol_api/blockchain.py:86-93 | reading the broadcast outputs touches only the IO tape, outputs and pending set |
| ChainSpec.DrainEffect | protocol_api/blockchain.py:86-93 | the tape gains all pieces in order; the pieces are added to the outputs and removed from pending |
| ChainSpec.Batch | protocol_api/blockchain.py:67 | joining the pending set with the separator succeeds exactly when every pending item is a string |
| ChainSpec.BatchRoundTrip | protocol_api/blockchain.py:89-93 | splitting the batch `ChainSpec.Batch` builds: serialising separator-free pending strings and splitting the result gives back exactly the pending set (`[""]` for an empty set) |
| ChainSpec.Continue | protocol_api/blockchain.py:83-93 | raises exactly without a child, before the epoch's base round, or when the child raises; otherwise it steps the child at the relative round and drains its outputs, never terminating |
| ChainSpec.StartEpoch | protocol_api/blockchain.py:61-80 | possible exactly when `n != 0` and the sender's input can be built; a new child named `parent-BB<k>` with input `(sender, batch or None)` at round 0, and `bbbaseround = round` |
| ChainSpec.ChainStep | protocol_api/blockchain.py:51-95 | never terminates; a new child at every round divisible by `R`, otherwise the same child; the relative round is never negative |
| ChainSpec.ContinueSets | protocol_api/blockchain.py:86-93 | draining keeps pending and outputs disjoint, only grows the outputs, and loses no pending item |
| ChainSpec.ChainDisjoint | protocol_api/blockchain.py:51-95 | a round keeps pending and outputs disjoint, only grows the outputs, and every old pending item or new input ends up pending or output |
| ChainSpec.EpochNamesDistinct | protocol_api/blockchain.py:77 | the child instances `parent-BB<k>` of different epochs have different names |
| ChainSpec.ChainAnchored | protocol_api/blockchain.py:60-83 | with the network at the chain's round, as the driver sets it, a round keeps the child's instance registered at `bbbaseround`, so the child's relative round `i` reads absolute round `bbbaseround + i` |
| ChainSpec.EpochInvariant | protocol_api/blockchain.py:52-83 | after each round the child is the instance `BB<round / R>` started at the epoch's first round |
| DriverSpec.StepNode | protocol_api/protocol.py:72 | `node.protocol(r)` dispatched on the class keeps the network invariant, the node's identity and its inputs |
| DriverSpec.Visit | protocol_api/protocol.py:69-74 | a terminated id is skipped; otherwise the node gets its round input, is stepped, and only it changes; its id joins `terminated` exactly when the step returns true |
| DriverSpec.VisitUpTo | protocol_api/protocol.py:68-74 | when no step raises, visiting a prefix of the nodes keeps the invariants and the round, logs no network advance, and keeps the log facts of the round while moving past every visited index |
| DriverSpec.RunRound | protocol_api/protocol.py:66-74 | when no step raises, one round keeps the invariants and leaves the network at round `r` |
| DriverSpec.RunRounds | protocol_api/protocol.py:66-78 | when no step raises, after `rounds > 0` rounds the network is at round `rounds - 1`, with the invariants and the timing kept |
| DriverSpec.DoneIdsIn | protocol_api/protocol.py:72-73 | an id is recorded done exactly when some logged step of it returned true |
| DriverSpec.VisitLog | protocol_api/protocol.py:68-74 | a visit logs no network advance and, in the middle of a round, keeps the log facts and moves past its index |
| DriverSpec.RunRoundLog | protocol_api/protocol.py:66-74 | when no step raises, one round keeps the log facts and logs exactly one network advance, to `r` |
| DriverSpec.RunRoundsLog | protocol_api/protocol.py:66-78 | when no step raises, a run keeps the log facts and advances the network through rounds `0 .. rounds-1` in order |
| DriverSpec.LegalOrdered | protocol_api/protocol.py:66-78 | a log built by the driver's appends never steps a node after its step returned true, and its steps are ordered by round and by node index within a round |
| DriverSpec.SimulateLog | protocol_api/protocol.py:62-80 | the returned set is exactly the ids whose step returned true; no such id is stepped again; steps happen in round order and in node order within a round |
| Protocol.Node.State | protocol_api/protocol.py:5-20 | the node object's value state is well formed and carries its instance, ids, class and IO |
| Protocol.Node.constructor | protocol_api/protocol.py:5-20 | the new node and network are `Construct` of the old network |
| Protocol.Node.StartSubprotocol | protocol_api/protocol.py:22-24 | a fresh child node whose state is `StartSubprotocol` of the parent's |
| Protocol.Node.AdversarySetOutputs | protocol_api/broadcast.py:30-37 | the state is `SetOutputs` of the old |
| Protocol.Node.AdversarySetOutput | protocol_api/broadcast.py:61-68 | the state is `SetOutput` of the old |
| Protocol.Node.BaseProtocol | protocol_api/broadcast.py:9-27 | node, network and return value are `BaseStep` of the old states |
| Protocol.Node.InconsistentProtocol | protocol_api/broadcast.py:39-55 | node, network and return value are `InconsistentStep` of the old states |
| Protocol.Node.ReadSender | protocol_api/broadcast.py:16 | the read returns `FromSender` of the node's sender id |
| Protocol.Node.InconsistentOverride | protocol_api/broadcast.py:41-53 | node, network and return value are `InconsistentExtra` of the old states |
| Protocol.Node.SendEachParty | protocol_api/broadcast.py:44-45 | the network is `SendEach` of the old |
| Protocol.Node.InvalidProtocol | protocol_api/broadcast.py:70-85 | node, network and return value are `InvalidStep` of the old states |
| Protocol.Node.InvalidOverride | protocol_api/broadcast.py:72-83 | node, network and return value are `InvalidExtra` of the old states |
| Protocol.Node.BroadcastProtocol | protocol_api/broadcast.py:9-85 | node, network and return value are `BroadcastStep` of the old states |
| Protocol.Node.Protocol | protocol_api/protocol.py:47-58 | node, network and return value are `StepNode` of the old states |
| Protocol.Node.SetInput | protocol_api/protocol.py:71 | the node's IO stores the round's input, nothing else changes |
| Protocol.Node.Visit | protocol_api/protocol.py:70-74 | after setting the input and stepping, the state is `StepNode` of the old, marked terminated when the step returns true |
| Protocol.Node.NaiveProtocol | protocol_api/blockchain.py:9-30 | node, network and return value are `NaiveStep` of the old states |
| Protocol.Node.NaiveReceive | protocol_api/blockchain.py:10-20 | the state is `NaiveRead` of the old |
| Protocol.Node.NaiveTake | protocol_api/blockchain.py:15-20 | the state is `NaiveRead` of the old at a later round |
| Protocol.Node.NaiveRelayInputs | protocol_api/blockchain.py:22-28 | node and network are `NaiveFinish` of the old states |
| Protocol.Node.SendAll | protocol_api/blockchain.py:27-28 | the network is `Multicast` of the old |
| Protocol.Node.ChainProtocol | protocol_api/blockchain.py:51-95 | node, network and return value are `ChainStep` of the old states; the child objects are fresh at an epoch start and unchanged otherwise |
| Protocol.Node.EpochRound | protocol_api/blockchain.py:54-93 | an epoch's first round: queue inputs, start the epoch, continue |
| Protocol.Node.StartAndStep | protocol_api/blockchain.py:61-93 | start the epoch, then continue |
| Protocol.Node.MidEpochRound | protocol_api/blockchain.py:53-93 | a later round of an epoch: queue inputs, then continue |
| Protocol.Node.QueueInputs | protocol_api/blockchain.py:54-59 | the pending set gains the round's inputs not yet output |
| Protocol.Node.ChainStartEpoch | protocol_api/blockchain.py:61-80 | node and network are `StartEpoch` of the old states, with fresh child objects |
| Protocol.Node.EpochChild | protocol_api/blockchain.py:63-77 | a fresh broadcast child with the epoch's single input, as `start_subprotocol` builds it |
| Protocol.Node.Adopt | protocol_api/blockchain.py:77-80 | the node's child becomes the given one, with `bbbaseround = round` |
| Protocol.Node.EpochInput | protocol_api/blockchain.py:63-74 | the child's round-0 input `(sender, batch or None)` |
| Protocol.Node.ChainContinue | protocol_api/blockchain.py:83-93 | node and network are `Continue` of the old states |
| Protocol.Node.DrainBatches | protocol_api/blockchain.py:86-93 | the state is `Drain` of the old |
| Protocol.DecodeOutputs | protocol_api/blockchain.py:86-93 | the loop leaves the tape, pending set and outputs exactly as `ChainSpec.Drain` does, so by `ChainSpec.DrainEffect` it writes every piece in order, removes the pieces from pending and adds them to the outputs |
| Oracles.ViewsOf | test_bad_blockchains.py:30-31 | what an oracle reads of each honest node: its id and its IO |
| Oracles.Joined | test_bad_blockchains.py:31 | joining a node's outputs with the separator succeeds exactly when every output is a string |
| Oracles.ScanUpTo | test_bad_blockchains.py:28-39 | the scan stops only with a verdict that is not `Consistent` |
| Oracles.StoppedStays | test_bad_blockchains.py:35-39 | once the scan stops, its verdict is the oracle's answer |
| Oracles.ScanInvariant | test_bad_blockchains.py:30-34 | while the scan goes on, every joined output so far is a prefix of the longest, which is some node's own output (`""` and `-1` at the start) |
| Oracles.AgreeingGoesOn | test_bad_blockchains.py:30-35 | when all outputs are pairwise prefix-comparable the scan never stops |
| Oracles.ConsistentIff | test_bad_blockchains.py:27-40 | the oracle says consistent exactly when every honest output joins and any two joined outputs are prefix-comparable |
| Oracles.FewNodesConsistent | test_bad_blockchains.py:27-40 | zero or one honest node with string outputs is always consistent |
| Oracles.InconsistentReport | test_bad_blockchains.py:35-39 | a report names two incomparable outputs: the offending node's, and the longest one seen before it, which belongs to the reported node (`-1` with `""` when none) |
| Oracles.OutputConsistency | test_bad_blockchains.py:27-40 | the loop over the honest node objects returns `CheckConsistency` of their views |
| Oracles.RowItems | test_bad_blockchains.py:60-63 | the items the first `k` honest nodes received at one round |
| Oracles.HonestInputs | test_bad_blockchains.py:59-63 | an item is collected exactly when some honest node received it at some round below `m` |
| Oracles.OutputByAll | test_bad_blockchains.py:66-68 | the intersection: an item stays exactly when it is in the set and every honest node output it |
| Oracles.LivenessIff | test_bad_blockchains.py:43-76 | trivially live before round `T`; afterwards live exactly when every item any honest node received at rounds `0 .. r-T` is output by every honest node |
| Oracles.NotLiveExact | test_bad_blockchains.py:70-74 | the reported set is exactly the items received by some honest node at rounds `0 .. r-T` but missing from some honest output |
| Oracles.NotLiveWitness | test_bad_blockchains.py:70-74 | a not-live verdict has a witness: an input round, a receiving node, an item and a node that did not output it |
| Oracles.RoundInputs | test_bad_blockchains.py:60-63 | the inner loop adds exactly one round's received items |
| Oracles.AllInputs | test_bad_blockchains.py:59-63 | the nested loop collects exactly `HonestInputs` |
| Oracles.OutputByEveryone | test_bad_blockchains.py:66-68 | the intersection loop computes exactly `OutputByAll` |
| Oracles.OutputLiveness | test_bad_blockchains.py:43-76 | the oracle over the honest node objects returns `CheckLiveness` of their views |

## Left out

- The `simulate_protocol` loop over node objects is modelled on values (`DriverSpec.Simulate`), and its single visit on objects (`Protocol.Node.Visit`). There is no object-level proof that stepping one node leaves the other node objects untouched, so aliasing between node objects is not modelled.
- The `round_assertion` and `node_assertion` callbacks of `simulate_protocol` are left out, because they are caller code this model cannot see. `get_inputs` becomes a function parameter.
- The partially synchronous network's two pending indexes (by round and by id) are one map from id to entry. The by-round view is derived from it. Forced deliveries are applied in increasing id order. The source goes instance by instance, in the order each instance first sent in that round, and by id within an instance. Every message list belongs to one instance, so both orders append the same messages to each list in the same order (`NetSpec.FlushLookup`).
- Iterating or joining a Python `set` is given one fixed order (`Values.Enumerate`, least first under a total order on payloads). The source's order depends on hashing. `ChainSpec.BatchRoundTrip` is stated as set equality, so it does not depend on the order.
- `AttributeError` hooks (`inconsistent_outputs`, `invalid_output` never set) become `Option` fields. A naive node stepped at a later round before round 0 raises `AttributeError` in the source; here that step is `Crash`.
- The `RuntimeError` on a read of a round not yet reached becomes a `Failure` result (`ReadError`). A step that would raise is `Crash`; the methods require that it does not.
- NetSpec.NetState.SetRound: on the partially synchronous network only one step forward, or the same round with nothing of that round pending, is modelled (`CanSetRound`). A jump of several rounds at once, and going back, are not modelled. Negative rounds are not modelled.
- A partially synchronous network with Δ = 0 fails on its first `setround` in the source; the constructor requires Δ >= 1.
- `default_net` (a module-level shared network) is not modelled; every client is given its network explicitly.
- The `NetworkTargets` enum is unused by the core and is not part of this model.
- The secret key `sk` is stored and never read; it is not part of this model.
- The oracles' message strings are not modelled; the verdicts carry the same data (ids, outputs, the not-live set). The round `r` of `check_output_consistency` is used only in the message.
- Joining `node.io.out` raising `TypeError` on a non-string output is the verdict `JoinRaises(id)`.
- Subclass dispatch of `protocol()` is a `kind` tag on one `Node` class.
- Scenarios.PlainOutput: validity is proved for one party given what it reads. The step from "every party reads `v`" (Scenarios.SenderReachesAll) to "every honest party outputs `v`" through the driver is not chained into one run-level theorem.
- Scenarios.SingleHookContents: the invalid variant's "all honest parties output `v`" is proved per party given its inbox. It is not chained through the driver.
- Scenarios.InconsistentOutput: stated per party given its round-1 inbox, not for a whole run.
- ChainSpec.StartEpoch: the epoch number `int(round / self.R)` goes through a float in the source; the model uses integer division. With `R = 4` the two agree for every round below 2^53. From there on the float quotient can round up across an integer (for example at round 2^53 + 3), so the source can name a different epoch and pick a different sender. The model does not reproduce that rounding.
- ChainSpec.Continue: a round before `bbbaseround` is `Crash`. The source would step the child at a negative relative round, and its read would not raise: it would read an earlier slot, or one counted from the end by Python's negative indexing. Under the driver this cannot happen, because `ChainSpec.ChainStep` keeps the relative round nonnegative.
