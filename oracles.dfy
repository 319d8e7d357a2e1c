/**
 * The two correctness oracles of test_bad_blockchains.py, run on the honest
 * nodes after some round: consistency (the honest nodes' `"|"`-joined output
 * lists form a prefix chain) and T-liveness (every input an honest node got at
 * a round `0 .. r - T` was output by every honest node by round `r`). Each is a
 * loop over the node objects that changes nothing, proved against a function
 * over the nodes' tapes; the lemmas say what those functions decide.
 */
module Oracles {
  import opened Wrappers
  import opened Strings
  import opened Values
  import opened Protocol

  /** What an oracle sees of one honest node: its id and its tape. */
  datatype View = View(id: int, io: IOState)

  /** The views of the honest nodes, in list order. */
  function ViewsOf(nodes: seq<Node>): (r: seq<View>)
    reads set k | 0 <= k < |nodes| :: nodes[k].io
    ensures |r| == |nodes| && forall k :: 0 <= k < |nodes| ==> r[k] == View(nodes[k].id, nodes[k].io.State())
  {
    if |nodes| == 0 then [] else ViewsOf(nodes[..|nodes| - 1]) + [View(nodes[|nodes| - 1].id, nodes[|nodes| - 1].io.State())]
  }

  // ---------------------------------------------------------------- consistency

  /** `"|".join(out)`: `None` when an output is not a string (`join` raises). */
  function Joined(out: seq<Payload>): (r: Option<string>)
    ensures r.Some? <==> forall i :: 0 <= i < |out| ==> out[i].Str?
  {
    if forall i :: 0 <= i < |out| ==> out[i].Str? then Some(Join(TextsOf(out))) else None
  }

  /** `b.startswith(a)`. */
  predicate IsPrefix(a: string, b: string)
  {
    |a| <= |b| && b[..|a|] == a
  }

  /** Two joined outputs agree: one extends the other. */
  predicate Comparable(a: string, b: string)
  {
    IsPrefix(a, b) || IsPrefix(b, a)
  }

  /** The consistency verdict: consistent; inconsistent, naming the node with the
      longest output seen so far and the node whose output disagrees with it,
      with both outputs; or the `join` of a node's outputs raises. */
  datatype Consistency = Consistent | Inconsistent(longestId: int, longest: string, nodeId: int, nodeOut: string)
                       | JoinRaises(nodeId: int)

  /** The loop state after some nodes: still going with the longest output and
      its node, or returned with a verdict. */
  datatype Scan = Going(output: string, outputNode: int) | Stopped(verdict: Consistency)

  /** The consistency loop after the first `k` honest nodes. */
  function ScanUpTo(views: seq<View>, k: nat): (r: Scan)
    requires k <= |views|
    ensures r.Stopped? ==> !r.verdict.Consistent?
    decreases k
  {
    if k == 0 then Going("", -1)
    else match ScanUpTo(views, k - 1)
      case Stopped(v) => Stopped(v)
      case Going(output, node) =>
        match Joined(views[k - 1].io.out)
        case None => Stopped(JoinRaises(views[k - 1].id))
        case Some(nodeOut) =>
          if IsPrefix(output, nodeOut) then Going(nodeOut, views[k - 1].id)
          else if !IsPrefix(nodeOut, output) then Stopped(Inconsistent(node, output, views[k - 1].id, nodeOut))
          else Going(output, node)
  }

  /** `check_output_consistency(r, honest_nodes)`. */
  function CheckConsistency(views: seq<View>): Consistency
  {
    match ScanUpTo(views, |views|)
    case Going(_, _) => Consistent
    case Stopped(v) => v
  }

  /** Once the loop has returned, later nodes do not change its verdict. */
  lemma {:induction false} StoppedStays(views: seq<View>, k: nat)
    requires k <= |views| && ScanUpTo(views, k).Stopped?
    ensures CheckConsistency(views) == ScanUpTo(views, k).verdict
    decreases |views| - k
  {
    if k < |views| {
      StoppedStays(views, k + 1);
    }
  }

  /** The joined output of node `i`, known to exist. */
  function JoinedAt(views: seq<View>, i: nat): string
    requires i < |views| && Joined(views[i].io.out).Some?
  {
    Joined(views[i].io.out).value
  }

  /** While the loop goes on, every node so far has a joined output, each is a
      prefix of the kept output, and the kept output is the joined output of the
      kept node (or empty before the first node). */
  lemma {:induction false} ScanInvariant(views: seq<View>, k: nat)
    requires k <= |views| && ScanUpTo(views, k).Going?
    ensures var g := ScanUpTo(views, k);
      && (forall i :: 0 <= i < k ==> Joined(views[i].io.out).Some? && IsPrefix(JoinedAt(views, i), g.output))
      && (k == 0 ==> g.output == "" && g.outputNode == -1)
      && (k > 0 ==> exists i :: 0 <= i < k && views[i].id == g.outputNode && Joined(views[i].io.out) == Some(g.output))
    decreases k
  {
    if k > 0 {
      ScanInvariant(views, k - 1);
      var g := ScanUpTo(views, k - 1);
      var nodeOut := Joined(views[k - 1].io.out).value;
      if IsPrefix(g.output, nodeOut) {
        forall i | 0 <= i < k - 1
          ensures IsPrefix(JoinedAt(views, i), nodeOut)
        {
          PrefixTrans(JoinedAt(views, i), g.output, nodeOut);
        }
      }
    }
  }

  lemma PrefixTrans(a: string, b: string, c: string)
    requires IsPrefix(a, b) && IsPrefix(b, c)
    ensures IsPrefix(a, c)
  {
    assert c[..|a|] == c[..|b|][..|a|];
  }

  /** Two prefixes of the same text agree. */
  lemma PrefixesComparable(a: string, b: string, c: string)
    requires IsPrefix(a, c) && IsPrefix(b, c)
    ensures Comparable(a, b)
  {
    if |a| <= |b| {
      assert b[..|a|] == c[..|b|][..|a|];
    } else {
      assert a[..|b|] == c[..|a|][..|b|];
    }
  }

  /** Every node's outputs can be joined and the joined outputs agree pairwise. */
  ghost predicate PairwiseConsistent(views: seq<View>)
  {
    && (forall i :: 0 <= i < |views| ==> Joined(views[i].io.out).Some?)
    && forall i, j :: 0 <= i < |views| && 0 <= j < |views| ==> Comparable(JoinedAt(views, i), JoinedAt(views, j))
  }

  /** While the first `k` nodes agree pairwise, the loop goes on. */
  lemma {:induction false} AgreeingGoesOn(views: seq<View>, k: nat)
    requires k <= |views| && PairwiseConsistent(views)
    ensures ScanUpTo(views, k).Going?
    decreases k
  {
    if k > 0 {
      AgreeingGoesOn(views, k - 1);
      ScanInvariant(views, k - 1);
      var g := ScanUpTo(views, k - 1);
      if k - 1 > 0 {
        var i :| 0 <= i < k - 1 && views[i].id == g.outputNode && Joined(views[i].io.out) == Some(g.output);
        assert Comparable(JoinedAt(views, i), JoinedAt(views, k - 1));
      }
    }
  }

  /** The oracle returns True exactly when the honest nodes' joined outputs are
      pairwise prefix-comparable; in particular with fewer than two honest
      nodes whose outputs are strings. */
  lemma ConsistentIff(views: seq<View>)
    ensures CheckConsistency(views) == Consistent <==> PairwiseConsistent(views)
  {
    if CheckConsistency(views) == Consistent {
      ScanInvariant(views, |views|);
      var output := ScanUpTo(views, |views|).output;
      forall i, j | 0 <= i < |views| && 0 <= j < |views|
        ensures Comparable(JoinedAt(views, i), JoinedAt(views, j))
      {
        PrefixesComparable(JoinedAt(views, i), JoinedAt(views, j), output);
      }
    }
    if PairwiseConsistent(views) {
      AgreeingGoesOn(views, |views|);
    }
  }

  /** With at most one honest node whose outputs are strings, the oracle says consistent. */
  lemma FewNodesConsistent(views: seq<View>)
    requires |views| <= 1 && forall i :: 0 <= i < |views| ==> Joined(views[i].io.out).Some?
    ensures CheckConsistency(views) == Consistent
  {
    forall i, j | 0 <= i < |views| && 0 <= j < |views|
      ensures Comparable(JoinedAt(views, i), JoinedAt(views, j))
    {
      assert i == j;
      assert IsPrefix(JoinedAt(views, i), JoinedAt(views, i));
    }
    ConsistentIff(views);
  }

  /** A False verdict stops at the first node `j` whose joined output disagrees
      with the longest one before it, and reports that longest output's node and
      node `j`, whose outputs indeed disagree. */
  lemma InconsistentReport(views: seq<View>)
    requires CheckConsistency(views).Inconsistent?
    ensures var v := CheckConsistency(views);
      && !Comparable(v.longest, v.nodeOut)
      && exists j :: 0 <= j < |views| && views[j].id == v.nodeId && Joined(views[j].io.out) == Some(v.nodeOut)
           && (forall i :: 0 <= i < j ==> Joined(views[i].io.out).Some? && IsPrefix(JoinedAt(views, i), v.longest))
           && (j == 0 ==> v.longest == "" && v.longestId == -1)
           && (j > 0 ==> exists i :: 0 <= i < j && views[i].id == v.longestId && Joined(views[i].io.out) == Some(v.longest))
  {
    var j := FirstStop(views, |views|);
    StoppedStays(views, j + 1);
    ScanInvariant(views, j);
  }

  /** The node at which the loop returned. */
  lemma {:induction false} FirstStop(views: seq<View>, k: nat) returns (j: nat)
    requires k <= |views| && ScanUpTo(views, k).Stopped?
    ensures j < k && ScanUpTo(views, j).Going? && ScanUpTo(views, j + 1) == ScanUpTo(views, k)
    decreases k
  {
    if ScanUpTo(views, k - 1).Stopped? {
      j := FirstStop(views, k - 1);
    } else {
      j := k - 1;
    }
  }

  /** `check_output_consistency(r, honest_nodes)`; `r` only enters the message text. */
  method OutputConsistency(r: int, honest: seq<Node>) returns (verdict: Consistency)
    ensures verdict == CheckConsistency(ViewsOf(honest))
  {
    ghost var views := ViewsOf(honest);
    var output: string := "";
    var outputNode := -1;
    var k := 0;
    while k < |honest|
      invariant 0 <= k <= |honest|
      invariant ScanUpTo(views, k) == Going(output, outputNode)
    {
      var joined := Joined(honest[k].io.out);
      if joined.None? {
        verdict := JoinRaises(honest[k].id);
        StoppedStays(views, k + 1);
        return;
      }
      var nodeOut := joined.value;
      if IsPrefix(output, nodeOut) {
        output := nodeOut;
        outputNode := honest[k].id;
      } else if !IsPrefix(nodeOut, output) {
        verdict := Inconsistent(outputNode, output, honest[k].id, nodeOut);
        StoppedStays(views, k + 1);
        return;
      }
      k := k + 1;
    }
    verdict := Consistent;
  }

  // ---------------------------------------------------------------- liveness

  /** The liveness verdict: live, or the honest inputs not output by every honest node. */
  datatype Liveness = Live | NotLive(notLive: set<Payload>)

  /** What the honest nodes got as input in round `i`, from the first `k` of them. */
  function RowItems(views: seq<View>, i: int, k: nat): (r: set<Payload>)
    requires k <= |views|
    ensures forall p :: p in r <==> exists j :: 0 <= j < k && p in Items(views[j].io.GetInput(i))
  {
    set j, p | 0 <= j < k && p in Items(views[j].io.GetInput(i)) :: p
  }

  /** What the honest nodes got as input in rounds `0 .. m - 1`. */
  function HonestInputs(views: seq<View>, m: nat): (r: set<Payload>)
    ensures forall p :: p in r <==>
      exists i, j :: 0 <= i < m && 0 <= j < |views| && p in Items(views[j].io.GetInput(i))
  {
    set i, j, p | 0 <= i < m && 0 <= j < |views| && p in Items(views[j].io.GetInput(i)) :: p
  }

  /** The members of `s` that the first `k` honest nodes all output. */
  function OutputByAll(views: seq<View>, s: set<Payload>, k: nat): (r: set<Payload>)
    requires k <= |views|
    ensures forall p :: p in r <==> p in s && forall j :: 0 <= j < k ==> p in views[j].io.out
  {
    set p | p in s && forall j :: 0 <= j < k ==> p in views[j].io.out
  }

  /** The verdict once the honest inputs and the part of them everyone output are known. */
  function Verdict(inputs: set<Payload>, outputs: set<Payload>): Liveness
  {
    var notLive := inputs - outputs;
    if |notLive| > 0 then NotLive(notLive) else Live
  }

  /** `check_output_liveness(T, r, honest_nodes)`. */
  function CheckLiveness(t: int, r: int, views: seq<View>): Liveness
  {
    if r < t then Live
    else
      var inputs := HonestInputs(views, r - t + 1);
      Verdict(inputs, OutputByAll(views, inputs, |views|))
  }

  /** Before `T` rounds liveness holds trivially; afterwards the oracle says live
      exactly when every input an honest node got at a round `0 .. r - T` is in
      every honest node's output list. */
  lemma LivenessIff(t: int, r: int, views: seq<View>)
    ensures r < t ==> CheckLiveness(t, r, views) == Live
    ensures r >= t ==>
      (CheckLiveness(t, r, views) == Live <==>
        forall i, j, p, k :: 0 <= i <= r - t && 0 <= j < |views| && 0 <= k < |views| && p in Items(views[j].io.GetInput(i))
          ==> p in views[k].io.out)
  {
    if r >= t {
      var inputs := HonestInputs(views, r - t + 1);
      var notLive := inputs - OutputByAll(views, inputs, |views|);
      if |notLive| == 0 {
        assert notLive == {};
        forall i, j, p, k | 0 <= i <= r - t && 0 <= j < |views| && 0 <= k < |views| && p in Items(views[j].io.GetInput(i))
          ensures p in views[k].io.out
        {
          assert p in inputs;
          assert p !in notLive;
        }
      } else {
        NotLiveWitness(t, r, views);
      }
    }
  }

  /** A not-live verdict names exactly the inputs of rounds `0 .. r - T` that
      some honest node did not output. */
  lemma NotLiveExact(t: int, r: int, views: seq<View>)
    ensures CheckLiveness(t, r, views).NotLive? ==> (r >= t &&
      forall p :: p in CheckLiveness(t, r, views).notLive <==>
        (exists i, j :: 0 <= i <= r - t && 0 <= j < |views| && p in Items(views[j].io.GetInput(i)))
        && exists k :: 0 <= k < |views| && p !in views[k].io.out)
  {
  }

  lemma NotLiveWitness(t: int, r: int, views: seq<View>)
    requires r >= t && CheckLiveness(t, r, views).NotLive?
    ensures exists i, j, p, k ::
      && 0 <= i <= r - t && 0 <= j < |views| && 0 <= k < |views|
      && p in Items(views[j].io.GetInput(i)) && p !in views[k].io.out
  {
    var inputs := HonestInputs(views, r - t + 1);
    var notLive := inputs - OutputByAll(views, inputs, |views|);
    var p :| p in notLive;
    var k :| 0 <= k < |views| && p !in views[k].io.out;
    var i, j :| 0 <= i < r - t + 1 && 0 <= j < |views| && p in Items(views[j].io.GetInput(i));
  }

  lemma RowStep(views: seq<View>, i: int, k: nat)
    requires k < |views|
    ensures RowItems(views, i, k + 1) == RowItems(views, i, k) + Items(views[k].io.GetInput(i))
  {
  }

  lemma InputsStep(views: seq<View>, m: nat)
    ensures HonestInputs(views, m + 1) == HonestInputs(views, m) + RowItems(views, m, |views|)
  {
  }

  lemma OutputStep(views: seq<View>, s: set<Payload>, k: nat)
    requires k < |views|
    ensures OutputByAll(views, s, k + 1) == OutputByAll(views, s, k) * Elems(views[k].io.out)
  {
  }

  /** The inner loop: the inputs of round `i` of every honest node. */
  method RoundInputs(honest: seq<Node>, ghost views: seq<View>, i: int, inputs0: set<Payload>) returns (inputs: set<Payload>)
    requires views == ViewsOf(honest)
    ensures inputs == inputs0 + RowItems(views, i, |views|)
  {
    inputs := inputs0;
    var k := 0;
    while k < |honest|
      invariant 0 <= k <= |honest|
      invariant inputs == inputs0 + RowItems(views, i, k)
    {
      assert honest[k].io.State() == views[k].io;
      inputs := inputs + Items(honest[k].io.State().GetInput(i));
      RowStep(views, i, k);
      assert inputs == inputs0 + RowItems(views, i, k + 1);
      k := k + 1;
    }
  }

  /** The outer loop: the inputs of rounds `0 .. m - 1` of every honest node. */
  method AllInputs(honest: seq<Node>, ghost views: seq<View>, m: nat) returns (inputs: set<Payload>)
    requires views == ViewsOf(honest)
    ensures inputs == HonestInputs(views, m)
  {
    inputs := {};
    var i := 0;
    while i < m
      invariant 0 <= i <= m
      invariant inputs == HonestInputs(views, i)
    {
      inputs := RoundInputs(honest, views, i, inputs);
      InputsStep(views, i);
      i := i + 1;
    }
  }

  /** The intersection loop: the inputs every honest node output. */
  method OutputByEveryone(honest: seq<Node>, ghost views: seq<View>, inputs: set<Payload>) returns (outputs: set<Payload>)
    requires views == ViewsOf(honest)
    ensures outputs == OutputByAll(views, inputs, |views|)
  {
    outputs := inputs;
    var k := 0;
    while k < |honest|
      invariant 0 <= k <= |honest|
      invariant outputs == OutputByAll(views, inputs, k)
    {
      outputs := outputs * Elems(honest[k].io.out);
      OutputStep(views, inputs, k);
      k := k + 1;
    }
  }

  /** `check_output_liveness(T, r, honest_nodes)`. */
  method OutputLiveness(t: int, r: int, honest: seq<Node>) returns (verdict: Liveness)
    ensures verdict == CheckLiveness(t, r, ViewsOf(honest))
  {
    if r < t {
      return Live;
    }
    ghost var views := ViewsOf(honest);
    var inputs := AllInputs(honest, views, r - t + 1);
    var outputs := OutputByEveryone(honest, views, inputs);
    assert ViewsOf(honest) == views;
    // the set equalities the loops established, as equalities of terms
    assert inputs == HonestInputs(views, r - t + 1);
    assert outputs == OutputByAll(views, inputs, |views|);
    verdict := Verdict(inputs, outputs);
  }
}
