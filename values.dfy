/**
 * The values that travel through the simulator: message payloads, the
 * per-round inputs a driver hands to a node, and the value state of an
 * IO tape (protocol_api/net.py, class IO).
 */
module Values {
  import opened Strings

  /** A message or output: a Python `str`, an `int`, or `None`. */
  datatype Payload = Str(s: string) | Num(i: int) | Null

  /** A round input as the driver supplies it: nothing (`None`), a broadcast
      proposal `(sender, value)`, or a list of transactions. */
  datatype Input = Absent | Proposal(sender: int, value: Payload) | Txs(items: seq<string>)

  /** Python's `str(p)`. */
  function Show(p: Payload): (r: string)
    ensures p.Str? ==> r == p.s
    ensures p.Num? ==> r == IntToString(p.i)
  {
    match p
    case Str(s) => s
    case Num(i) => IntToString(i)
    case Null => "None"
  }

  /** `set(inp)` for a truthy round input, and nothing for a falsy one: the
      transactions of a list, or the two members of a proposal tuple. */
  function Items(inp: Input): (r: set<Payload>)
    ensures inp.Txs? ==> forall p :: p in r <==> p.Str? && p.s in inp.items
    ensures inp.Proposal? ==> r == {Num(inp.sender), inp.value}
    ensures inp.Absent? ==> r == {}
  {
    match inp
    case Absent => {}
    case Proposal(sender, value) => {Num(sender), value}
    case Txs(items) => set x | x in items :: Str(x)
  }

  /** The strings inside a set of payloads. */
  function Texts(ps: set<Payload>): (r: set<string>)
    ensures forall x :: x in r <==> Str(x) in ps
  {
    set p | p in ps && p.Str? :: p.s
  }

  /** A total order on payloads, used to fix the order in which a set is
      walked: `None` first, then integers by value, then strings lexicographically. */
  predicate Le(a: Payload, b: Payload)
  {
    match (a, b)
    case (Null, _) => true
    case (Num(x), Num(y)) => x <= y
    case (Num(_), Str(_)) => true
    case (Str(x), Str(y)) => LexLe(x, y)
    case _ => false
  }

  lemma LeTotal(a: Payload, b: Payload)
    ensures Le(a, b) || Le(b, a)
  {
    if a.Str? && b.Str? {
      LexTotal(a.s, b.s);
    }
  }

  lemma LeAntisymmetric(a: Payload, b: Payload)
    requires Le(a, b) && Le(b, a)
    ensures a == b
  {
    if a.Str? && b.Str? {
      LexAntisymmetric(a.s, b.s);
    }
  }

  lemma LeTransitive(a: Payload, b: Payload, c: Payload)
    requires Le(a, b) && Le(b, c)
    ensures Le(a, c)
  {
    if a.Str? && b.Str? && c.Str? {
      LexTransitive(a.s, b.s, c.s);
    }
  }

  /** Every non-empty finite set of payloads has a least element. */
  lemma {:induction false} LeastExists(s: set<Payload>)
    requires s != {}
    ensures exists m :: m in s && forall y :: y in s ==> Le(m, y)
    decreases |s|
  {
    var x :| x in s;
    if s == {x} {
      assert forall y :: y in s ==> y == x;
      LeTotal(x, x);
    } else {
      LeastExists(s - {x});
      var m :| m in s - {x} && forall y :: y in s - {x} ==> Le(m, y);
      LeTotal(m, x);
      if Le(m, x) {
        assert forall y :: y in s ==> Le(m, y);
      } else {
        forall y | y in s ensures Le(x, y) {
          if y != x { LeTransitive(x, m, y); } else { LeTotal(x, x); }
        }
      }
    }
  }

  /** The least element of a non-empty set. */
  function Least(s: set<Payload>): (m: Payload)
    requires s != {}
    ensures m in s && forall y :: y in s ==> Le(m, y)
  {
    LeastExists(s);
    assert forall a, b :: Le(a, b) && Le(b, a) ==> a == b by {
      forall a, b | Le(a, b) && Le(b, a) ensures a == b { LeAntisymmetric(a, b); }
    }
    var m :| m in s && forall y :: y in s ==> Le(m, y);
    m
  }

  /** The elements of `s`, each exactly once, in increasing order: the model's
      fixed choice for Python's unspecified set iteration order. */
  function Enumerate(s: set<Payload>): (r: seq<Payload>)
    ensures |r| == |s|
    ensures forall x :: x in r <==> x in s
    ensures forall i, j :: 0 <= i < j < |r| ==> r[i] != r[j]
    decreases |s|
  {
    if s == {} then []
    else
      var m := Least(s);
      [m] + Enumerate(s - {m})
  }

  /** The members of a list, as a set (`set(xs)`). */
  function Elems(xs: seq<Payload>): (r: set<Payload>)
    ensures forall p :: p in r <==> p in xs
  {
    set p | p in xs
  }

  /** The texts of a sequence of string payloads. */
  function TextsOf(ps: seq<Payload>): (r: seq<string>)
    requires forall i :: 0 <= i < |ps| ==> ps[i].Str?
    ensures |r| == |ps| && forall i :: 0 <= i < |ps| ==> Str(r[i]) == ps[i]
  {
    seq(|ps|, i requires 0 <= i < |ps| => ps[i].s)
  }

  /** The payloads of a sequence of strings. */
  function Strs(xs: seq<string>): (r: seq<Payload>)
    ensures |r| == |xs| && forall i :: 0 <= i < |xs| ==> r[i] == Str(xs[i])
  {
    seq(|xs|, i requires 0 <= i < |xs| => Str(xs[i]))
  }

  /** The value state of an IO tape: the output list and the round -> input map. */
  datatype IOState = IOState(out: seq<Payload>, inp: map<int, Input>)
  {
    /** `get_input(round)`: the stored input, or `None`. */
    function GetInput(round: int): (r: Input)
      ensures round !in inp ==> r == Absent
      ensures round in inp ==> r == inp[round]
    {
      if round in inp then inp[round] else Absent
    }
  }

  /** A fresh tape: no outputs and no inputs (`IO()`). */
  const EmptyIO := IOState([], map[])

  /** `SingleInputIO(inp)`: a tape whose only input is `inp` at round 0. */
  function SingleInput(inp: Input): (r: IOState)
    ensures r.out == [] && r.GetInput(0) == inp
    ensures forall round :: round != 0 ==> r.GetInput(round) == Absent
  {
    IOState([], map[0 := inp])
  }
}
