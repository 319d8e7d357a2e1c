/**
 * String helpers that model the Python built-ins the protocols rely on:
 * `"|".join(parts)`, `s.split("|")`, `str(i)` for integers, and an
 * enumeration of a finite set of strings (Python leaves the iteration order
 * of a set unspecified; this model fixes one: lexicographic order).
 */
module Strings {

  /** The batch delimiter of the blockchain encoding. */
  const Sep: char := '|'

  /** `"|".join(parts)`. */
  function Join(parts: seq<string>): string
  {
    if |parts| == 0 then ""
    else if |parts| == 1 then parts[0]
    else parts[0] + [Sep] + Join(parts[1..])
  }

  /** `s.split("|")`: always at least one piece; the pieces never contain the delimiter. */
  function Split(s: string): (r: seq<string>)
    ensures |r| >= 1
    ensures forall i :: 0 <= i < |r| ==> Sep !in r[i]
    ensures |r| == 1 <==> Sep !in s
  {
    if |s| == 0 then [""]
    else
      var rest := Split(s[1..]);
      if s[0] == Sep then [""] + rest
      else [[s[0]] + rest[0]] + rest[1..]
  }

  /** Splitting a text without delimiter in front of anything keeps that text glued to the first piece. */
  lemma {:induction false} SplitPrefix(a: string, t: string)
    requires Sep !in a
    ensures Split(a + t) == [a + Split(t)[0]] + Split(t)[1..]
  {
    if |a| > 0 {
      assert (a + t)[1..] == a[1..] + t;
      SplitPrefix(a[1..], t);
      assert [a[0]] + (a[1..] + Split(t)[0]) == a + Split(t)[0];
    } else {
      assert a + t == t;
      assert a + Split(t)[0] == Split(t)[0];
      assert Split(t) == [Split(t)[0]] + Split(t)[1..];
    }
  }

  /** Splitting the join of delimiter-free pieces gives the pieces back (for a non-empty batch). */
  lemma {:induction false} SplitJoin(parts: seq<string>)
    requires |parts| >= 1
    requires forall i :: 0 <= i < |parts| ==> Sep !in parts[i]
    ensures Split(Join(parts)) == parts
  {
    if |parts| == 1 {
      SplitPrefix(parts[0], "");
      assert parts[0] + "" == parts[0];
    } else {
      SplitJoin(parts[1..]);
      SplitAfterSep(parts[0], Join(parts[1..]));
      assert [parts[0]] + parts[1..] == parts;
    }
  }

  /** A delimiter-free text followed by the delimiter splits off as one piece. */
  lemma SplitAfterSep(a: string, tail: string)
    requires Sep !in a
    ensures Split(a + [Sep] + tail) == [a] + Split(tail)
  {
    SplitPrefix(a, [Sep] + tail);
    assert Split([Sep] + tail) == [""] + Split(tail) by {
      assert ([Sep] + tail)[1..] == tail;
    }
    assert a + [Sep] + tail == a + ([Sep] + tail);
    assert a + "" == a;
  }

  /** Joining the pieces of a split gives the text back, for every text. */
  lemma {:induction false} JoinSplit(s: string)
    ensures Join(Split(s)) == s
  {
    if |s| > 0 {
      var rest := Split(s[1..]);
      JoinSplit(s[1..]);
      if s[0] == Sep {
        assert Join([""] + rest) == "" + [Sep] + Join(rest) by {
          assert ([""] + rest)[1..] == rest;
        }
        assert s == [s[0]] + s[1..];
      } else {
        JoinCons(s[0], rest);
        assert s == [s[0]] + s[1..];
      }
    }
  }

  /** Prepending a character to the first piece prepends it to the join. */
  lemma {:induction false} JoinCons(c: char, pieces: seq<string>)
    requires |pieces| >= 1
    ensures Join([[c] + pieces[0]] + pieces[1..]) == [c] + Join(pieces)
  {
    var q := [[c] + pieces[0]] + pieces[1..];
    assert |q| == |pieces| && q[0] == [c] + pieces[0];
    if |pieces| == 1 {
      assert Join(q) == q[0];
    } else {
      assert q[1..] == pieces[1..];
      var tail := Join(pieces[1..]);
      calc {
        Join(q);
        ([c] + pieces[0]) + [Sep] + tail;
        { assert ([c] + pieces[0]) + [Sep] + tail == [c] + (pieces[0] + [Sep] + tail); }
        [c] + (pieces[0] + [Sep] + tail);
        [c] + Join(pieces);
      }
    }
  }

  /** The empty batch: joining nothing gives "", which splits into one empty piece. */
  lemma EmptyBatch()
    ensures Join([]) == ""
    ensures Split(Join([])) == [""]
  {
  }

  function DigitChar(d: nat): (c: char)
    requires d < 10
    ensures '0' <= c <= '9' && DigitValue(c) == d
  {
    "0123456789"[d]
  }

  /** The value of one decimal digit character. */
  function DigitValue(c: char): nat
    requires '0' <= c <= '9'
  {
    (c as int) - ('0' as int)
  }

  /** The number a string of decimal digits denotes, most significant first. */
  function DecimalValue(r: string): nat
    requires forall i :: 0 <= i < |r| ==> '0' <= r[i] <= '9'
    decreases |r|
  {
    if |r| == 0 then 0 else 10 * DecimalValue(r[..|r| - 1]) + DigitValue(r[|r| - 1])
  }

  /** `str(x)` for a natural number: its decimal digits, most significant first,
      with no leading zero, denoting `x`. */
  function NatToString(x: nat): (r: string)
    ensures |r| >= 1
    ensures forall i :: 0 <= i < |r| ==> '0' <= r[i] <= '9'
    ensures DecimalValue(r) == x
    ensures r[0] == '0' <==> x == 0
  {
    if x < 10 then [DigitChar(x)]
    else
      var r := NatToString(x / 10) + [DigitChar(x % 10)];
      assert r[..|r| - 1] == NatToString(x / 10);
      r
  }

  /** Distinct numbers have distinct decimal forms. */
  lemma NatToStringInjective(a: nat, b: nat)
    requires NatToString(a) == NatToString(b)
    ensures a == b
  {
  }

  /** `str(i)` for a Python int. */
  function IntToString(i: int): (r: string)
    ensures Sep !in r
    ensures i >= 0 ==> r == NatToString(i)
  {
    if i < 0 then "-" + NatToString(-i) else NatToString(i)
  }

  /** Lexicographic order on strings (by character code). */
  predicate LexLe(a: string, b: string)
  {
    |a| == 0 || (|b| > 0 && (a[0] < b[0] || (a[0] == b[0] && LexLe(a[1..], b[1..]))))
  }

  lemma {:induction false} LexTotal(a: string, b: string)
    ensures LexLe(a, b) || LexLe(b, a)
  {
    if |a| > 0 && |b| > 0 && a[0] == b[0] {
      LexTotal(a[1..], b[1..]);
    }
  }

  lemma {:induction false} LexAntisymmetric(a: string, b: string)
    requires LexLe(a, b) && LexLe(b, a)
    ensures a == b
  {
    if |a| > 0 && |b| > 0 {
      LexAntisymmetric(a[1..], b[1..]);
      assert a == [a[0]] + a[1..] && b == [b[0]] + b[1..];
    }
  }

  lemma {:induction false} LexTransitive(a: string, b: string, c: string)
    requires LexLe(a, b) && LexLe(b, c)
    ensures LexLe(a, c)
  {
    if |a| > 0 && |b| > 0 && |c| > 0 && a[0] == b[0] && b[0] == c[0] {
      LexTransitive(a[1..], b[1..], c[1..]);
    }
  }
}
