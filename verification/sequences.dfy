/**
  Sequence operations behind the reader's list slicing and numpy's
  element-wise array operations: `s[::-1]`, `diff`, unary minus on an
  array and Python's builtin `sum`.
*/
module Sequences {

  /** The reversed copy `s[::-1]`. */
  function Reverse<T>(s: seq<T>): (r: seq<T>)
    ensures |r| == |s|
  {
    seq(|s|, i requires 0 <= i < |s| => s[|s| - 1 - i])
  }

  lemma ReverseReverse<T>(s: seq<T>)
    ensures Reverse(Reverse(s)) == s
  {
  }

  lemma AppendAssoc<T>(a: seq<T>, b: seq<T>, c: seq<T>)
    ensures a + b + c == a + (b + c)
  {
  }

  /** Appending the next element of `s` extends the copied prefix by one. */
  lemma AppendNext<T>(acc: seq<T>, s: seq<T>, k: nat)
    requires k < |s|
    ensures acc + s[..k] + [s[k]] == acc + s[..k + 1]
  {
    assert s[..k + 1] == s[..k] + [s[k]];
  }

  /** numpy `diff`: the differences of consecutive elements. */
  function Diff(s: seq<real>): (d: seq<real>)
    ensures |d| == if |s| == 0 then 0 else |s| - 1
    ensures forall i {:trigger d[i]} :: 0 <= i < |d| ==> d[i] == s[i + 1] - s[i]
  {
    if |s| <= 1 then [] else seq(|s| - 1, i requires 0 <= i < |s| - 1 => s[i + 1] - s[i])
  }

  /** Element-wise negation. */
  function Negated(s: seq<real>): (r: seq<real>)
    ensures |r| == |s|
  {
    seq(|s|, i requires 0 <= i < |s| => -s[i])
  }

  /** A sequence whose elements are those of `s` backwards and negated is `Negated(Reverse(s))`. */
  lemma NegatedReverse(r: seq<real>, s: seq<real>)
    requires |r| == |s|
    requires forall i :: 0 <= i < |r| ==> r[i] == -s[|s| - 1 - i]
    ensures r == Negated(Reverse(s))
  {
  }

  /** Python's builtin `sum`, adding from the left. */
  function Sum(s: seq<real>): real
  {
    if s == [] then 0.0 else Sum(s[..|s| - 1]) + s[|s| - 1]
  }

  /** Summing a concatenation sums the two parts. */
  lemma {:induction false} SumAppend(a: seq<real>, b: seq<real>)
    ensures Sum(a + b) == Sum(a) + Sum(b)
  {
    if b != [] {
      var b' := b[..|b| - 1];
      assert (a + b)[..|a + b| - 1] == a + b';
      SumAppend(a, b');
    } else {
      assert a + b == a;
    }
  }

  /** Summing in the opposite order gives the same total. */
  lemma {:induction false} SumReverse(s: seq<real>)
    ensures Sum(Reverse(s)) == Sum(s)
  {
    if s != [] {
      var s' := s[..|s| - 1];
      assert Reverse(s) == [s[|s| - 1]] + Reverse(s');
      SumAppend([s[|s| - 1]], Reverse(s'));
      assert [s[|s| - 1]][..0] == [];
      SumReverse(s');
    }
  }

  /** Summing the negated elements negates the total. */
  lemma {:induction false} SumNegated(s: seq<real>)
    ensures Sum(Negated(s)) == -Sum(s)
  {
    if s != [] {
      var s' := s[..|s| - 1];
      assert Negated(s)[..|s| - 1] == Negated(s');
      SumNegated(s');
    }
  }

  /** The differences of a sequence add up to its last element minus its first. */
  lemma {:induction false} DiffTelescopes(s: seq<real>)
    requires s != []
    ensures Sum(Diff(s)) == s[|s| - 1] - s[0]
  {
    if |s| > 1 {
      var s' := s[..|s| - 1];
      assert Diff(s)[..|s| - 2] == Diff(s');
      DiffTelescopes(s');
    }
  }
}
