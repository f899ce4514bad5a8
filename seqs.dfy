/**
 * Sequence helpers: flattening a sequence of sequences (pages of tables,
 * documents) and the order-preserving selection of elements (list
 * comprehensions with an `if`).
 */
module Seqs {
  /** The inner sequences one after the other, in order. */
  function Concat<T>(xss: seq<seq<T>>): seq<T> {
    if xss == [] then [] else Concat(xss[..|xss| - 1]) + xss[|xss| - 1]
  }

  lemma {:induction false} ConcatAppend<T>(a: seq<seq<T>>, b: seq<seq<T>>)
    ensures Concat(a + b) == Concat(a) + Concat(b)
    decreases |b|
  {
    if b == [] {
      assert a + b == a;
    } else {
      var n := |b| - 1;
      assert (a + b)[..|a + b| - 1] == a + b[..n];
      ConcatAppend(a, b[..n]);
    }
  }

  predicate Increasing(ks: seq<nat>) {
    forall i, j :: 0 <= i < j < |ks| ==> ks[i] < ks[j]
  }

  /** The positions of `s` whose element satisfies `keep`, in increasing order. */
  function Positions<T>(s: seq<T>, keep: T -> bool): (ks: seq<nat>)
    ensures Increasing(ks)
    ensures forall i :: 0 <= i < |ks| ==> ks[i] < |s|
    ensures forall k :: 0 <= k < |s| ==> (k in ks <==> keep(s[k]))
  {
    if s == [] then []
    else
      var n := |s| - 1;
      var ks := Positions(s[..n], keep);
      assert forall k :: 0 <= k < n ==> s[..n][k] == s[k];
      ks + if keep(s[n]) then [n] else []
  }

  /** The elements of `s` at the positions `ks`, in the order of `ks`. */
  function Project<T>(s: seq<T>, ks: seq<nat>): (r: seq<T>)
    requires forall i :: 0 <= i < |ks| ==> ks[i] < |s|
    ensures |r| == |ks|
    ensures forall i :: 0 <= i < |ks| ==> r[i] == s[ks[i]]
  {
    seq(|ks|, i requires 0 <= i < |ks| => s[ks[i]])
  }

  /** Selecting from `s + [x]`: the selection from `s`, then `x` if it is kept. */
  lemma ProjectPositionsSnoc<T>(s: seq<T>, keep: T -> bool)
    requires |s| > 0
    ensures var n := |s| - 1;
      Project(s, Positions(s, keep)) ==
        Project(s[..n], Positions(s[..n], keep)) + if keep(s[n]) then [s[n]] else []
  {
    var n := |s| - 1;
    var ks0 := Positions(s[..n], keep);
    var ks := Positions(s, keep);
    var r0 := Project(s[..n], ks0);
    var r := Project(s, ks);
    var expected := r0 + if keep(s[n]) then [s[n]] else [];
    assert |r| == |expected|;
    forall i | 0 <= i < |r|
      ensures r[i] == expected[i]
    {
      if i < |ks0| {
        assert ks[i] == ks0[i];
        assert s[..n][ks0[i]] == s[ks0[i]];
      }
    }
  }
}
