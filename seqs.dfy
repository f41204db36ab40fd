/** `Array.prototype.filter` over a sequence, where its survivors came from,
    and a filter that also transforms what it keeps. */
module Seqs {
  import opened Wrappers

  /** The elements of `xs` that satisfy `keep`, in order; built from the
      front of the list to the back, as `filter` visits it. */
  function Select<T>(xs: seq<T>, keep: T -> bool): (r: seq<T>)
    ensures |r| <= |xs|
  {
    if xs == [] then []
    else
      var n := |xs| - 1;
      Select(xs[..n], keep) + (if keep(xs[n]) then [xs[n]] else [])
  }

  /** The positions of `xs` whose element satisfies `keep`, in increasing
      order, and every such position among them. */
  function Positions<T>(xs: seq<T>, keep: T -> bool): (ps: seq<nat>)
    ensures forall i :: 0 <= i < |ps| ==> ps[i] < |xs| && keep(xs[ps[i]])
    ensures forall i, j :: 0 <= i < j < |ps| ==> ps[i] < ps[j]
    ensures forall k :: 0 <= k < |xs| && keep(xs[k]) ==> k in ps
  {
    if xs == [] then []
    else
      var n := |xs| - 1;
      var prev := Positions(xs[..n], keep);
      assert forall i :: 0 <= i < |prev| ==> xs[..n][prev[i]] == xs[prev[i]];
      prev + (if keep(xs[n]) then [n] else [])
  }

  /** `Select` keeps exactly the elements at `Positions`, in that order: the
      result is an order-preserving subsequence of the input. */
  lemma {:induction false} SelectAtPositions<T>(xs: seq<T>, keep: T -> bool)
    ensures |Select(xs, keep)| == |Positions(xs, keep)|
    ensures forall i :: 0 <= i < |Select(xs, keep)| ==> Select(xs, keep)[i] == xs[Positions(xs, keep)[i]]
  {
    if xs != [] {
      var n := |xs| - 1;
      SelectAtPositions(xs[..n], keep);
      var prev := Positions(xs[..n], keep);
      forall i | 0 <= i < |prev| ensures xs[..n][prev[i]] == xs[prev[i]] { }
    }
  }

  /** The positions of the survivors are exactly those whose element `keep` accepts. */
  lemma {:induction false} PositionsExact<T>(xs: seq<T>, keep: T -> bool)
    ensures forall k :: 0 <= k < |xs| ==> (k in Positions(xs, keep) <==> keep(xs[k]))
  {
    var ps := Positions(xs, keep);
    forall k | 0 <= k < |xs| && k in ps ensures keep(xs[k]) {
      var i :| 0 <= i < |ps| && ps[i] == k;
    }
  }

  /** `Select` keeps the elements of `xs` at increasing positions, and those
      are exactly the positions whose element `keep` accepts. */
  lemma {:induction false} SelectSubsequence<T>(xs: seq<T>, keep: T -> bool)
    ensures var r := Select(xs, keep);
      exists ps: seq<nat> ::
        |ps| == |r| &&
        (forall i, j :: 0 <= i < j < |ps| ==> ps[i] < ps[j]) &&
        (forall i :: 0 <= i < |ps| ==> ps[i] < |xs| && r[i] == xs[ps[i]]) &&
        (forall k :: 0 <= k < |xs| ==> (k in ps <==> keep(xs[k])))
  {
    var ps := Positions(xs, keep);
    SelectAtPositions(xs, keep);
    PositionsExact(xs, keep);
    assert |ps| == |Select(xs, keep)|;
  }

  /** An element survives exactly when it is in the input and satisfies `keep`. */
  lemma {:induction false} SelectMembership<T>(xs: seq<T>, keep: T -> bool, x: T)
    ensures x in Select(xs, keep) <==> x in xs && keep(x)
  {
    if xs != [] {
      var n := |xs| - 1;
      SelectMembership(xs[..n], keep, x);
      assert xs == xs[..n] + [xs[n]];
    }
  }

  /** When every element satisfies `keep`, nothing is dropped. */
  lemma {:induction false} SelectAll<T>(xs: seq<T>, keep: T -> bool)
    requires forall k :: 0 <= k < |xs| ==> keep(xs[k])
    ensures Select(xs, keep) == xs
  {
    if xs != [] {
      var n := |xs| - 1;
      SelectAll(xs[..n], keep);
      assert xs == xs[..n] + [xs[n]];
    }
  }

  /** Selecting again with the same test changes nothing. */
  lemma {:induction false} SelectIdempotent<T>(xs: seq<T>, keep: T -> bool)
    ensures Select(Select(xs, keep), keep) == Select(xs, keep)
  {
    if xs != [] {
      var n := |xs| - 1;
      SelectIdempotent(xs[..n], keep);
      var prev := Select(xs[..n], keep);
      if keep(xs[n]) {
        var r := prev + [xs[n]];
        assert r[..|r| - 1] == prev && r[|r| - 1] == xs[n];
        assert Select(r, keep) == Select(prev, keep) + [xs[n]];
      } else {
        assert Select(xs, keep) == prev;
      }
    }
  }

  /** The values `f` yields for the elements of `xs`, skipping the elements
      for which it yields nothing; built from the front to the back. */
  function Collect<T, U>(xs: seq<T>, f: T -> Option<U>): seq<U> {
    if xs == [] then []
    else
      var n := |xs| - 1;
      var y := f(xs[n]);
      Collect(xs[..n], f) + (if y.Some? then [y.value] else [])
  }

  /** One more element adds its value, if it has one, at the end. */
  lemma {:induction false} CollectSnoc<T, U>(xs: seq<T>, x: T, f: T -> Option<U>)
    ensures Collect(xs + [x], f) == Collect(xs, f) + (if f(x).Some? then [f(x).value] else [])
  {
    assert (xs + [x])[..|xs|] == xs;
  }

  /** The values of a two-element list: those of its elements, in order. */
  lemma {:induction false} CollectPair<T, U>(x: T, y: T, f: T -> Option<U>)
    ensures Collect([x, y], f) ==
      (if f(x).Some? then [f(x).value] else []) + (if f(y).Some? then [f(y).value] else [])
  {
    assert [] + [x] == [x] && [x] + [y] == [x, y];
    CollectSnoc([], x, f);
    CollectSnoc([x], y, f);
  }

  /** The same step for a growing prefix of `xs`, as a loop over it takes it. */
  lemma {:induction false} CollectPrefix<T, U>(xs: seq<T>, i: nat, f: T -> Option<U>)
    requires i < |xs|
    ensures Collect(xs[..i + 1], f) == Collect(xs[..i], f) + (if f(xs[i]).Some? then [f(xs[i]).value] else [])
  {
    assert xs[..i + 1] == xs[..i] + [xs[i]];
    CollectSnoc(xs[..i], xs[i], f);
  }

  /** `Collect` yields one value per element that has one, in the order of
      the elements: the i-th value is that of the i-th element at which
      `has`, the test for having a value, holds. */
  lemma {:induction false} CollectAtPositions<T, U>(xs: seq<T>, f: T -> Option<U>, has: T -> bool)
    requires forall x :: has(x) == f(x).Some?
    ensures |Collect(xs, f)| == |Positions(xs, has)|
    ensures forall i :: 0 <= i < |Collect(xs, f)| ==> Collect(xs, f)[i] == f(xs[Positions(xs, has)[i]]).value
  {
    if xs != [] {
      var n := |xs| - 1;
      CollectAtPositions(xs[..n], f, has);
      var prev := Positions(xs[..n], has);
      forall i | 0 <= i < |prev| ensures xs[..n][prev[i]] == xs[prev[i]] { }
    }
  }
}
