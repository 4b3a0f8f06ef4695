/** Sequence helpers: the stream `filter`, element-wise `map`, and prefix taking. */
module Seqs {

  /** `a` can be obtained from `b` by deleting elements (order is kept).
      Matching from the back greedily is complete for subsequences. */
  ghost predicate IsSubsequence<T>(a: seq<T>, b: seq<T>)
    decreases |b|
  {
    if |a| == 0 then true
    else if |b| == 0 then false
    else if a[|a| - 1] == b[|b| - 1] then IsSubsequence(a[..|a| - 1], b[..|b| - 1])
    else IsSubsequence(a, b[..|b| - 1])
  }

  /** The elements of `xs` that satisfy `keep`, in their original order
      (Java's `stream().filter(keep)` collected in encounter order). */
  function Filter<T(!new)>(xs: seq<T>, keep: T -> bool): (r: seq<T>)
    ensures forall x :: x in r <==> x in xs && keep(x)
    ensures |r| <= |xs|
    ensures IsSubsequence(r, xs)
    decreases |xs|
  {
    if |xs| == 0 then []
    else
      var ys := xs[..|xs| - 1];
      var x := xs[|xs| - 1];
      assert xs == ys + [x];
      var rest := Filter(ys, keep);
      if keep(x) then
        assert (rest + [x])[..|rest|] == rest;
        rest + [x]
      else
        rest
  }

  /** Filtering a one-element sequence. */
  lemma FilterSingleton<T(!new)>(x: T, keep: T -> bool)
    ensures Filter([x], keep) == if keep(x) then [x] else []
  {
    assert [x][..0] == [];
  }

  /** The filter keeps every occurrence of a passing element and no occurrence
      of a failing one. */
  lemma {:induction false} FilterCounts<T(!new)>(xs: seq<T>, keep: T -> bool)
    ensures forall x :: multiset(Filter(xs, keep))[x] == if keep(x) then multiset(xs)[x] else 0
    decreases |xs|
  {
    if |xs| > 0 {
      var ys := xs[..|xs| - 1];
      var x := xs[|xs| - 1];
      FilterCounts(ys, keep);
      assert xs == ys + [x];
      assert multiset(xs) == multiset(ys) + multiset{x};
    }
  }

  /** `f` applied to every element of `xs`. */
  function Map<T, U>(xs: seq<T>, f: T -> U): (r: seq<U>)
    ensures |r| == |xs|
    ensures forall i :: 0 <= i < |xs| ==> r[i] == f(xs[i])
  {
    seq(|xs|, i requires 0 <= i < |xs| => f(xs[i]))
  }

  /** The first `n` elements of `s`, or all of `s` when it is shorter. */
  function Take<T>(s: seq<T>, n: nat): seq<T>
  {
    if |s| <= n then s else s[..n]
  }

  /** A cut is a prefix of at most `n` elements. */
  lemma TakePrefix<T>(s: seq<T>, n: nat)
    ensures |Take(s, n)| <= n && |Take(s, n)| <= |s|
    ensures forall i :: 0 <= i < |Take(s, n)| ==> Take(s, n)[i] == s[i]
  {
  }

  /** Truncating twice to the same length is truncating once. */
  lemma TakeAppend<T>(a: seq<T>, b: seq<T>, n: nat)
    ensures Take(Take(a, n) + b, n) == Take(a + b, n)
  {
    if |a| > n {
      assert (a + b)[..n] == a[..n];
      assert (a[..n] + b)[..n] == a[..n];
    }
  }

  /** An element of `s` missing from a prefix of `s` sits at or beyond the cut. */
  lemma NotInTake<T>(s: seq<T>, n: nat, x: T) returns (k: nat)
    requires x in s && x !in Take(s, n)
    ensures n <= k < |s| && s[k] == x
    ensures |Take(s, n)| == n
  {
    k :| 0 <= k < |s| && s[k] == x;
  }
}
