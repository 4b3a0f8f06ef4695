/** A `java.util.TreeSet` built by repeated `add`, modelled as a sorted sequence.
    The set's comparator is a relation `before`: `before(a, b)` when `a` iterates
    before `b`. Two elements are tied when neither is before the other (the
    comparator returns 0); `add` of an element tied with a member leaves the set
    unchanged, so the element inserted first represents its tie class. */
module OrderedSets {
  import Seqs

  /** The comparator reports 0 for `a` and `b`. */
  predicate Tied<T>(before: (T, T) -> bool, a: T, b: T)
  {
    !before(a, b) && !before(b, a)
  }

  /** What a comparator must satisfy for a TreeSet to behave: irreflexive,
      transitive, and ties are transitive (negative transitivity). */
  ghost predicate StrictWeakOrder<T(!new)>(before: (T, T) -> bool)
  {
    && (forall a :: !before(a, a))
    && (forall a, b, c :: before(a, b) && before(b, c) ==> before(a, c))
    && (forall a, b, c :: before(a, c) ==> before(a, b) || before(b, c))
  }

  /** A strict weak order whose only ties are equal values. */
  ghost predicate StrictTotalOrder<T(!new)>(before: (T, T) -> bool)
  {
    && StrictWeakOrder(before)
    && (forall a, b :: a != b ==> before(a, b) || before(b, a))
  }

  /** Strictly ascending: no two elements are tied. */
  ghost predicate Sorted<T>(s: seq<T>, before: (T, T) -> bool)
  {
    forall i, j :: 0 <= i < j < |s| ==> before(s[i], s[j])
  }

  /** Some member of `s` is tied with `x`. */
  ghost predicate HasTied<T>(s: seq<T>, x: T, before: (T, T) -> bool)
  {
    exists e :: e in s && Tied(before, e, x)
  }

  /** `TreeSet.add(x)`: insert `x` at its place, unless a tied element is present. */
  function Add<T>(s: seq<T>, x: T, before: (T, T) -> bool): (r: seq<T>)
    ensures forall e :: e in r ==> e in s || e == x
    ensures forall e :: e in s ==> e in r
    decreases |s|
  {
    if |s| == 0 then [x]
    else if before(x, s[0]) then [x] + s
    else if before(s[0], x) then
      assert s == [s[0]] + s[1..];
      [s[0]] + Add(s[1..], x, before)
    else s
  }

  /** An empty TreeSet after `add` of every element of `xs`, in order. */
  function AddAll<T>(xs: seq<T>, before: (T, T) -> bool): (r: seq<T>)
    ensures forall e :: e in r ==> e in xs
    decreases |xs|
  {
    if |xs| == 0 then []
    else
      assert xs == xs[..|xs| - 1] + [xs[|xs| - 1]];
      Add(AddAll(xs[..|xs| - 1], before), xs[|xs| - 1], before)
  }

  /** After `add`, some member is tied with `x`; it is `x` itself when no member was tied before. */
  lemma {:induction false} AddTies<T>(s: seq<T>, x: T, before: (T, T) -> bool)
    requires forall a :: !before(a, a)
    ensures HasTied(Add(s, x, before), x, before)
    ensures !HasTied(s, x, before) ==> x in Add(s, x, before)
    decreases |s|
  {
    var r := Add(s, x, before);
    if |s| == 0 {
      assert Tied(before, x, x);
    } else if before(x, s[0]) {
      assert r[0] == x && Tied(before, x, x);
    } else if before(s[0], x) {
      AddTies(s[1..], x, before);
      assert r == [s[0]] + Add(s[1..], x, before);
      assert s == [s[0]] + s[1..];
      if !HasTied(s, x, before) {
        assert !HasTied(s[1..], x, before);
      }
    } else {
      assert Tied(before, s[0], x);
    }
  }

  /** `add` keeps the sequence strictly ascending. */
  lemma {:induction false} AddSorted<T(!new)>(s: seq<T>, x: T, before: (T, T) -> bool)
    requires StrictWeakOrder(before) && Sorted(s, before)
    ensures Sorted(Add(s, x, before), before)
    decreases |s|
  {
    if |s| > 0 && !before(x, s[0]) && before(s[0], x) {
      AddSorted(s[1..], x, before);
      var r := Add(s, x, before);
      assert r == [s[0]] + Add(s[1..], x, before);
      forall i, j | 0 <= i < j < |r| ensures before(r[i], r[j]) {
        if i == 0 {
          assert r[j] in Add(s[1..], x, before);
        }
      }
    }
  }

  /** `xs[i]` is kept and no earlier kept element of `xs` is tied with it. */
  ghost predicate FirstOfTieClass<T>(xs: seq<T>, keep: T -> bool, before: (T, T) -> bool, i: int)
  {
    && 0 <= i < |xs|
    && keep(xs[i])
    && (forall j :: 0 <= j < i && keep(xs[j]) ==> !Tied(before, xs[j], xs[i]))
  }

  /** The TreeSet filled from a filtered stream is strictly ascending. */
  lemma {:induction false} AddAllFilterSorted<T(!new)>(xs: seq<T>, keep: T -> bool, before: (T, T) -> bool)
    requires StrictWeakOrder(before)
    ensures Sorted(AddAll(Seqs.Filter(xs, keep), before), before)
    decreases |xs|
  {
    if |xs| > 0 {
      var ys := xs[..|xs| - 1];
      var x := xs[|xs| - 1];
      AddAllFilterSorted(ys, keep, before);
      var f := Seqs.Filter(xs, keep);
      var fy := Seqs.Filter(ys, keep);
      if keep(x) {
        assert f[..|f| - 1] == fy;
        AddSorted(AddAll(fy, before), x, before);
      }
    }
  }

  /** Every kept element of the stream has a tie-mate in the TreeSet. */
  lemma {:induction false} AddAllFilterTied<T(!new)>(xs: seq<T>, keep: T -> bool, before: (T, T) -> bool)
    requires forall a :: !before(a, a)
    ensures forall i :: 0 <= i < |xs| && keep(xs[i]) ==> HasTied(AddAll(Seqs.Filter(xs, keep), before), xs[i], before)
    decreases |xs|
  {
    if |xs| > 0 {
      var ys := xs[..|xs| - 1];
      var x := xs[|xs| - 1];
      AddAllFilterTied(ys, keep, before);
      var f := Seqs.Filter(xs, keep);
      var fy := Seqs.Filter(ys, keep);
      var acc := AddAll(fy, before);
      var r := AddAll(f, before);
      if keep(x) {
        assert f[..|f| - 1] == fy;
        assert r == Add(acc, x, before);
        AddTies(acc, x, before);
      } else {
        assert r == acc;
      }
      forall i | 0 <= i < |xs| && keep(xs[i]) ensures HasTied(r, xs[i], before) {
        if i < |ys| {
          assert xs[i] == ys[i];
          var e :| e in acc && Tied(before, e, ys[i]);
          assert e in r;
        }
      }
    }
  }

  /** Every kept element that comes first in its tie class is itself in the
      TreeSet: `add` of a later tie-mate never displaces it. */
  lemma {:induction false} AddAllFilterFirst<T(!new)>(xs: seq<T>, keep: T -> bool, before: (T, T) -> bool)
    requires forall a :: !before(a, a)
    ensures forall i :: FirstOfTieClass(xs, keep, before, i) ==> xs[i] in AddAll(Seqs.Filter(xs, keep), before)
    decreases |xs|
  {
    if |xs| > 0 {
      var ys := xs[..|xs| - 1];
      var x := xs[|xs| - 1];
      AddAllFilterFirst(ys, keep, before);
      var f := Seqs.Filter(xs, keep);
      var fy := Seqs.Filter(ys, keep);
      var acc := AddAll(fy, before);
      var r := AddAll(f, before);
      if keep(x) {
        assert f[..|f| - 1] == fy;
        assert r == Add(acc, x, before);
        AddTies(acc, x, before);
      } else {
        assert r == acc;
      }
      forall i | FirstOfTieClass(xs, keep, before, i) ensures xs[i] in r {
        if i < |ys| {
          assert xs[i] == ys[i];
          assert FirstOfTieClass(ys, keep, before, i);
        } else if HasTied(acc, x, before) {
          assert false;
        }
      }
    }
  }

  /** The TreeSet filled from a filtered stream: strictly ascending, holding only
      kept elements, holding a tie-mate of every kept element, and holding every
      kept element that is the first of its tie class in the stream. */
  lemma AddAllFilter<T(!new)>(xs: seq<T>, keep: T -> bool, before: (T, T) -> bool)
    requires StrictWeakOrder(before)
    ensures Sorted(AddAll(Seqs.Filter(xs, keep), before), before)
    ensures forall e :: e in AddAll(Seqs.Filter(xs, keep), before) ==> e in xs && keep(e)
    ensures forall i :: 0 <= i < |xs| && keep(xs[i]) ==> HasTied(AddAll(Seqs.Filter(xs, keep), before), xs[i], before)
    ensures forall i :: FirstOfTieClass(xs, keep, before, i) ==> xs[i] in AddAll(Seqs.Filter(xs, keep), before)
  {
    AddAllFilterSorted(xs, keep, before);
    AddAllFilterTied(xs, keep, before);
    AddAllFilterFirst(xs, keep, before);
  }

  /** Adding images under `f` to a set ordered by `beforeU` is adding the
      originals to a set ordered by the pulled-back relation, then mapping. */
  lemma {:induction false} AddMap<T, U>(s: seq<T>, x: T, f: T -> U, beforeT: (T, T) -> bool, beforeU: (U, U) -> bool)
    requires forall a, b :: beforeT(a, b) == beforeU(f(a), f(b))
    ensures Add(Seqs.Map(s, f), f(x), beforeU) == Seqs.Map(Add(s, x, beforeT), f)
    decreases |s|
  {
    if |s| > 0 {
      var ms := Seqs.Map(s, f);
      assert ms[0] == f(s[0]);
      assert ms[1..] == Seqs.Map(s[1..], f);
      if !beforeT(x, s[0]) && beforeT(s[0], x) {
        AddMap(s[1..], x, f, beforeT, beforeU);
        assert Seqs.Map([s[0]] + Add(s[1..], x, beforeT), f) == [f(s[0])] + Seqs.Map(Add(s[1..], x, beforeT), f);
      } else if beforeT(x, s[0]) {
        assert Seqs.Map([x] + s, f) == [f(x)] + ms;
      }
    } else {
      assert Seqs.Map([x], f) == [f(x)];
    }
  }

  lemma {:induction false} AddAllMap<T, U>(xs: seq<T>, f: T -> U, beforeT: (T, T) -> bool, beforeU: (U, U) -> bool)
    requires forall a, b :: beforeT(a, b) == beforeU(f(a), f(b))
    ensures AddAll(Seqs.Map(xs, f), beforeU) == Seqs.Map(AddAll(xs, beforeT), f)
    decreases |xs|
  {
    var ms := Seqs.Map(xs, f);
    if |xs| > 0 {
      var ys := xs[..|xs| - 1];
      assert ms[..|ms| - 1] == Seqs.Map(ys, f);
      AddAllMap(ys, f, beforeT, beforeU);
      AddMap(AddAll(ys, beforeT), xs[|xs| - 1], f, beforeT, beforeU);
    } else {
      assert ms == [];
    }
  }
}
