/** The two `String` operations the queries rely on: `contains` and the
    lexicographic `compareTo` order. Strings are sequences of characters. */
module Strings {

  /** `w` occurs in `s` starting at index `i`. */
  predicate OccursAt(s: string, w: string, i: int)
  {
    0 <= i && i + |w| <= |s| && s[i..i + |w|] == w
  }

  /** Occurrences in `s[1..]` are the occurrences in `s` shifted by one. */
  lemma OccursAtTail(s: string, w: string, i: int)
    requires |s| > 0 && 0 <= i
    ensures OccursAt(s[1..], w, i) <==> OccursAt(s, w, i + 1)
  {
    if 0 <= i && i + |w| <= |s| - 1 {
      assert s[1..][i..i + |w|] == s[i + 1..i + 1 + |w|];
    }
  }

  /** Literal substring search, as `String.contains`: the empty string occurs everywhere. */
  function Contains(s: string, w: string): (b: bool)
    ensures b <==> exists i :: OccursAt(s, w, i)
    decreases |s|
  {
    if w <= s then
      assert s[0..|w|] == w;
      assert OccursAt(s, w, 0);
      true
    else if |s| == 0 then
      false
    else
      ContainsTail(s, w);
      Contains(s[1..], w)
  }

  /** When `w` is not a prefix of `s`, it occurs in `s` exactly when it occurs in `s[1..]`. */
  lemma ContainsTail(s: string, w: string)
    requires |s| > 0 && !(w <= s)
    ensures (exists i :: OccursAt(s, w, i)) <==> (exists i :: OccursAt(s[1..], w, i))
  {
    if exists i :: OccursAt(s, w, i) {
      var i :| OccursAt(s, w, i);
      if i == 0 {
        assert false;
      }
      OccursAtTail(s, w, i - 1);
    }
    if exists i :: OccursAt(s[1..], w, i) {
      var i :| OccursAt(s[1..], w, i);
      OccursAtTail(s, w, i);
    }
  }

  /** `a` sorts strictly before `b`: `a.compareTo(b) < 0`. The first differing
      character decides; otherwise the shorter string comes first. */
  predicate Less(a: string, b: string)
    decreases |a|
  {
    if |a| == 0 then |b| > 0
    else if |b| == 0 then false
    else if a[0] != b[0] then a[0] < b[0]
    else Less(a[1..], b[1..])
  }

  lemma {:induction false} LessIrreflexive(a: string)
    ensures !Less(a, a)
    decreases |a|
  {
    if |a| > 0 {
      LessIrreflexive(a[1..]);
    }
  }

  lemma {:induction false} LessTransitive(a: string, b: string, c: string)
    requires Less(a, b) && Less(b, c)
    ensures Less(a, c)
    decreases |a|
  {
    if |a| > 0 && |b| > 0 && |c| > 0 && a[0] == b[0] && b[0] == c[0] {
      LessTransitive(a[1..], b[1..], c[1..]);
    }
  }

  /** `compareTo` returns 0 only for equal strings. */
  lemma {:induction false} LessTotal(a: string, b: string)
    ensures a == b || Less(a, b) || Less(b, a)
    decreases |a|
  {
    if |a| > 0 && |b| > 0 && a[0] == b[0] {
      LessTotal(a[1..], b[1..]);
      if a[1..] == b[1..] {
        assert a == [a[0]] + a[1..];
        assert b == [b[0]] + b[1..];
      }
    }
  }
}
