/** `List.sort` with a comparator ordering movies by descending number of votes.
    The library sort is stable, so movies with equal votes keep their list order. */
module VoteSort {
  import opened Movies

  function Votes(m: Movie): int
  {
    m.rating.numVotes
  }

  /** Non-increasing number of votes. */
  ghost predicate ByVotesDescending(s: seq<Movie>)
  {
    forall i, j :: 0 <= i < j < |s| ==> Votes(s[i]) >= Votes(s[j])
  }

  /** Place `x` in front of the first movie with no more votes than `x`. */
  function Insert(x: Movie, s: seq<Movie>): (r: seq<Movie>)
    ensures multiset(r) == multiset(s) + multiset{x}
    decreases |s|
  {
    if |s| == 0 then [x]
    else if Votes(x) >= Votes(s[0]) then [x] + s
    else
      assert s == [s[0]] + s[1..];
      [s[0]] + Insert(x, s[1..])
  }

  /** Insertion keeps a vote-sorted list vote-sorted. */
  lemma {:induction false} InsertSorted(x: Movie, s: seq<Movie>)
    requires ByVotesDescending(s)
    ensures ByVotesDescending(Insert(x, s))
    decreases |s|
  {
    if |s| > 0 && Votes(x) < Votes(s[0]) {
      var rest := Insert(x, s[1..]);
      InsertSorted(x, s[1..]);
      var r := Insert(x, s);
      assert r == [s[0]] + rest;
      forall j | 0 <= j < |rest| ensures Votes(s[0]) >= Votes(rest[j]) {
        assert rest[j] in multiset(rest);
        if rest[j] != x {
          assert rest[j] in multiset(s[1..]);
        }
      }
      forall i, j | 0 <= i < j < |r| ensures Votes(r[i]) >= Votes(r[j]) {
        if i > 0 {
          assert r[i] == rest[i - 1] && r[j] == rest[j - 1];
        } else {
          assert r[j] == rest[j - 1];
        }
      }
    }
  }

  /** Stable sort by descending votes: a permutation of `ms`, in non-increasing vote order. */
  function Sort(ms: seq<Movie>): (r: seq<Movie>)
    ensures ByVotesDescending(r)
    ensures multiset(r) == multiset(ms)
    decreases |ms|
  {
    if |ms| == 0 then []
    else
      assert ms == [ms[0]] + ms[1..];
      InsertSorted(ms[0], Sort(ms[1..]));
      Insert(ms[0], Sort(ms[1..]))
  }

  /** The movies of `s` with exactly `v` votes, in order. */
  function WithVotes(s: seq<Movie>, v: int): seq<Movie>
    decreases |s|
  {
    if |s| == 0 then []
    else if Votes(s[0]) == v then [s[0]] + WithVotes(s[1..], v)
    else WithVotes(s[1..], v)
  }

  /** Keeping the movies with `v` votes, one head at a time. */
  lemma WithVotesCons(a: Movie, t: seq<Movie>, v: int)
    ensures WithVotes([a] + t, v) == (if Votes(a) == v then [a] else []) + WithVotes(t, v)
  {
    assert ([a] + t)[0] == a && ([a] + t)[1..] == t;
  }

  /** `x` goes in front of every movie of `s` with as many votes. */
  lemma {:induction false} InsertStable(x: Movie, s: seq<Movie>, v: int)
    ensures WithVotes(Insert(x, s), v) == (if Votes(x) == v then [x] else []) + WithVotes(s, v)
    decreases |s|
  {
    if |s| == 0 {
      WithVotesCons(x, s, v);
      assert Insert(x, s) == [x] + s;
    } else if Votes(x) >= Votes(s[0]) {
      WithVotesCons(x, s, v);
    } else {
      InsertStable(x, s[1..], v);
      WithVotesCons(s[0], Insert(x, s[1..]), v);
      WithVotesCons(s[0], s[1..], v);
      assert [s[0]] + s[1..] == s;
    }
  }

  /** Stability: for every vote count, the movies with that count appear in the
      sorted list in the same order as in the input. */
  lemma {:induction false} SortStable(ms: seq<Movie>, v: int)
    ensures WithVotes(Sort(ms), v) == WithVotes(ms, v)
    decreases |ms|
  {
    if |ms| > 0 {
      SortStable(ms[1..], v);
      InsertStable(ms[0], Sort(ms[1..]), v);
    }
  }

  /** Cutting a list keeps, for every vote count, a prefix of the movies with that count. */
  lemma {:induction false} WithVotesPrefix(s: seq<Movie>, n: nat, v: int)
    requires n <= |s|
    ensures WithVotes(s[..n], v) <= WithVotes(s, v)
    decreases n
  {
    if n > 0 {
      WithVotesPrefix(s[1..], n - 1, v);
      assert s[..n] == [s[0]] + s[1..][..n - 1];
      assert s == [s[0]] + s[1..];
      WithVotesCons(s[0], s[1..][..n - 1], v);
      WithVotesCons(s[0], s[1..], v);
    }
  }

  /** Among movies with the same vote count, the first `num` sorted ones are the
      earliest in input order. */
  lemma SortedPrefixStable(ms: seq<Movie>, num: nat)
    requires num <= |ms|
    ensures |Sort(ms)| == |ms|
    ensures forall v :: WithVotes(Sort(ms)[..num], v) <= WithVotes(ms, v)
  {
    SortLength(ms);
    forall v ensures WithVotes(Sort(ms)[..num], v) <= WithVotes(ms, v) {
      WithVotesPrefix(Sort(ms), num, v);
      SortStable(ms, v);
    }
  }

  /** A prefix of a vote-sorted list beats everything left out of it. */
  lemma PrefixDominates(s: seq<Movie>, n: nat)
    requires ByVotesDescending(s) && n <= |s|
    ensures forall a, b :: a in s[..n] && b in multiset(s) - multiset(s[..n]) ==> Votes(b) <= Votes(a)
  {
    assert s == s[..n] + s[n..];
    forall a, b | a in s[..n] && b in multiset(s) - multiset(s[..n]) ensures Votes(b) <= Votes(a) {
      assert b in multiset(s[n..]);
      assert b in s[n..];
      var i :| 0 <= i < n && s[..n][i] == a;
      var j :| 0 <= j < |s| - n && s[n..][j] == b;
      assert s[i] == a && s[n + j] == b;
    }
  }

  /** Sorting keeps the number of movies. */
  lemma SortLength(ms: seq<Movie>)
    ensures |Sort(ms)| == |ms|
  {
    assert |Sort(ms)| == |multiset(Sort(ms))| == |multiset(ms)|;
  }

  /** A prefix takes its movies from the whole. */
  lemma PrefixSubMultiset(s: seq<Movie>, n: nat)
    requires n <= |s|
    ensures multiset(s[..n]) <= multiset(s)
    ensures ByVotesDescending(s) ==> ByVotesDescending(s[..n])
  {
    assert s == s[..n] + s[n..];
  }

  /** The first `num` movies of the vote-sorted list: `num` of them, drawn from
      `ms`, in non-increasing vote order, none beaten by a movie left out. */
  lemma SortedPrefix(ms: seq<Movie>, num: int)
    ensures |Sort(ms)| == |ms|
    ensures 0 <= num <= |ms| ==>
      var p := Sort(ms)[..num];
      && |p| == num
      && multiset(p) <= multiset(ms)
      && ByVotesDescending(p)
      && (forall a, b :: a in p && b in multiset(ms) - multiset(p) ==> Votes(b) <= Votes(a))
  {
    SortLength(ms);
    if 0 <= num <= |ms| {
      var sorted := Sort(ms);
      PrefixDominates(sorted, num);
      PrefixSubMultiset(sorted, num);
    }
  }
}
