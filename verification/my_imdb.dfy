/** The six read-only queries of `MyIMDB` over a loaded dataset. Each query is a
    pure function of the dataset and its arguments; title types and genres are
    passed as enumeration values. */
module MyImdb {
  import opened Results
  import opened Movies
  import Seqs
  import Strings
  import OrderedSets
  import VoteSort

  /** A movie needs at least this many votes to be considered for top ranking. */
  const MinNumVotesForTopRanked := 1000

  /** The exceptions the query code itself can raise. */
  datatype QueryError =
    | SubListOutOfRange  // `subList(0, num)` with `num` outside `0..size`
    | MissingEntry       // a map lookup that yields null and is then dereferenced

  // ----- getMovieTitleWithWords -----

  /** Movies whose title contains `words`, in list order. The title type is fixed
      to MOVIE: the `titleType` argument is not consulted. */
  function MovieTitleWithWords(db: Imdb, titleType: TitleType, words: string): (r: seq<Movie>)
    ensures forall m :: m in r <==> m in db.movieList && m.titleType == MOVIE && Strings.Contains(m.title, words)
    ensures Seqs.IsSubsequence(r, db.movieList)
    ensures words == [] ==> forall m :: m in db.movieList && m.titleType == MOVIE ==> m in r
  {
    Seqs.Filter(db.movieList, (m: Movie) => m.titleType == MOVIE && Strings.Contains(m.title, words))
  }

  /** The answer does not depend on the requested title type. */
  lemma MovieTitleWithWordsIgnoresType(db: Imdb, t1: TitleType, t2: TitleType, words: string)
    ensures MovieTitleWithWords(db, t1, words) == MovieTitleWithWords(db, t2, words)
  {
  }

  /** The search the documentation describes: the requested title type is honoured. */
  function MovieTitleWithWordsOfType(db: Imdb, titleType: TitleType, words: string): (r: seq<Movie>)
    ensures forall m :: m in r <==> m in db.movieList && m.titleType == titleType && Strings.Contains(m.title, words)
    ensures Seqs.IsSubsequence(r, db.movieList)
  {
    Seqs.Filter(db.movieList, (m: Movie) => m.titleType == titleType && Strings.Contains(m.title, words))
  }

  /** A TV_SHOW search misses a TV_SHOW whose title matches exactly, which the
      type-honouring search finds. */
  lemma TitleTypeArgumentIgnored()
    ensures var show := Movie("tt0", "Alien", TV_SHOW, 1979, {}, 117, Rating("tt0", 8.5, 1000));
            var db := Imdb([show], map["tt0" := show]);
            && MovieTitleWithWords(db, TV_SHOW, "Alien") == []
            && MovieTitleWithWordsOfType(db, TV_SHOW, "Alien") == [show]
  {
    var show := Movie("tt0", "Alien", TV_SHOW, 1979, {}, 117, Rating("tt0", 8.5, 1000));
    assert Strings.Contains(show.title, "Alien") by {
      assert Strings.OccursAt(show.title, "Alien", 0);
    }
    Seqs.FilterSingleton(show, (m: Movie) => m.titleType == MOVIE && Strings.Contains(m.title, "Alien"));
    Seqs.FilterSingleton(show, (m: Movie) => m.titleType == TV_SHOW && Strings.Contains(m.title, "Alien"));
  }

  // ----- findMovieByID -----

  /** Point lookup in the id index; None stands for the null the map returns. */
  function FindMovieById(db: Imdb, id: string): (r: Option<Movie>)
    ensures Consistent(db) ==> (r.Some? <==> exists m :: m in db.movieList && m.id == id)
    ensures Consistent(db) && r.Some? ==> r.value in db.movieList && r.value.id == id
  {
    if id in db.movieMap then Some(db.movieMap[id]) else None
  }

  /** Looking up a listed movie's id finds that movie. */
  lemma FindMovieByIdInverse(db: Imdb)
    requires Consistent(db)
    ensures forall m :: m in db.movieList ==> FindMovieById(db, m.id) == Some(m)
  {
  }

  // ----- getMoviesByYearAndGenre -----

  predicate InYearAndGenre(m: Movie, titleType: TitleType, year: int, genre: Genre)
  {
    genre in m.genres && m.year == year && m.titleType == titleType
  }

  function YearAndGenreFilter(titleType: TitleType, year: int, genre: Genre): Movie -> bool
  {
    (m: Movie) => InYearAndGenre(m, titleType, year, genre)
  }

  /** The matching movies added to a naturally ordered TreeSet. */
  function MoviesByYearAndGenre(db: Imdb, titleType: TitleType, year: int, genre: Genre): (r: seq<Movie>)
    ensures forall m :: m in r ==> m in db.movieList && InYearAndGenre(m, titleType, year, genre)
  {
    OrderedSets.AddAll(Seqs.Filter(db.movieList, YearAndGenreFilter(titleType, year, genre)), NaturalBefore)
  }

  /** Only matching listed movies, strictly ascending by (title, year), and
      every matching movie has a representative with its title and year. */
  lemma MoviesByYearAndGenreSpec(db: Imdb, titleType: TitleType, year: int, genre: Genre)
    ensures var r := MoviesByYearAndGenre(db, titleType, year, genre);
      && (forall m :: m in r ==> m in db.movieList && InYearAndGenre(m, titleType, year, genre))
      && (forall i, j :: 0 <= i < j < |r| ==> NaturalBefore(r[i], r[j]))
      && (forall m :: m in db.movieList && InYearAndGenre(m, titleType, year, genre) ==>
            exists e :: e in r && e.title == m.title && e.year == m.year)
  {
    var xs := db.movieList;
    var keep := YearAndGenreFilter(titleType, year, genre);
    var r := MoviesByYearAndGenre(db, titleType, year, genre);
    assert OrderedSets.Sorted(r, NaturalBefore) by {
      NaturalOrder();
      OrderedSets.AddAllFilterSorted(xs, keep, NaturalBefore);
    }
    forall m | m in xs && InYearAndGenre(m, titleType, year, genre)
      ensures exists e :: e in r && e.title == m.title && e.year == m.year
    {
      var i :| 0 <= i < |xs| && xs[i] == m;
      assert keep(xs[i]);
      assert OrderedSets.HasTied(r, m, NaturalBefore) by {
        NaturalOrder();
        OrderedSets.AddAllFilterTied(xs, keep, NaturalBefore);
      }
      var e :| e in r && OrderedSets.Tied(NaturalBefore, e, m);
      NaturalTied();
    }
  }

  /** The movie kept for a (title, year) key is the first matching movie in the
      list with that key: a later duplicate never displaces it. */
  lemma MoviesByYearAndGenreKeepsFirst(db: Imdb, titleType: TitleType, year: int, genre: Genre, i: int)
    requires 0 <= i < |db.movieList| && InYearAndGenre(db.movieList[i], titleType, year, genre)
    requires forall j :: 0 <= j < i && InYearAndGenre(db.movieList[j], titleType, year, genre) ==>
               db.movieList[j].title != db.movieList[i].title || db.movieList[j].year != db.movieList[i].year
    ensures db.movieList[i] in MoviesByYearAndGenre(db, titleType, year, genre)
  {
    var xs := db.movieList;
    var keep := YearAndGenreFilter(titleType, year, genre);
    NaturalTied();
    assert OrderedSets.FirstOfTieClass(xs, keep, NaturalBefore, i);
    NaturalOrder();
    OrderedSets.AddAllFilterFirst(xs, keep, NaturalBefore);
  }

  // ----- getMoviesByRuntime -----

  /** The runtime comparator: longer runtime first, then title ascending. */
  predicate RuntimeBefore(a: Movie, b: Movie)
  {
    a.runtimeMinutes > b.runtimeMinutes || (a.runtimeMinutes == b.runtimeMinutes && Strings.Less(a.title, b.title))
  }

  lemma RuntimeOrder()
    ensures OrderedSets.StrictWeakOrder(RuntimeBefore)
  {
    forall a: Movie ensures !RuntimeBefore(a, a) {
      Strings.LessIrreflexive(a.title);
    }
    forall a: Movie, b: Movie, c: Movie | RuntimeBefore(a, b) && RuntimeBefore(b, c)
      ensures RuntimeBefore(a, c)
    {
      if Strings.Less(a.title, b.title) && Strings.Less(b.title, c.title) {
        Strings.LessTransitive(a.title, b.title, c.title);
      }
    }
    forall a: Movie, b: Movie, c: Movie | RuntimeBefore(a, c)
      ensures RuntimeBefore(a, b) || RuntimeBefore(b, c)
    {
      Strings.LessTotal(a.title, b.title);
      if Strings.Less(b.title, a.title) && Strings.Less(a.title, c.title) {
        Strings.LessTransitive(b.title, a.title, c.title);
      }
    }
  }

  /** Two movies collapse in the runtime-ordered set exactly when they share runtime and title. */
  lemma RuntimeTied()
    ensures forall a: Movie, b: Movie ::
      OrderedSets.Tied(RuntimeBefore, a, b) <==> a.runtimeMinutes == b.runtimeMinutes && a.title == b.title
  {
    forall a: Movie, b: Movie
      ensures OrderedSets.Tied(RuntimeBefore, a, b) <==> a.runtimeMinutes == b.runtimeMinutes && a.title == b.title
    {
      Strings.LessTotal(a.title, b.title);
      Strings.LessIrreflexive(a.title);
    }
  }

  predicate InRuntimeRange(m: Movie, titleType: TitleType, start: int, end: int)
  {
    m.titleType == titleType && m.runtimeMinutes >= start && m.runtimeMinutes <= end
  }

  function RuntimeFilter(titleType: TitleType, start: int, end: int): Movie -> bool
  {
    (m: Movie) => InRuntimeRange(m, titleType, start, end)
  }

  /** The matching movies added to a TreeSet ordered by the runtime comparator. */
  function MoviesByRuntime(db: Imdb, titleType: TitleType, start: int, end: int): (r: seq<Movie>)
    ensures forall m :: m in r ==> m in db.movieList && InRuntimeRange(m, titleType, start, end)
    ensures start > end ==> r == []
  {
    var r := OrderedSets.AddAll(Seqs.Filter(db.movieList, RuntimeFilter(titleType, start, end)), RuntimeBefore);
    assert |r| > 0 ==> r[0] in r;
    r
  }

  /** Only listed movies of the type with runtime in `[start, end]`, strictly
      ordered by runtime descending then title, every matching movie represented
      by one with its runtime and title; an empty range gives an empty answer. */
  lemma MoviesByRuntimeSpec(db: Imdb, titleType: TitleType, start: int, end: int)
    ensures var r := MoviesByRuntime(db, titleType, start, end);
      && (forall m :: m in r ==> m in db.movieList && m.titleType == titleType && start <= m.runtimeMinutes <= end)
      && (forall i, j :: 0 <= i < j < |r| ==> RuntimeBefore(r[i], r[j]))
      && (forall m :: m in db.movieList && InRuntimeRange(m, titleType, start, end) ==>
            exists e :: e in r && e.runtimeMinutes == m.runtimeMinutes && e.title == m.title)
      && (start > end ==> r == [])
  {
    var xs := db.movieList;
    var keep := RuntimeFilter(titleType, start, end);
    var r := MoviesByRuntime(db, titleType, start, end);
    assert OrderedSets.Sorted(r, RuntimeBefore) by {
      RuntimeOrder();
      OrderedSets.AddAllFilterSorted(xs, keep, RuntimeBefore);
    }
    forall m | m in xs && InRuntimeRange(m, titleType, start, end)
      ensures exists e :: e in r && e.runtimeMinutes == m.runtimeMinutes && e.title == m.title
    {
      var i :| 0 <= i < |xs| && xs[i] == m;
      assert keep(xs[i]);
      assert OrderedSets.HasTied(r, m, RuntimeBefore) by {
        RuntimeOrder();
        OrderedSets.AddAllFilterTied(xs, keep, RuntimeBefore);
      }
      var e :| e in r && OrderedSets.Tied(RuntimeBefore, e, m);
      RuntimeTied();
    }
  }

  /** The movie kept for a (runtime, title) key is the first matching movie in
      the list with that key. */
  lemma MoviesByRuntimeKeepsFirst(db: Imdb, titleType: TitleType, start: int, end: int, i: int)
    requires 0 <= i < |db.movieList| && InRuntimeRange(db.movieList[i], titleType, start, end)
    requires forall j :: 0 <= j < i && InRuntimeRange(db.movieList[j], titleType, start, end) ==>
               db.movieList[j].runtimeMinutes != db.movieList[i].runtimeMinutes || db.movieList[j].title != db.movieList[i].title
    ensures db.movieList[i] in MoviesByRuntime(db, titleType, start, end)
  {
    var xs := db.movieList;
    var keep := RuntimeFilter(titleType, start, end);
    RuntimeTied();
    assert OrderedSets.FirstOfTieClass(xs, keep, RuntimeBefore, i);
    RuntimeOrder();
    OrderedSets.AddAllFilterFirst(xs, keep, RuntimeBefore);
  }

  // ----- getMoviesMostVotes -----

  /** The listed movies of one title type, in list order. */
  function OfType(ms: seq<Movie>, titleType: TitleType): seq<Movie>
  {
    Seqs.Filter(ms, (m: Movie) => m.titleType == titleType)
  }

  /** The movies of the type, stably sorted by descending votes, cut to the first
      `num`; `subList` fails unless `0 <= num <= count`. On success: `num` movies
      of the type, in non-increasing vote order, none beaten by a movie left out. */
  function MoviesMostVotes(db: Imdb, num: int, titleType: TitleType): (r: Result<seq<Movie>, QueryError>)
    ensures r.Success? <==> 0 <= num <= |OfType(db.movieList, titleType)|
    ensures r.Failure? ==> r.error == SubListOutOfRange
    ensures r.Success? ==> |r.value| == num && multiset(r.value) <= multiset(OfType(db.movieList, titleType))
    ensures r.Success? ==> forall m :: m in r.value ==> m in db.movieList && m.titleType == titleType
    ensures r.Success? ==> VoteSort.ByVotesDescending(r.value)
    ensures r.Success? ==>
      forall a, b :: a in r.value && b in multiset(OfType(db.movieList, titleType)) - multiset(r.value) ==>
        VoteSort.Votes(b) <= VoteSort.Votes(a)
    ensures r.Success? ==>
      forall v :: VoteSort.WithVotes(r.value, v) <= VoteSort.WithVotes(OfType(db.movieList, titleType), v)
  {
    var matching := OfType(db.movieList, titleType);
    var sorted := VoteSort.Sort(matching);
    VoteSort.SortedPrefix(matching, num);
    if 0 <= num <= |sorted| then
      VoteSort.SortedPrefixStable(matching, num);
      Success(sorted[..num])
    else
      Failure(SubListOutOfRange)
  }

  // ----- getMoviesTopRated -----

  predicate TopRankable(m: Movie, titleType: TitleType, start: int, end: int)
  {
    && m.rating.numVotes >= MinNumVotesForTopRanked
    && m.titleType == titleType
    && m.year >= start
    && m.year <= end
  }

  function TopRankableFilter(titleType: TitleType, start: int, end: int): Movie -> bool
  {
    (m: Movie) => TopRankable(m, titleType, start, end)
  }

  function RatingOf(m: Movie): Rating
  {
    m.rating
  }

  /** The TreeSet of the qualifying movies' ratings; `before` is the rating order. */
  function OrderedRatings(db: Imdb, titleType: TitleType, start: int, end: int, before: (Rating, Rating) -> bool): (r: seq<Rating>)
    ensures forall x :: x in r ==> exists m :: m in db.movieList && TopRankable(m, titleType, start, end) && RatingOf(m) == x
  {
    var qualifying := Seqs.Filter(db.movieList, TopRankableFilter(titleType, start, end));
    var ratings := Seqs.Map(qualifying, RatingOf);
    assert forall x :: x in ratings ==> exists m :: m in db.movieList && TopRankable(m, titleType, start, end) && RatingOf(m) == x by {
      forall x | x in ratings
        ensures exists m :: m in db.movieList && TopRankable(m, titleType, start, end) && RatingOf(m) == x
      {
        var i :| 0 <= i < |ratings| && ratings[i] == x;
        assert qualifying[i] in qualifying;
      }
    }
    OrderedSets.AddAll(ratings, before)
  }

  /** The years `start..end`, both inclusive. */
  function Years(start: int, end: int): (ys: set<int>)
    ensures forall y :: y in ys <==> start <= y <= end
    decreases end - start
  {
    if start > end then {} else {start} + Years(start + 1, end)
  }

  /** One empty list per year of `[start, end]`. */
  function EmptyBuckets(start: int, end: int): (b: map<int, seq<Movie>>)
    ensures forall y :: y in b <==> start <= y <= end
    ensures forall y :: y in b ==> b[y] == []
  {
    map y | y in Years(start, end) :: []
  }

  /** The distribution loop: each rating's movie goes to its year's list when that
      list is empty or shorter than `num`. A missing index entry or year list is
      the null dereference of the loop body. */
  function Distribute(db: Imdb, ratings: seq<Rating>, num: int, buckets: map<int, seq<Movie>>): (r: Result<map<int, seq<Movie>>, QueryError>)
    ensures r.Success? ==> r.value.Keys == buckets.Keys
    decreases |ratings|
  {
    if |ratings| == 0 then Success(buckets)
    else
      var id := ratings[0].id;
      if id !in db.movieMap then Failure(MissingEntry)
      else
        var movie := db.movieMap[id];
        if movie.year !in buckets then Failure(MissingEntry)
        else
          var bucket := buckets[movie.year];
          var bucket' :=
            if |bucket| == 0 then bucket + [movie]
            else if |bucket| < num then bucket + [movie]
            else bucket;
          Distribute(db, ratings[1..], num, buckets[movie.year := bucket'])
  }

  /** Top-rated movies per year of `[start, end]`; every year of the range is a key. */
  function MoviesTopRated(db: Imdb, num: int, titleType: TitleType, start: int, end: int, before: (Rating, Rating) -> bool): (r: Result<map<int, seq<Movie>>, QueryError>)
    ensures r.Success? ==> forall y :: y in r.value <==> start <= y <= end
  {
    Distribute(db, OrderedRatings(db, titleType, start, end, before), num, EmptyBuckets(start, end))
  }

  // Reference definition of the top-rated answer.

  /** The rating order lifted to movies. */
  function ByRating(before: (Rating, Rating) -> bool): (Movie, Movie) -> bool
  {
    (a: Movie, b: Movie) => before(a.rating, b.rating)
  }

  lemma ByRatingOrder(before: (Rating, Rating) -> bool)
    requires OrderedSets.StrictWeakOrder(before)
    ensures OrderedSets.StrictWeakOrder(ByRating(before))
  {
    var lifted := ByRating(before);
    forall a: Movie ensures !lifted(a, a) {
      assert !before(a.rating, a.rating);
    }
    forall a: Movie, b: Movie, c: Movie | lifted(a, b) && lifted(b, c) ensures lifted(a, c) {
      assert before(a.rating, b.rating) && before(b.rating, c.rating);
    }
    forall a: Movie, b: Movie, c: Movie | lifted(a, c) ensures lifted(a, b) || lifted(b, c) {
      assert before(a.rating, c.rating) ==> before(a.rating, b.rating) || before(b.rating, c.rating);
    }
  }

  /** The qualifying movies, one per rating tie class, in rating order. */
  function Ranked(db: Imdb, titleType: TitleType, start: int, end: int, before: (Rating, Rating) -> bool): seq<Movie>
  {
    OrderedSets.AddAll(Seqs.Filter(db.movieList, TopRankableFilter(titleType, start, end)), ByRating(before))
  }

  /** At most this many movies land in one year's list: `num`, but never fewer than one. */
  function Cap(num: int): nat
  {
    if num < 1 then 1 else num
  }

  /** The movies of `ms` released in year `y`, in order. */
  function OfYear(ms: seq<Movie>, y: int): (r: seq<Movie>)
    ensures forall m :: m in r <==> m in ms && m.year == y
    decreases |ms|
  {
    if |ms| == 0 then []
    else
      assert ms == [ms[0]] + ms[1..];
      if ms[0].year == y then [ms[0]] + OfYear(ms[1..], y) else OfYear(ms[1..], y)
  }

  lemma {:induction false} OfYearSorted(ms: seq<Movie>, y: int, before: (Movie, Movie) -> bool)
    requires OrderedSets.Sorted(ms, before)
    ensures OrderedSets.Sorted(OfYear(ms, y), before)
    decreases |ms|
  {
    if |ms| > 0 {
      OfYearSorted(ms[1..], y, before);
      var rest := OfYear(ms[1..], y);
      if ms[0].year == y {
        var r := OfYear(ms, y);
        forall i, j | 0 <= i < j < |r| ensures before(r[i], r[j]) {
          if i == 0 {
            assert r[j] == rest[j - 1] && r[j] in ms[1..];
          } else {
            assert r[i] == rest[i - 1] && r[j] == rest[j - 1];
          }
        }
      }
    }
  }

  /** The top of year `y`: its first `Cap(num)` movies in rating order. */
  function TopOfYear(ranked: seq<Movie>, y: int, num: int): seq<Movie>
  {
    Seqs.Take(OfYear(ranked, y), Cap(num))
  }

  /** Each year's list of `buckets` extended by the movies of `ms` of that year,
      in order, then cut to `Cap(num)` entries. */
  function Fill(buckets: map<int, seq<Movie>>, ms: seq<Movie>, num: int): map<int, seq<Movie>>
  {
    map y | y in buckets :: Seqs.Take(buckets[y] + OfYear(ms, y), Cap(num))
  }

  lemma FillNothing(buckets: map<int, seq<Movie>>, num: int)
    requires forall y :: y in buckets ==> |buckets[y]| <= Cap(num)
    ensures Fill(buckets, [], num) == buckets
  {
    forall y | y in buckets ensures Seqs.Take(buckets[y] + OfYear([], y), Cap(num)) == buckets[y] {
      assert buckets[y] + OfYear([], y) == buckets[y];
    }
  }

  /** Filling with `[m] + rest` is filling `m` into its year's list, then `rest`. */
  lemma FillStep(buckets: map<int, seq<Movie>>, ms: seq<Movie>, num: int)
    requires |ms| > 0 && ms[0].year in buckets
    ensures Fill(buckets, ms, num)
         == Fill(buckets[ms[0].year := Seqs.Take(buckets[ms[0].year] + [ms[0]], Cap(num))], ms[1..], num)
  {
    var m := ms[0];
    var c := Cap(num);
    var next := buckets[m.year := Seqs.Take(buckets[m.year] + [m], c)];
    forall y | y in buckets
      ensures Seqs.Take(next[y] + OfYear(ms[1..], y), c) == Seqs.Take(buckets[y] + OfYear(ms, y), c)
    {
      if y == m.year {
        Seqs.TakeAppend(buckets[y] + [m], OfYear(ms[1..], y), c);
        assert buckets[y] + [m] + OfYear(ms[1..], y) == buckets[y] + OfYear(ms, y);
      }
    }
  }

  /** The distribution loop over the ratings of `ms` appends to each year's list
      the movies of that year, in order, up to `Cap(num)` entries. */
  lemma {:induction false} DistributeSpec(db: Imdb, ms: seq<Movie>, num: int, buckets: map<int, seq<Movie>>)
    requires forall m :: m in ms ==> m.rating.id in db.movieMap && db.movieMap[m.rating.id] == m && m.year in buckets
    requires forall y :: y in buckets ==> |buckets[y]| <= Cap(num)
    ensures Distribute(db, Seqs.Map(ms, RatingOf), num, buckets) == Success(Fill(buckets, ms, num))
    decreases |ms|
  {
    var rs := Seqs.Map(ms, RatingOf);
    if |ms| == 0 {
      FillNothing(buckets, num);
    } else {
      var m := ms[0];
      assert rs[0] == RatingOf(m) == m.rating;
      assert rs[1..] == Seqs.Map(ms[1..], RatingOf);
      var b := buckets[m.year];
      var b' := if |b| == 0 then b + [m] else if |b| < num then b + [m] else b;
      assert b' == Seqs.Take(b + [m], Cap(num));
      var next := buckets[m.year := b'];
      assert Distribute(db, rs, num, buckets) == Distribute(db, rs[1..], num, next);
      assert forall x :: x in ms[1..] ==> x in ms;
      DistributeSpec(db, ms[1..], num, next);
      FillStep(buckets, ms, num);
    }
  }

  /** The ratings TreeSet is the ranked movies' ratings. */
  lemma OrderedRatingsOfRanked(db: Imdb, titleType: TitleType, start: int, end: int, before: (Rating, Rating) -> bool)
    ensures OrderedRatings(db, titleType, start, end, before) == Seqs.Map(Ranked(db, titleType, start, end, before), RatingOf)
  {
    var candidates := Seqs.Filter(db.movieList, TopRankableFilter(titleType, start, end));
    OrderedSets.AddAllMap(candidates, RatingOf, ByRating(before), before);
  }

  /** Ranked movies are listed, qualifying movies. */
  lemma RankedQualifies(db: Imdb, titleType: TitleType, start: int, end: int, before: (Rating, Rating) -> bool)
    ensures forall m :: m in Ranked(db, titleType, start, end, before) ==>
      m in db.movieList && TopRankable(m, titleType, start, end)
  {
  }

  /** Under the loader's guarantee the query never fails, and year `y` of
      `[start, end]` holds the top `Cap(num)` qualifying movies of `y` in rating order. */
  lemma TopRatedSpec(db: Imdb, num: int, titleType: TitleType, start: int, end: int, before: (Rating, Rating) -> bool)
    requires Consistent(db)
    ensures MoviesTopRated(db, num, titleType, start, end, before)
         == Success(map y | y in Years(start, end) :: TopOfYear(Ranked(db, titleType, start, end, before), y, num))
  {
    var ranked := Ranked(db, titleType, start, end, before);
    var buckets := EmptyBuckets(start, end);
    OrderedRatingsOfRanked(db, titleType, start, end, before);
    assert MoviesTopRated(db, num, titleType, start, end, before)
        == Distribute(db, Seqs.Map(ranked, RatingOf), num, buckets);
    RankedIndexed(db, titleType, start, end, before);
    DistributeSpec(db, ranked, num, buckets);
    FillEmpty(start, end, ranked, num);
  }

  /** Under the loader's guarantee the index maps each ranked movie's rating id
      back to the movie, whose year has a list. */
  lemma RankedIndexed(db: Imdb, titleType: TitleType, start: int, end: int, before: (Rating, Rating) -> bool)
    requires Consistent(db)
    ensures forall m :: m in Ranked(db, titleType, start, end, before) ==>
      m.rating.id in db.movieMap && db.movieMap[m.rating.id] == m && m.year in EmptyBuckets(start, end)
  {
    RankedQualifies(db, titleType, start, end, before);
  }

  lemma FillEmpty(start: int, end: int, ms: seq<Movie>, num: int)
    ensures Fill(EmptyBuckets(start, end), ms, num) == map y | y in Years(start, end) :: TopOfYear(ms, y, num)
  {
    var buckets := EmptyBuckets(start, end);
    forall y | y in buckets ensures buckets[y] + OfYear(ms, y) == OfYear(ms, y) {
      assert buckets[y] == [];
    }
  }

  /** Every year's list holds listed, qualifying movies of that year, at most
      `Cap(num)` of them, in the global rating order. */
  lemma TopRatedBuckets(db: Imdb, num: int, titleType: TitleType, start: int, end: int, before: (Rating, Rating) -> bool)
    requires Consistent(db)
    requires OrderedSets.StrictWeakOrder(before)
    ensures var r := MoviesTopRated(db, num, titleType, start, end, before);
      && r.Success?
      && (forall y, m :: y in r.value && m in r.value[y] ==>
            m in db.movieList && m.year == y && TopRankable(m, titleType, start, end))
      && (forall y :: y in r.value ==> |r.value[y]| <= Cap(num))
      && (forall y, i, j :: y in r.value && 0 <= i < j < |r.value[y]| ==>
            before(r.value[y][i].rating, r.value[y][j].rating))
  {
    TopRatedSpec(db, num, titleType, start, end, before);
    var ranked := Ranked(db, titleType, start, end, before);
    RankedQualifies(db, titleType, start, end, before);
    assert OrderedSets.Sorted(ranked, ByRating(before)) by {
      ByRatingOrder(before);
      OrderedSets.AddAllFilterSorted(db.movieList, TopRankableFilter(titleType, start, end), ByRating(before));
    }
    forall y | y in Years(start, end) {
      TopOfYearShape(ranked, y, num, before);
    }
  }

  /** One year's list: ranked movies of that year, at most `Cap(num)`, in rating order. */
  lemma TopOfYearShape(ranked: seq<Movie>, y: int, num: int, before: (Rating, Rating) -> bool)
    requires OrderedSets.Sorted(ranked, ByRating(before))
    ensures forall m :: m in TopOfYear(ranked, y, num) ==> m in ranked && m.year == y
    ensures |TopOfYear(ranked, y, num)| <= Cap(num)
    ensures forall i, j :: 0 <= i < j < |TopOfYear(ranked, y, num)| ==>
      before(TopOfYear(ranked, y, num)[i].rating, TopOfYear(ranked, y, num)[j].rating)
  {
    var s := OfYear(ranked, y);
    var b := TopOfYear(ranked, y, num);
    OfYearSorted(ranked, y, ByRating(before));
    Seqs.TakePrefix(s, Cap(num));
    forall i, j | 0 <= i < j < |b| ensures before(b[i].rating, b[j].rating) {
      assert ByRating(before)(s[i], s[j]);
    }
  }

  /** With a total rating order every qualifying movie is ranked: ties that
      would collapse two movies cannot occur, since ratings name their movies. */
  lemma RankedHoldsQualifying(db: Imdb, titleType: TitleType, start: int, end: int, before: (Rating, Rating) -> bool, m: Movie)
    requires Consistent(db)
    requires OrderedSets.StrictTotalOrder(before)
    requires m in db.movieList && TopRankable(m, titleType, start, end)
    ensures m in Ranked(db, titleType, start, end, before)
  {
    var xs := db.movieList;
    var keep := TopRankableFilter(titleType, start, end);
    var ranked := Ranked(db, titleType, start, end, before);
    var i :| 0 <= i < |xs| && xs[i] == m;
    assert keep(xs[i]);
    assert OrderedSets.HasTied(ranked, m, ByRating(before)) by {
      ByRatingOrder(before);
      OrderedSets.AddAllFilterTied(xs, keep, ByRating(before));
    }
    var e :| e in ranked && OrderedSets.Tied(ByRating(before), e, m);
    RankedQualifies(db, titleType, start, end, before);
    assert !before(e.rating, m.rating) && !before(m.rating, e.rating);
    assert e.rating == m.rating;
    SameIdSameMovie(db, e, m);
  }

  /** With a total rating order, the list of a qualifying movie's year is never
      empty, and the movie is left out only when the list is full and every
      movie in it is rated before it. */
  lemma TopRatedComplete(db: Imdb, num: int, titleType: TitleType, start: int, end: int, before: (Rating, Rating) -> bool)
    requires Consistent(db)
    requires OrderedSets.StrictTotalOrder(before)
    ensures var r := MoviesTopRated(db, num, titleType, start, end, before);
      && r.Success?
      && (forall m :: m in db.movieList && TopRankable(m, titleType, start, end) ==>
            && m.year in r.value
            && |r.value[m.year]| > 0
            && (m !in r.value[m.year] ==>
                  && |r.value[m.year]| == Cap(num)
                  && forall e :: e in r.value[m.year] ==> before(e.rating, m.rating)))
  {
    TopRatedSpec(db, num, titleType, start, end, before);
    var ranked := Ranked(db, titleType, start, end, before);
    assert OrderedSets.Sorted(ranked, ByRating(before)) by {
      ByRatingOrder(before);
      OrderedSets.AddAllFilterSorted(db.movieList, TopRankableFilter(titleType, start, end), ByRating(before));
    }
    forall m | m in db.movieList && TopRankable(m, titleType, start, end)
      ensures var b := TopOfYear(ranked, m.year, num);
        && |b| > 0
        && (m !in b ==> |b| == Cap(num) && forall e :: e in b ==> before(e.rating, m.rating))
    {
      RankedHoldsQualifying(db, titleType, start, end, before, m);
      var s := OfYear(ranked, m.year);
      var b := TopOfYear(ranked, m.year, num);
      assert m in s;
      Seqs.TakePrefix(s, Cap(num));
      assert b[0] == s[0];
      if m !in b {
        var k := Seqs.NotInTake(s, Cap(num), m);
        OfYearSorted(ranked, m.year, ByRating(before));
        forall e | e in b ensures before(e.rating, m.rating) {
          var i :| 0 <= i < |b| && b[i] == e;
          assert ByRating(before)(s[i], s[k]);
        }
      }
    }
  }
}
