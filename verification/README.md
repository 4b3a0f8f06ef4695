# MyIMDB query kernel in Dafny

This project models the query kernel of `MyIMDB`, a movie database exercise.
The kernel answers six read-only queries over two loaded inputs: `movieList`, the
movies in load order, and `movieMap`, an index from movie id to movie. The queries are:

- substring search over titles (`getMovieTitleWithWords`);
- point lookup by id (`findMovieByID`);
- the year-and-genre filter, collected into a TreeSet ordered by title, then year (`getMoviesByYearAndGenre`);
- the runtime-range filter, collected into a TreeSet ordered by runtime descending, then title (`getMoviesByRuntime`);
- the top-N movies by vote count (`getMoviesMostVotes`);
- the top-rated movies per year, with a 1000-vote threshold (`getMoviesTopRated`).

Every query is a pure function of the dataset (`Movies.Imdb`) and its arguments.
Title types and genres are passed as enumeration values.

Files and modules:

- `results.dfy` (`Results`): `Option` (a possibly-null reference) and `Result` (a value or an exception).
- `seqs.dfy` (`Seqs`): the stream `filter`, element-wise `map`, taking a prefix, and the subsequence relation.
- `strings.dfy` (`Strings`): `String.contains` and the lexicographic order of `String.compareTo`.
- `ordered_sets.dfy` (`OrderedSets`): a `TreeSet` filled by repeated `add`, as a sorted sequence. The comparator is a relation `before`. Two elements are tied when neither is before the other, that is, when the comparator returns 0. Adding an element that ties with a member leaves the set unchanged, so the earliest-added element of each tie class is the one kept.
- `movies.dfy` (`Movies`): the `Movie`, `Rating` and `Imdb` records, the loader's consistency invariant (`Consistent`), and the natural order of movies (title, then year).
- `vote_sort.dfy` (`VoteSort`): the stable sort by descending votes that `List.sort` performs with the votes comparator.
- `my_imdb.dfy` (`MyImdb`): the queries and their properties.

Source and documentation disagree in three places. In each case the model follows the code:

- The title search ignores its `type` argument and always searches `MOVIE` (see Findings).
- `getMoviesMostVotes` does not clamp `num`. Its `subList(0, num)` throws, and the model returns `Failure(SubListOutOfRange)`.
- `getMoviesTopRated` always adds the first movie of a year, even when `num <= 0`. So a year's list holds up to `Cap(num) = max(num, 1)` movies.

## Model

| member | source | states |
|---|---|---|
| `MyImdb.MovieTitleWithWords` | src/movies/MyIMDB.java:41-53 | A movie is in the result exactly when it is listed, has type MOVIE and its title contains `words`. The result keeps list order (a subsequence of `movieList`). An empty `words` keeps every listed MOVIE. |
| `MyImdb.MovieTitleWithWordsIgnoresType` | src/movies/MyIMDB.java:47 | The result is the same whatever title type is requested. |
| `MyImdb.TitleTypeArgumentIgnored` | src/movies/MyIMDB.java:47-51 | Counterexample: a TV_SHOW search for "Alien" misses a TV_SHOW titled "Alien". The type-honouring search returns it. |
| `MyImdb.MovieTitleWithWordsOfType` | src/movies/MyIMDB.java:34-51 | The search as documented: membership is exactly listed movies of the requested type whose title contains `words`, in list order. |
| `Strings.Contains` | src/movies/MyIMDB.java:50 | `contains` holds exactly when `words` occurs at some index of the title. The empty string occurs everywhere. |
| `Seqs.Filter` | src/movies/MyIMDB.java:49-51 | The filtered stream holds exactly the elements that pass the test. It is no longer than the input and is a subsequence of it. |
| `Seqs.FilterCounts` | src/movies/MyIMDB.java:49-51 | The filter keeps every occurrence of a passing element, so each one appears as often as in the input, and drops every occurrence of a failing one. |
| `Movies.Consistent` | src/movies/MyIMDB.java:180-181 | The loader's invariant, which the code relies on when it looks a rating's id up in `movieMap`: ids are unique, each listed movie is indexed under its id, and each index entry is a listed movie with that id. Under it, the index's values are exactly the listed movies. |
| `MyImdb.FindMovieById` | src/movies/MyIMDB.java:63-67 | For a consistent dataset, the lookup succeeds exactly when some listed movie has the id. What it returns is a listed movie with that id. |
| `MyImdb.FindMovieByIdInverse` | src/movies/MyIMDB.java:63-67 | For a consistent dataset, looking up any listed movie's id returns that movie. |
| `Movies.NaturalOrder` | src/movies/MyIMDB.java:80-82 | The title-then-year order is a strict weak order, so it is a valid TreeSet comparator. |
| `Movies.NaturalTied` | src/movies/MyIMDB.java:80-82 | Two movies compare equal under the natural order exactly when they share title and year. |
| `MyImdb.MoviesByYearAndGenre` | src/movies/MyIMDB.java:79-92 | Every movie in the TreeSet is a listed movie with the requested type, year and genre. Its order, completeness and which movie is kept are stated by the next two lemmas. |
| `OrderedSets.Add` | src/movies/MyIMDB.java:88-90 | `TreeSet.add` keeps every member and introduces nothing but the added element. |
| `OrderedSets.AddAll` | src/movies/MyIMDB.java:121-125 | A TreeSet filled by adding a stream's elements holds only elements of that stream. |
| `MyImdb.MoviesByYearAndGenreSpec` | src/movies/MyIMDB.java:79-92 | Every result movie is listed and has the requested type, year and genre. The result is strictly ascending by (title, year), so there are no duplicate keys. Every matching movie has a result movie with its title and year. |
| `MyImdb.MoviesByYearAndGenreKeepsFirst` | src/movies/MyIMDB.java:82-90 | The first matching movie in the list with a given (title, year) is the one kept. |
| `OrderedSets.AddAllFilter` | src/movies/MyIMDB.java:88-90 | A TreeSet filled from a filtered stream is strictly sorted. It holds only elements that passed the filter. It holds a tie-mate of every element that passed, and it holds every element that was first of its tie class. |
| `MyImdb.RuntimeOrder` | src/movies/MyIMDB.java:109-117 | Runtime descending, then title ascending, is a strict weak order. |
| `MyImdb.RuntimeTied` | src/movies/MyIMDB.java:109-117 | Two movies compare equal under the runtime comparator exactly when they share runtime and title. |
| `MyImdb.MoviesByRuntime` | src/movies/MyIMDB.java:106-128 | Every movie in the TreeSet is a listed movie of the type with `start <= runtime <= end`. When `start > end`, the TreeSet is empty. |
| `MyImdb.MoviesByRuntimeSpec` | src/movies/MyIMDB.java:106-128 | Every result movie is listed, of the type, with `start <= runtime <= end`. The result is strictly ordered by runtime descending, then title. Every matching movie has a result movie with its runtime and title. `start > end` gives an empty result. |
| `MyImdb.MoviesByRuntimeKeepsFirst` | src/movies/MyIMDB.java:119-125 | The first matching movie in the list with a given (runtime, title) is the one kept. |
| `MyImdb.MoviesMostVotes` | src/movies/MyIMDB.java:139-152 | The query succeeds exactly when `0 <= num <= count` of movies of the type; otherwise it fails with `SubListOutOfRange`. On success the result has `num` listed movies of the type, drawn from them as a sub-multiset. The result is in non-increasing vote order, and no movie of the type left out has more votes than one kept. For every vote count, the kept movies with that count are a prefix of the movies of the type with that count, in list order. So when movies tie at the cut, the stable sort keeps the earliest listed ones. |
| `VoteSort.Sort` | src/movies/MyIMDB.java:150 | The sorted list is a permutation of its input, in non-increasing vote order. |
| `VoteSort.SortStable` | src/movies/MyIMDB.java:150 | The sort is stable: for every vote count, movies with that count keep their input order. |
| `VoteSort.SortedPrefix` | src/movies/MyIMDB.java:150-151 | The first `num` sorted movies come from the input and are vote-ordered. No movie outside them has more votes than one inside. |
| `VoteSort.SortedPrefixStable` | src/movies/MyIMDB.java:150-151 | For every vote count, the movies with that count among the first `num` sorted ones are the earliest movies with that count in input order. |
| `MyImdb.OrderedRatings` | src/movies/MyIMDB.java:169-176 | Every rating in the rating TreeSet is the rating of a listed movie of the type, of a year in `start..end`, with at least 1000 votes. |
| `MyImdb.EmptyBuckets` | src/movies/MyIMDB.java:177-179 | One entry per year: the keys are exactly `start..end`, and each maps to an empty list. |
| `MyImdb.Distribute` | src/movies/MyIMDB.java:180-188 | The distribution loop, when it does not fail, keeps exactly the year keys it started with. |
| `MyImdb.MoviesTopRated` | src/movies/MyIMDB.java:165-190 | When the query succeeds, its keys are exactly the years `start..end`, so they are empty when `start > end`. |
| `OrderedSets.AddAllMap` | src/movies/MyIMDB.java:169-176 | A TreeSet of ratings equals the ratings of the movie TreeSet ordered by rating. |
| `MyImdb.DistributeSpec` | src/movies/MyIMDB.java:180-188 | Over the ratings of movies that the index maps back to, the loop never fails. It extends each year's list with that year's movies in order and cuts it at `Cap(num)`. |
| `MyImdb.TopRatedSpec` | src/movies/MyIMDB.java:165-190 | For a consistent dataset, the query succeeds. Each year `y` in `start..end` maps to the first `Cap(num)` qualifying movies of year `y` in rating order. |
| `MyImdb.TopRatedBuckets` | src/movies/MyIMDB.java:171-188 | For a consistent dataset and a strict weak rating order, every year's list holds listed movies of that year. Each has the requested type and at least 1000 votes. A list holds at most `max(num, 1)` movies and follows the global rating order. |
| `MyImdb.RankedHoldsQualifying` | src/movies/MyIMDB.java:169-176 | With a total rating order, every qualifying movie survives the rating TreeSet. |
| `MyImdb.TopRatedComplete` | src/movies/MyIMDB.java:180-188 | With a total rating order, a qualifying movie's year list is never empty. A qualifying movie is left out only when its list already holds `Cap(num)` movies, and each of those is rated before it. |

## Left out

- Construction and loading (`MyIMDB(boolean)`, the `IMDB` base class, `FileNotFoundException`) are file I/O. The dataset is an input, and `Movies.Consistent` states what the loader guarantees.
- `TitleType.valueOf` and `Genre.valueOf` are library code. The queries take enumeration values, so an invalid token cannot be expressed. The constants declared for `TitleType` and `Genre` are a representative selection, because the enumerations' own files are not part of this model; the queries only test them for equality.
- `Movie`, `Rating`, `Rating.compareTo` and `MovieComparatorVotes` are not part of this model. Movies and ratings are records. The natural order and the votes order are taken from the comments in the query code. The rating order is a parameter `before`.
- `MyImdb.TopRatedComplete`: assumes a total rating order. If `Rating.compareTo` returned 0 for two different ratings, the TreeSet would keep only one of them, and the other movie could be missing from a non-full list. `TopRatedBuckets` and `TopRatedSpec` do not need this assumption.
- `MyImdb.RankedHoldsQualifying`: assumes a total rating order, for the same reason.
- `MyImdb.MoviesTopRated`: years are unbounded integers. In the source, the loop `for (int i = start; i <= end; i++)` never ends when `end` is `Integer.MAX_VALUE`: `i++` wraps to `Integer.MIN_VALUE`, so `i <= end` stays true and the `TreeMap` grows until memory runs out. For that `end`, the model returns the years `start..end` instead.
- `Seqs.Filter`: its own contract states membership, length and order. The number of occurrences is stated by the separate lemma `Seqs.FilterCounts`, because as a postcondition of `Filter` it makes every TreeSet proof far more costly.
- The runtime comparator subtracts two `int` runtimes, which can overflow. The model compares runtimes as unbounded integers.
- `String.compareTo` compares UTF-16 code units. The model compares Dafny characters, which differ only for characters outside the Basic Multilingual Plane.
- `LinkedList`, `TreeSet`, `TreeMap` and streams are modelled as sequences, sorted sequences and maps. The ascending key order of the result `TreeMap` is not modelled, and neither is the fact that `subList` returns a view of its list.
- `subList` throws `IndexOutOfBoundsException` when `num` exceeds the count and `IllegalArgumentException` when `num` is negative. Both become the one error `SubListOutOfRange`.
- Idempotence across repeated calls holds because every query is a pure function, so it is not stated separately.

## Findings

| source | as written | input that shows it | evidently intended | confidence | as-written member | corrected member |
|---|---|---|---|---|---|---|
| src/movies/MyIMDB.java:47 | The title type is `TitleType.valueOf("MOVIE")`, and the `type` argument is never read. | `type` = TV_SHOW, `words` = "Alien", and the list holds one TV_SHOW titled "Alien": the result is empty. | Filter by `TitleType.valueOf(type)`, as the Javadoc and the other four queries do. | medium (the line sits under a classroom TODO), not executed | `MyImdb.MovieTitleWithWords`, `MyImdb.TitleTypeArgumentIgnored` | `MyImdb.MovieTitleWithWordsOfType` |
