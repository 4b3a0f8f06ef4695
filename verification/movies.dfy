/** The records the queries read: movies with their ratings, the dataset
    (`movieList` plus the id index `movieMap`), and the natural order of movies. */
module Movies {
  import Strings
  import OrderedSets

  /** Title types, spelled as the tokens `TitleType.valueOf` accepts.
      The queries only compare them for equality. */
  datatype TitleType = MOVIE | SHORT | TV_SHOW | TV_MOVIE | VIDEO

  /** Genres, spelled as the tokens `Genre.valueOf` accepts. */
  datatype Genre = Action | Adventure | Animation | Comedy | Crime | Documentary | Drama | Horror | Romance | Thriller

  /** A movie's aggregate rating: the id of the movie it rates, the average score
      and the number of votes. */
  datatype Rating = Rating(id: string, score: real, numVotes: int)

  datatype Movie = Movie(
    id: string,
    title: string,
    titleType: TitleType,
    year: int,
    genres: set<Genre>,
    runtimeMinutes: int,
    rating: Rating)

  /** The loaded dataset: every movie in load order, and the index from id to movie. */
  datatype Imdb = Imdb(movieList: seq<Movie>, movieMap: map<string, Movie>)

  /** What the loader guarantees: ids are unique in the list, the index maps
      exactly the listed ids to their movies, and every rating names its own movie. */
  ghost predicate Consistent(db: Imdb): (b: bool)
    ensures b ==> forall m :: m in db.movieList <==> m in db.movieMap.Values
  {
    && (forall i, j :: 0 <= i < j < |db.movieList| ==> db.movieList[i].id != db.movieList[j].id)
    && (forall m :: m in db.movieList ==> m.id in db.movieMap && db.movieMap[m.id] == m)
    && (forall id :: id in db.movieMap ==> db.movieMap[id] in db.movieList && db.movieMap[id].id == id)
    && (forall m :: m in db.movieList ==> m.rating.id == m.id)
  }

  /** Under the loader's guarantee a movie is determined by its id. */
  lemma SameIdSameMovie(db: Imdb, a: Movie, b: Movie)
    requires Consistent(db) && a in db.movieList && b in db.movieList
    requires a.id == b.id
    ensures a == b
  {
  }

  /** The natural order of movies (`Movie.compareTo`): by title, then by year. */
  predicate NaturalBefore(a: Movie, b: Movie)
  {
    Strings.Less(a.title, b.title) || (a.title == b.title && a.year < b.year)
  }

  lemma NaturalOrder()
    ensures OrderedSets.StrictWeakOrder(NaturalBefore)
  {
    forall a: Movie ensures !NaturalBefore(a, a) {
      Strings.LessIrreflexive(a.title);
    }
    forall a: Movie, b: Movie, c: Movie | NaturalBefore(a, b) && NaturalBefore(b, c)
      ensures NaturalBefore(a, c)
    {
      if Strings.Less(a.title, b.title) && Strings.Less(b.title, c.title) {
        Strings.LessTransitive(a.title, b.title, c.title);
      }
    }
    forall a: Movie, b: Movie, c: Movie | NaturalBefore(a, c)
      ensures NaturalBefore(a, b) || NaturalBefore(b, c)
    {
      Strings.LessTotal(a.title, b.title);
      if Strings.Less(b.title, a.title) && Strings.Less(a.title, c.title) {
        Strings.LessTransitive(b.title, a.title, c.title);
      }
    }
  }

  /** Two movies collapse in a naturally ordered set exactly when they share title and year. */
  lemma NaturalTied()
    ensures forall a: Movie, b: Movie ::
      OrderedSets.Tied(NaturalBefore, a, b) <==> a.title == b.title && a.year == b.year
  {
    forall a: Movie, b: Movie
      ensures OrderedSets.Tied(NaturalBefore, a, b) <==> a.title == b.title && a.year == b.year
    {
      Strings.LessTotal(a.title, b.title);
      Strings.LessIrreflexive(a.title);
    }
  }
}
