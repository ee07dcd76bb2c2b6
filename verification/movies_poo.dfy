/** The object-wrapper variant: records become `Movie` tuples whose genre
    field is already split into labels, the filter tests exact membership of
    the genre among those labels, and the reduction has no fallback for an
    empty selection. */
module MoviesPoo {
  import opened Records
  import opened Text
  import opened Ranking
  import Movies

  /** `namedtuple('Movie', ['name', 'imdb_rating', 'genre'])`. */
  datatype Movie = Movie(name: string, imdbRating: real, genre: seq<string>)

  /** `Movie(movie['name'], movie['imdb_rating'], movie['genre'].split(", "))`;
      indexing a missing key raises, shown as `None`. */
  function ToMovie(rec: RawRecord): (r: Option<Movie>)
    ensures r.Some? <==> rec.name.Some? && rec.imdbRating.Some? && rec.genre.Some?
    ensures r.Some? ==> r.value.name == rec.name.value && r.value.imdbRating == rec.imdbRating.value
    ensures r.Some? ==> |r.value.genre| >= 1 && Join(r.value.genre) == rec.genre.value
    ensures r.Some? ==> forall piece :: piece in r.value.genre ==> !ContainsSeparator(piece)
  {
    if rec.name.Some? && rec.imdbRating.Some? && rec.genre.Some? then
      JoinSplit(rec.genre.value);
      SplitPiecesHaveNoSeparator(rec.genre.value);
      Some(Movie(rec.name.value, rec.imdbRating.value, Split(rec.genre.value)))
    else
      None
  }

  /** The comprehension that fills `Movies._movies`: one movie per record, in
      order, or an error as soon as one record lacks a field. */
  function LoadMovies(records: seq<RawRecord>): (r: Option<seq<Movie>>)
    ensures r.Some? <==> forall k :: 0 <= k < |records| ==> ToMovie(records[k]).Some?
    ensures r.Some? ==> |r.value| == |records| && forall k :: 0 <= k < |records| ==> ToMovie(records[k]) == Some(r.value[k])
  {
    if records == [] then Some([])
    else
      match ToMovie(records[0])
      case None => None
      case Some(m) =>
        match LoadMovies(records[1..])
        case None => None
        case Some(rest) => Some([m] + rest)
  }

  /** `[movie for movie in movies if genre in movie.genre]`. */
  function FilterExact(genre: string, movies: seq<Movie>): (r: seq<Movie>)
    ensures forall m :: m in r <==> m in movies && genre in m.genre
  {
    Filter(movies, (m: Movie) => genre in m.genre)
  }

  /** The comprehension keeps the movies' order: filtering a concatenation
      is concatenating the filtered parts. */
  lemma FilterExactKeepsOrder(genre: string, a: seq<Movie>, b: seq<Movie>)
    ensures FilterExact(genre, a + b) == FilterExact(genre, a) + FilterExact(genre, b)
  {
    FilterConcat(a, b, (m: Movie) => genre in m.genre);
  }

  /** `(-float(movie.imdb_rating), movie.name)`. */
  function MovieKey(m: Movie): RankKey {
    RankKey(-m.imdbRating, m.name)
  }

  /** The reduction over the filtered movies. `reduce` without an initial
      value raises on an empty list, which the caller never guards against. */
  function BestMovie(genre: string, movies: seq<Movie>): (r: Movie)
    requires FilterExact(genre, movies) != []
    ensures r in movies && genre in r.genre
    ensures forall m :: m in movies && genre in m.genre ==> m.imdbRating <= r.imdbRating
    ensures forall m :: m in movies && genre in m.genre && m.imdbRating == r.imdbRating ==> !LexLess(m.name, r.name)
  {
    var filtered := FilterExact(genre, movies);
    var best := Reduce(filtered, MovieKey);
    BestIsMinimal(filtered, best);
    best
  }

  lemma BestIsMinimal(filtered: seq<Movie>, best: Movie)
    requires filtered != [] && best == Reduce(filtered, MovieKey)
    ensures forall m :: m in filtered ==> KeyLe(MovieKey(best), MovieKey(m))
  {
    forall m | m in filtered
      ensures KeyLe(MovieKey(best), MovieKey(m))
    {
      ReduceIsMinimal(filtered, MovieKey, m);
    }
  }

  /** On equal keys the earlier movie is kept: the result is the first
      position of the smallest key in the filtered list. */
  lemma BestMovieIsEarliest(genre: string, movies: seq<Movie>)
    requires FilterExact(genre, movies) != []
    ensures exists k :: (
      && IsFirstMinimal(FilterExact(genre, movies), MovieKey, k)
      && BestMovie(genre, movies) == FilterExact(genre, movies)[k])
  {
    ReduceIsFirstMinimal(FilterExact(genre, movies), MovieKey);
  }

  /** The exact test is stricter than the functional variant's: a movie
      whose labels hold the genre comes from a record that matches it
      ignoring case. */
  lemma ExactMatchMatchesIgnoringCase(genre: string, rec: RawRecord)
    requires ToMovie(rec).Some? && genre in ToMovie(rec).value.genre
    ensures Movies.MatchesGenre(genre, rec)
  {
    assert Movies.GenreLabels(rec) == ToMovie(rec).value.genre;
  }

  /** Exact means exact: a differently cased label does not match. */
  lemma ExactMatchIsCaseSensitive()
    ensures FilterExact("Action", [Movie("A", 9.0, ["action"])]) == []
    ensures Movies.MatchesGenre("Action", RawRecord(Some("A"), Some(9.0), Some("action")))
  {
    var rec := RawRecord(Some("A"), Some(9.0), Some("action"));
    assert "Action" != "action" by {
      assert "Action"[0] != "action"[0];
    }
    assert !ContainsSeparator("action") by {
      forall k | 0 <= k < |"action"|
        ensures !StartsWithSeparator("action"[k..])
      {
        assert "action"[k] != ',';
      }
    }
    SplitWithoutSeparator("action");
    LowerAction();
    assert "action" in Movies.GenreLabels(rec);
  }

  lemma LowerAction()
    ensures Lower("action") == Lower("Action")
  {
    var l, u := Lower("action"), Lower("Action");
    assert l[0] == u[0] && l[1] == u[1] && l[2] == u[2];
    assert l[3] == u[3] && l[4] == u[4] && l[5] == u[5];
  }
}
