/** `best_in_genre` of the functional variant: keep the records whose genre
    list holds the requested genre, ignoring case, and return the name of the
    best-rated one, or a fixed message when none matches. */
module Movies {
  import opened Records
  import opened Text
  import opened Ranking

  /** What is returned, instead of raising, when no record matches. */
  const NotFound: string := "No TV series found for the given genre."

  /** `movie.get('genre', 'Unknown').split(', ')`. */
  function GenreLabels(rec: RawRecord): seq<string> {
    Split(rec.genre.GetOr("Unknown"))
  }

  /** `genre.lower() in map(str.lower, labels)`. */
  predicate MatchesGenre(genre: string, rec: RawRecord) {
    exists tag :: tag in GenreLabels(rec) && Lower(tag) == Lower(genre)
  }

  /** The comprehension over `data`. */
  function FilterByGenre(genre: string, data: seq<RawRecord>): (r: seq<RawRecord>)
    ensures forall rec :: rec in r <==> rec in data && MatchesGenre(genre, rec)
    ensures r == [] <==> forall rec :: rec in data ==> !MatchesGenre(genre, rec)
  {
    Filter(data, rec => MatchesGenre(genre, rec))
  }

  /** `(-float(movie.get('imdb_rating', 0)), movie.get('name', ''))`. */
  function SortKey(rec: RawRecord): RankKey {
    RankKey(-rec.imdbRating.GetOr(0.0), rec.name.GetOr(""))
  }

  function Rating(rec: RawRecord): real {
    rec.imdbRating.GetOr(0.0)
  }

  /** `best_movie.get('name', 'Unknown')`. */
  function DisplayName(rec: RawRecord): string {
    rec.name.GetOr("Unknown")
  }

  /** `best_in_genre(genre, data)`: the sentinel when nothing matches,
      otherwise the display name of a matching record. */
  function BestInGenre(genre: string, data: seq<RawRecord>): (r: string)
    ensures (forall rec :: rec in data ==> !MatchesGenre(genre, rec)) ==> r == NotFound
    ensures (exists rec :: rec in data && MatchesGenre(genre, rec)) ==>
      exists w :: w in data && MatchesGenre(genre, w) && r == DisplayName(w)
  {
    var filtered := FilterByGenre(genre, data);
    if filtered == [] then NotFound else DisplayName(Reduce(filtered, SortKey))
  }

  /** The filter keeps the input's order: filtering a concatenation is
      concatenating the filtered parts. */
  lemma FilterByGenreKeepsOrder(genre: string, a: seq<RawRecord>, b: seq<RawRecord>)
    ensures FilterByGenre(genre, a + b) == FilterByGenre(genre, a) + FilterByGenre(genre, b)
  {
    FilterConcat(a, b, rec => MatchesGenre(genre, rec));
  }

  /** The test ignores the case of both the query and the labels. */
  lemma MatchIgnoresCase(genre: string, other: string, rec: RawRecord)
    requires Lower(genre) == Lower(other)
    ensures MatchesGenre(genre, rec) <==> MatchesGenre(other, rec)
  {
  }

  /** A record without a genre field matches exactly the queries that read
      "unknown" in lower case. */
  lemma MissingGenreIsUnknown(genre: string, rec: RawRecord)
    requires rec.genre.None?
    ensures MatchesGenre(genre, rec) <==> Lower(genre) == "unknown"
  {
    UnknownLabel();
  }

  lemma UnknownLabel()
    ensures Split("Unknown") == ["Unknown"] && Lower("Unknown") == "unknown"
  {
    assert !ContainsSeparator("Unknown") by {
      forall k | 0 <= k < |"Unknown"|
        ensures !StartsWithSeparator("Unknown"[k..])
      {
        assert "Unknown"[k] != ',';
      }
    }
    SplitWithoutSeparator("Unknown");
    LowerUnknown();
  }

  lemma LowerUnknown()
    ensures Lower("Unknown") == "unknown"
  {
    var l := Lower("Unknown");
    assert l[0] == 'u' && l[1] == 'n' && l[2] == 'k' && l[3] == 'n';
    assert l[4] == 'o' && l[5] == 'w' && l[6] == 'n';
  }

  /** No match: the sentinel message, and no error. */
  lemma NoMatchGivesSentinel(genre: string, data: seq<RawRecord>)
    requires forall rec :: rec in data ==> !MatchesGenre(genre, rec)
    ensures BestInGenre(genre, data) == NotFound
  {
  }

  /** Some match: the name of a matching record whose rating is at least
      every matching rating and which, among matching records of that
      rating, has the alphabetically first name. A missing rating counts as
      0 and a missing name as "" in this comparison. */
  lemma BestInGenreIsTopRated(genre: string, data: seq<RawRecord>, some: RawRecord)
    requires some in data && MatchesGenre(genre, some)
    ensures exists w :: (
      && w in data && MatchesGenre(genre, w) && BestInGenre(genre, data) == DisplayName(w)
      && (forall y :: y in data && MatchesGenre(genre, y) ==> Rating(y) <= Rating(w))
      && (forall y :: y in data && MatchesGenre(genre, y) && Rating(y) == Rating(w) ==>
            !LexLess(y.name.GetOr(""), w.name.GetOr(""))))
  {
    var filtered := FilterByGenre(genre, data);
    assert some in filtered;
    var w := Reduce(filtered, SortKey);
    forall y | y in data && MatchesGenre(genre, y)
      ensures Rating(y) <= Rating(w)
      ensures Rating(y) == Rating(w) ==> !LexLess(y.name.GetOr(""), w.name.GetOr(""))
    {
      ReduceIsMinimal(filtered, SortKey, y);
    }
  }

  /** Among matching records of equal key the earliest wins: the result is
      the first position of the smallest key in the filtered list. */
  lemma BestInGenreIsEarliest(genre: string, data: seq<RawRecord>)
    requires FilterByGenre(genre, data) != []
    ensures exists k :: (
      && IsFirstMinimal(FilterByGenre(genre, data), SortKey, k)
      && BestInGenre(genre, data) == DisplayName(FilterByGenre(genre, data)[k]))
  {
    ReduceIsFirstMinimal(FilterByGenre(genre, data), SortKey);
  }

  /** Rearranging the input changes neither whether a match exists nor the
      winner's rating and key name; it can change only which of several
      records with that same key is returned. */
  lemma BestInGenreOrderIndependent(genre: string, data: seq<RawRecord>, other: seq<RawRecord>)
    requires forall rec :: rec in data <==> rec in other
    ensures (FilterByGenre(genre, data) == []) == (FilterByGenre(genre, other) == [])
    ensures FilterByGenre(genre, data) != [] ==>
      SortKey(Reduce(FilterByGenre(genre, data), SortKey)) == SortKey(Reduce(FilterByGenre(genre, other), SortKey))
  {
    var f, g := FilterByGenre(genre, data), FilterByGenre(genre, other);
    if f != [] {
      ReduceKeyOrderIndependent(f, g, SortKey);
    }
  }
}
