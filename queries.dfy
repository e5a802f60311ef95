/**
 * The pure query and aggregate operations of the catalog's `HomeController`:
 * the text and genre filters, the release-year range, the director count,
 * the longest title and the most popular actor. Each is a stream pipeline
 * over a list of movies, modelled as a function over a sequence.
 */
module MovieQueries {
  import opened Models
  import opened JavaStrings
  import opened Streams

  // ---------------------------------------------------------------- filterByQuery

  /** The query occurs, ignoring case, in the movie's title or description. */
  predicate MatchesQuery(m: Movie, query: string)
    ensures query == "" ==> MatchesQuery(m, query)
    ensures MatchesQuery(m, query) ==> |query| <= |m.title| || |query| <= |m.description|
  {
    || Contains(ToLowerCase(m.title), ToLowerCase(query))
    || Contains(ToLowerCase(m.description), ToLowerCase(query))
  }

  /** The two filter stages of `filterByQuery`: drop nulls, then keep the matches. */
  function QueryCondition(query: string): Option<Movie> -> bool
  {
    (x: Option<Movie>) => x.Some? && MatchesQuery(x.value, query)
  }

  /**
   * `filterByQuery(movies, query)`: a null or empty query returns the list
   * itself (even a null one); otherwise a null list is rejected and the
   * result holds the non-null movies that match the query.
   */
  function FilterByQuery(movies: MovieList, query: Option<string>): (r: Result<MovieList>)
    ensures query == None || query == Some("") ==> r == Ok(movies)
    ensures query != None && query != Some("") ==> (r.Err? <==> movies == None)
    ensures r.Err? ==> r.error.IllegalArgument?
  {
    if query == None || query.value == "" then Ok(movies)
    else if movies == None then Err(IllegalArgument("movies must not be null"))
    else Ok(Some(Filter(movies.value, QueryCondition(query.value))))
  }

  /** Case-insensitive matching is substring containment of the lower-cased strings. */
  lemma MatchesQueryIffSubstring(m: Movie, query: string)
    ensures MatchesQuery(m, query) <==>
      || IsSubstring(ToLowerCase(query), ToLowerCase(m.title))
      || IsSubstring(ToLowerCase(query), ToLowerCase(m.description))
  {
    ContainsIffOccurs(ToLowerCase(m.title), ToLowerCase(query));
    ContainsIffOccurs(ToLowerCase(m.description), ToLowerCase(query));
  }

  /**
   * For a non-empty query over a non-null list the call succeeds, and the
   * result keeps the input order and holds no null.
   */
  lemma FilterByQueryOrder(items: seq<Option<Movie>>, query: string)
    requires query != ""
    ensures FilterByQuery(Some(items), Some(query)).Ok?
    ensures FilterByQuery(Some(items), Some(query)).value.Some?
    ensures IsSubsequence(FilterByQuery(Some(items), Some(query)).value.value, items)
    ensures None !in FilterByQuery(Some(items), Some(query)).value.value
  {
    FilterIsSubsequence(items, QueryCondition(query));
    FilterMembership(items, QueryCondition(query), None);
  }

  /**
   * For a non-empty query over a non-null list the result holds exactly the
   * non-null movies that match the query, each as often as in the input.
   */
  lemma FilterByQueryMembers(items: seq<Option<Movie>>, query: string, x: Option<Movie>)
    requires query != ""
    ensures var r := FilterByQuery(Some(items), Some(query)).value.value;
      && (x in r <==> x in items && x.Some? && MatchesQuery(x.value, query))
      && multiset(r)[x] == if x.Some? && MatchesQuery(x.value, query) then multiset(items)[x] else 0
  {
    FilterMembership(items, QueryCondition(query), x);
    FilterMultiplicity(items, QueryCondition(query), x);
  }

  // ---------------------------------------------------------------- filterByGenre

  /** The two filter stages of `filterByGenre`: drop nulls, then keep the genre. */
  function GenreCondition(genre: Genre): Option<Movie> -> bool
  {
    (x: Option<Movie>) => x.Some? && genre in x.value.genres
  }

  /**
   * `filterByGenre(movies, genre)`: a null genre returns the list itself;
   * otherwise a null list is rejected and the result holds the non-null
   * movies tagged with the genre.
   */
  function FilterByGenre(movies: MovieList, genre: Option<Genre>): (r: Result<MovieList>)
    ensures genre == None ==> r == Ok(movies)
    ensures genre != None ==> (r.Err? <==> movies == None)
    ensures r.Err? ==> r.error.IllegalArgument?
  {
    if genre == None then Ok(movies)
    else if movies == None then Err(IllegalArgument("movies must not be null"))
    else Ok(Some(Filter(movies.value, GenreCondition(genre.value))))
  }

  /**
   * For a genre over a non-null list the result is, in input order, exactly
   * the non-null movies with that genre, each as often as in the input.
   */
  lemma FilterByGenreContents(items: seq<Option<Movie>>, genre: Genre)
    ensures FilterByGenre(Some(items), Some(genre)).Ok?
    ensures FilterByGenre(Some(items), Some(genre)).value.Some?
    ensures var r := FilterByGenre(Some(items), Some(genre)).value.value;
      && IsSubsequence(r, items)
      && None !in r
      && (forall x :: x in r <==> x in items && x.Some? && genre in x.value.genres)
      && (forall x :: multiset(r)[x] == if x.Some? && genre in x.value.genres then multiset(items)[x] else 0)
  {
    FilterContents(items, GenreCondition(genre));
    FilterMembership(items, GenreCondition(genre), None);
  }

  /** Applying the genre filter to its own result returns that result again. */
  lemma FilterByGenreIdempotent(movies: MovieList, genre: Option<Genre>)
    ensures FilterByGenre(movies, genre).Ok? ==>
      FilterByGenre(FilterByGenre(movies, genre).value, genre) == FilterByGenre(movies, genre)
  {
    if genre != None && movies != None {
      FilterIdempotent(movies.value, GenreCondition(genre.value));
    }
  }

  // ---------------------------------------------------------------- countMoviesFrom

  /** The movie lists `director`, compared exactly (case-sensitive `equals`). */
  function DirectedBy(director: string): Movie -> bool
  {
    (m: Movie) => director in m.directors
  }

  /** `countMoviesFrom(movies, director)`: how many movies list the director. */
  function CountMoviesFrom(movies: seq<Movie>, director: string): (r: nat)
    ensures r <= |movies|
  {
    |Filter(movies, DirectedBy(director))|
  }

  /** The count of no movies, of one movie, and of two lists one after the other. */
  lemma CountMoviesFromAdditive(a: seq<Movie>, b: seq<Movie>, director: string)
    ensures CountMoviesFrom([], director) == 0
    ensures forall m :: CountMoviesFrom([m], director) == if director in m.directors then 1 else 0
    ensures CountMoviesFrom(a + b, director) == CountMoviesFrom(a, director) + CountMoviesFrom(b, director)
  {
    FilterAppend(a, b, DirectedBy(director));
    forall m
      ensures CountMoviesFrom([m], director) == if director in m.directors then 1 else 0
    {
      assert [m][1..] == [];
    }
  }

  /** The count is zero exactly when no movie lists the director. */
  lemma CountMoviesFromZero(movies: seq<Movie>, director: string)
    ensures CountMoviesFrom(movies, director) == 0 <==> forall m :: m in movies ==> director !in m.directors
  {
    FilterEmpty(movies, DirectedBy(director));
  }

  /** The count is the list length exactly when every movie lists the director. */
  lemma CountMoviesFromAll(movies: seq<Movie>, director: string)
    ensures CountMoviesFrom(movies, director) == |movies| <==> forall m :: m in movies ==> director in m.directors
  {
    FilterFullLength(movies, DirectedBy(director));
  }

  // ---------------------------------------------------------------- getLongestMovieTitle

  /**
   * `getLongestMovieTitle(movies)`: the largest title length, or 0 for an
   * empty list.
   */
  function GetLongestMovieTitle(movies: seq<Movie>): (r: nat)
    ensures movies == [] ==> r == 0
    ensures forall m :: m in movies ==> |m.title| <= r
    ensures movies != [] ==> exists m :: m in movies && |m.title| == r
  {
    if movies == [] then 0
    else
      var rest := GetLongestMovieTitle(movies[1..]);
      if |movies[0].title| >= rest then |movies[0].title| else rest
  }

  // ---------------------------------------------------------------- getMoviesBetweenYears

  /** The release year lies in the inclusive range. */
  function ReleasedBetween(startYear: int, endYear: int): Movie -> bool
  {
    (m: Movie) => startYear <= m.releaseYear && m.releaseYear <= endYear
  }

  /** `getMoviesBetweenYears(movies, startYear, endYear)`. */
  function GetMoviesBetweenYears(movies: seq<Movie>, startYear: int, endYear: int): (r: seq<Movie>)
    ensures |r| <= |movies|
  {
    Filter(movies, ReleasedBetween(startYear, endYear))
  }

  /**
   * The result is, in input order, exactly the movies released in the
   * inclusive range, each as often as in the input.
   */
  lemma GetMoviesBetweenYearsContents(movies: seq<Movie>, startYear: int, endYear: int)
    ensures var r := GetMoviesBetweenYears(movies, startYear, endYear);
      && IsSubsequence(r, movies)
      && (forall m :: m in r <==> m in movies && startYear <= m.releaseYear <= endYear)
      && (forall m :: multiset(r)[m] == if startYear <= m.releaseYear <= endYear then multiset(movies)[m] else 0)
  {
    FilterContents(movies, ReleasedBetween(startYear, endYear));
  }

  /** An inverted range selects nothing; it is not an error. */
  lemma GetMoviesBetweenYearsInverted(movies: seq<Movie>, startYear: int, endYear: int)
    requires startYear > endYear
    ensures GetMoviesBetweenYears(movies, startYear, endYear) == []
  {
    FilterEmpty(movies, ReleasedBetween(startYear, endYear));
  }

  // ---------------------------------------------------------------- getMostPopularActor

  /** `flatMap(movie -> movie.getMainCast().stream())`: every cast entry, in order. */
  function AllCast(movies: seq<Movie>): (r: seq<string>)
    ensures forall m, c :: m in movies && c in m.mainCast ==> c in r
  {
    if movies == [] then [] else movies[0].mainCast + AllCast(movies[1..])
  }

  /** A name is a cast entry exactly when some movie lists it in its main cast. */
  lemma {:induction false} AllCastMembership(movies: seq<Movie>, name: string)
    ensures name in AllCast(movies) <==> exists m :: m in movies && name in m.mainCast
  {
    if movies != [] {
      AllCastMembership(movies[1..], name);
      assert movies == [movies[0]] + movies[1..];
    }
  }

  /** Flattening distributes over concatenation, so repeated entries are all kept. */
  lemma {:induction false} AllCastAppend(a: seq<Movie>, b: seq<Movie>)
    ensures AllCast(a + b) == AllCast(a) + AllCast(b)
  {
    if a == [] {
      assert a + b == b;
    } else {
      assert (a + b)[0] == a[0];
      assert (a + b)[1..] == a[1..] + b;
      AllCastAppend(a[1..], b);
    }
  }

  /** One movie contributes its main cast, in order. */
  lemma AllCastSingle(m: Movie)
    ensures AllCast([m]) == m.mainCast
  {
    assert [m][1..] == [];
  }

  /** The entry lower-cases to `key`. */
  function KeyIs(key: string): string -> bool
  {
    (c: string) => ToLowerCase(c) == key
  }

  /** How many of the names lower-case to `key`. */
  function CountKey(names: seq<string>, key: string): nat
  {
    |Filter(names, KeyIs(key))|
  }

  /** How many cast entries of all movies equal `name` ignoring case. */
  function CaseInsensitiveCount(movies: seq<Movie>, name: string): nat
  {
    CountKey(AllCast(movies), ToLowerCase(name))
  }

  /** `groupingBy(String::toLowerCase, counting())`: lower-cased name to count. */
  function GroupCounts(names: seq<string>): (r: map<string, nat>)
    ensures forall k :: k in r ==> 0 < r[k] <= |names|
  {
    if names == [] then map[]
    else
      var counts := GroupCounts(names[1..]);
      var key := ToLowerCase(names[0]);
      counts[key := (if key in counts then counts[key] else 0) + 1]
  }

  /** The keys are the lower-cased names, and each maps to its number of entries. */
  lemma {:induction false} GroupCountsCounts(names: seq<string>, key: string)
    ensures key in GroupCounts(names) <==> CountKey(names, key) > 0
    ensures key in GroupCounts(names) ==> GroupCounts(names)[key] == CountKey(names, key)
  {
    if names != [] {
      GroupCountsCounts(names[1..], key);
    }
  }

  /** Each name lower-cased, in order: the keys in the order they are encountered. */
  function LowerAll(names: seq<string>): (r: seq<string>)
    ensures |r| == |names|
  {
    if names == [] then [] else [ToLowerCase(names[0])] + LowerAll(names[1..])
  }

  /** The lower-cased list holds exactly the lower-cased forms of the names. */
  lemma {:induction false} LowerAllMembership(names: seq<string>, key: string)
    ensures key in LowerAll(names) <==> exists c :: c in names && ToLowerCase(c) == key
  {
    if names != [] {
      LowerAllMembership(names[1..], key);
      assert LowerAll(names) == [ToLowerCase(names[0])] + LowerAll(names[1..]);
      if key == ToLowerCase(names[0]) {
        assert names[0] in names;
      } else if key in LowerAll(names[1..]) {
        var c :| c in names[1..] && ToLowerCase(c) == key;
        assert c in names;
      }
    }
  }

  /** Every lower-cased name is a key of the grouping. */
  lemma LowerAllAreKeys(names: seq<string>)
    ensures forall key :: key in LowerAll(names) ==> key in GroupCounts(names)
  {
    forall key | key in LowerAll(names)
      ensures key in GroupCounts(names)
    {
      LowerAllMembership(names, key);
      var c :| c in names && ToLowerCase(c) == key;
      FilterMembership(names, KeyIs(key), c);
      GroupCountsCounts(names, key);
    }
  }

  /**
   * `max(Map.Entry.comparingByValue())` over the grouped entries, visited in
   * the order of `candidates`; a tie keeps the earlier candidate.
   */
  function PickMax(candidates: seq<string>, counts: map<string, nat>): (r: string)
    requires candidates != []
    requires forall c :: c in candidates ==> c in counts
    ensures r in candidates
    ensures forall c :: c in candidates ==> counts[c] <= counts[r]
  {
    if |candidates| == 1 then candidates[0]
    else
      var best := PickMax(candidates[1..], counts);
      if counts[candidates[0]] >= counts[best] then candidates[0] else best
  }

  /**
   * `getMostPopularActor(movies)`: the lower-cased cast name with the largest
   * case-insensitive count, or "" when there are no cast entries.
   */
  function GetMostPopularActor(movies: seq<Movie>): (r: string)
    ensures AllCast(movies) == [] ==> r == ""
    ensures AllCast(movies) != [] ==> r in LowerAll(AllCast(movies))
  {
    var names := AllCast(movies);
    if names == [] then ""
    else
      LowerAllAreKeys(names);
      PickMax(LowerAll(names), GroupCounts(names))
  }

  /**
   * With no cast entries the answer is ""; otherwise it is the lower-cased
   * form of some cast entry, and no cast entry is counted, ignoring case,
   * more often than it.
   */
  lemma MostPopularActorIsMostFrequent(movies: seq<Movie>)
    ensures AllCast(movies) == [] ==> GetMostPopularActor(movies) == ""
    ensures AllCast(movies) != [] ==>
      exists c :: c in AllCast(movies) && GetMostPopularActor(movies) == ToLowerCase(c)
    ensures AllCast(movies) != [] ==> CaseInsensitiveCount(movies, GetMostPopularActor(movies)) > 0
    ensures forall c :: c in AllCast(movies) ==>
      CaseInsensitiveCount(movies, c) <= CaseInsensitiveCount(movies, GetMostPopularActor(movies))
  {
    var names := AllCast(movies);
    if names != [] {
      var r := GetMostPopularActor(movies);
      var counts := GroupCounts(names);
      LowerAllAreKeys(names);
      assert r == PickMax(LowerAll(names), counts);
      LowerAllMembership(names, r);
      var c0 :| c0 in names && ToLowerCase(c0) == r;
      ToLowerCaseIdempotent(c0);
      GroupCountsCounts(names, r);
      assert CaseInsensitiveCount(movies, r) == counts[r];
      forall c | c in names
        ensures CaseInsensitiveCount(movies, c) <= CaseInsensitiveCount(movies, r)
      {
        var key := ToLowerCase(c);
        LowerAllMembership(names, key);
        GroupCountsCounts(names, key);
      }
    }
  }
}
