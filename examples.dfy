/** Worked cases of the query engine on small catalogs. */
module Examples {
  import opened Models
  import opened JavaStrings
  import opened MovieQueries

  /** A movie with the given title, directors and cast; the other fields are fixed. */
  function Film(title: string, directors: seq<string>, cast: seq<string>): Movie
  {
    Movie(title, "", {}, 2000, directors, cast)
  }

  /** The longest of "Up" and "Interstellar" has twelve characters; no movies give 0. */
  lemma LongestTitleExample()
    ensures GetLongestMovieTitle([]) == 0
    ensures GetLongestMovieTitle([Film("Up", [], []), Film("Interstellar", [], [])]) == 12
  {
  }

  /** Director names are compared exactly, so the wrong case counts nothing. */
  lemma CountMoviesFromExample()
    ensures CountMoviesFrom([Film("A", ["Nolan"], []), Film("B", ["Spielberg"], [])], "Nolan") == 1
    ensures CountMoviesFrom([Film("A", ["Nolan"], []), Film("B", ["Spielberg"], [])], "nolan") == 0
  {
    var movies := [Film("A", ["Nolan"], []), Film("B", ["Spielberg"], [])];
    CountMoviesFromAdditive([movies[0]], [movies[1]], "Nolan");
    CountMoviesFromAdditive([movies[0]], [movies[1]], "nolan");
    assert [movies[0]] + [movies[1]] == movies;
  }

  /** "Tom" and "tom" share the key "tom". */
  lemma LowerTom()
    ensures ToLowerCase("Tom") == "tom" && ToLowerCase("tom") == "tom"
  {
    assert "Tom"[1..] == "om" && "om"[1..] == "m" && "m"[1..] == "";
    assert "tom"[1..] == "om";
  }

  /** "Meryl" has the key "meryl". */
  lemma LowerMeryl()
    ensures ToLowerCase("Meryl") == "meryl"
  {
    assert "Meryl"[1..] == "eryl" && "eryl"[1..] == "ryl" && "ryl"[1..] == "yl";
    assert "yl"[1..] == "l" && "l"[1..] == "";
  }

  /** The cast entries of three movies, grouped ignoring case. */
  lemma CastGroupingExample()
    ensures GroupCounts(["Tom", "tom", "Meryl"]) == map["tom" := 2, "meryl" := 1]
    ensures LowerAll(["Tom", "tom", "Meryl"]) == ["tom", "tom", "meryl"]
  {
    LowerTom();
    LowerMeryl();
    var names := ["Tom", "tom", "Meryl"];
    assert names[1..] == ["tom", "Meryl"] && names[1..][1..] == ["Meryl"];
    assert GroupCounts(names[1..][1..]) == map["meryl" := 1];
    assert GroupCounts(names[1..]) == map["meryl" := 1, "tom" := 1];
    assert LowerAll(names[1..][1..]) == ["meryl"];
  }

  /** The cast entries of three movies, flattened in order. */
  lemma AllCastExample()
    ensures AllCast([Film("A", [], ["Tom"]), Film("B", [], ["tom"]), Film("C", [], ["Meryl"])]) == ["Tom", "tom", "Meryl"]
  {
    var movies := [Film("A", [], ["Tom"]), Film("B", [], ["tom"]), Film("C", [], ["Meryl"])];
    assert AllCast(movies[2..]) == ["Meryl"];
    assert AllCast(movies[1..]) == ["tom", "Meryl"];
  }

  /** "Tom" and "tom" are one actor with two entries. */
  lemma MostPopularActorExample()
    ensures GetMostPopularActor([]) == ""
    ensures GetMostPopularActor([Film("A", [], ["Tom"]), Film("B", [], ["tom"]), Film("C", [], ["Meryl"])]) == "tom"
  {
    AllCastExample();
    LowerTom();
    LowerMeryl();
    CastGroupingExample();
    var keys := ["tom", "tom", "meryl"];
    assert PickMax(keys, map["tom" := 2, "meryl" := 1]) == "tom";
  }

  /** A non-empty query over a null list is rejected. */
  lemma FilterByQueryNullListExample()
    ensures FilterByQuery(None, Some("x")) == Err(IllegalArgument("movies must not be null"))
  {
  }
}
