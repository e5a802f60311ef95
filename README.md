# FHMDb movie query engine in Dafny

A model of the movie query engine inside the catalog browser's `HomeController`
(`src/main/java/at/ac/fhcampuswien/fhmdb/HomeController.java`): the text and
genre filters, the release-year range, the director count, the longest title,
the most popular actor, and the three-state title sort toggle over the working
list `observableMovies`.

Files, one module each:

- `models.dfy` (`Models`): `Movie`, `Genre`, `SortedState`, plus `Option` for
  Java's `null` and `Result` for a thrown `IllegalArgumentException`. A
  `MovieList` is a list that may be null and may hold null elements.
- `java_strings.dfy` (`JavaStrings`): `String.toLowerCase` (ASCII letters),
  `String.contains` and `String.compareTo`, with their laws.
- `streams.dfy` (`Streams`): `stream().filter(p).toList()` as `Filter`, with
  lemmas for order (subsequence), membership, multiplicity, append and
  idempotence; `Reverse`.
- `queries.dfy` (`MovieQueries`): `filterByQuery`, `filterByGenre`,
  `countMoviesFrom`, `getLongestMovieTitle`, `getMoviesBetweenYears`,
  `getMostPopularActor` as functions, each with lemmas stating what it returns.
- `title_sort.dfy` (`TitleSort`): the comparator `comparing(Movie::getTitle)`
  and its `reversed()`. `List.sort` is modelled as a stable insertion sort,
  proved ordered, a permutation and stable.
- `controller.dfy` (`Controller`): class `HomeController` with the fields
  `observableMovies` and `sortedState` and the method `SortMovies`.
- `examples.dfy` (`Examples`): small worked catalogs.

Behaviour that is easy to get wrong, as the code has it:

- `filterByQuery` looks at the query before the list. A null or empty query
  returns the argument itself, even a null list. A null list is rejected only
  when the query is non-empty. Null elements are dropped, not rejected.
- `filterByGenre` behaves the same way with a null genre.
- The descending sort uses the reversed comparator with a stable sort. Movies
  with the same title therefore stay in input order in both directions.
  Descending order is the exact reverse of ascending order when all titles
  differ (`SortDescendingIsReversedAscending`). With a repeated title it can
  fail: `DescendingKeepsTiesInInputOrder` shows two movies with the same
  title where it does.
- For "Up" and "Interstellar" the longest title has 12 characters.

## Model

| member | source | states |
|---|---|---|
| `JavaStrings.LowerChar` | src/main/java/at/ac/fhcampuswien/fhmdb/HomeController.java:116-117 | a capital ASCII letter becomes its small letter (code point + 32); every other character is unchanged |
| `JavaStrings.ToLowerCase` | src/main/java/at/ac/fhcampuswien/fhmdb/HomeController.java:116-117 | lower-casing keeps the length of the string |
| `JavaStrings.ToLowerCaseAt` | src/main/java/at/ac/fhcampuswien/fhmdb/HomeController.java:116-117 | lower-casing works character by character: position i of the result is the lower-cased position i |
| `JavaStrings.ToLowerCaseHasNoCapitals` | src/main/java/at/ac/fhcampuswien/fhmdb/HomeController.java:196 | a lower-cased string contains no capital letter |
| `JavaStrings.ToLowerCaseIdempotent` | src/main/java/at/ac/fhcampuswien/fhmdb/HomeController.java:196 | lower-casing a lower-cased name changes nothing, so a grouping key maps to itself |
| `JavaStrings.Contains` | src/main/java/at/ac/fhcampuswien/fhmdb/HomeController.java:116-117 | `String.contains`: the search succeeds only when the needle is no longer than the text, and always succeeds for an empty needle (exact meaning in `ContainsIffOccurs`) |
| `JavaStrings.ContainsIffOccurs` | src/main/java/at/ac/fhcampuswien/fhmdb/HomeController.java:116-117 | `contains` holds exactly when the needle occurs at some index of the string |
| `JavaStrings.ContainsFromOccurrence` | src/main/java/at/ac/fhcampuswien/fhmdb/HomeController.java:116-117 | an occurrence of the needle at any index makes `contains` succeed |
| `JavaStrings.CompareTo` | src/main/java/at/ac/fhcampuswien/fhmdb/HomeController.java:97 | `String.compareTo`, used by `Comparator.comparing(Movie::getTitle)`: when one string is a prefix of the other, the result is the difference of the lengths |
| `JavaStrings.CompareToAtFirstDifference` | src/main/java/at/ac/fhcampuswien/fhmdb/HomeController.java:97 | at the first index where the strings differ, `compareTo` is the difference of the two characters |
| `JavaStrings.CompareToZeroIffEqual` | src/main/java/at/ac/fhcampuswien/fhmdb/HomeController.java:97 | `compareTo` returns 0 exactly for equal strings |
| `JavaStrings.CompareToAntisymmetric` | src/main/java/at/ac/fhcampuswien/fhmdb/HomeController.java:97 | swapping the arguments of `compareTo` negates the result |
| `JavaStrings.CompareToTransitive` | src/main/java/at/ac/fhcampuswien/fhmdb/HomeController.java:97 | `compareTo(a, b) <= 0` and `compareTo(b, c) <= 0` give `compareTo(a, c) <= 0` |
| `JavaStrings.CompareToNegativeIffLexLess` | src/main/java/at/ac/fhcampuswien/fhmdb/HomeController.java:97 | `compareTo` is negative exactly when the first string is a proper prefix of the second or has the smaller character at the first difference |
| `Streams.Filter` | src/main/java/at/ac/fhcampuswien/fhmdb/HomeController.java:113-119 | a filtered stream is never longer than its input |
| `Streams.FilterIsSubsequence` | src/main/java/at/ac/fhcampuswien/fhmdb/HomeController.java:113-119 | filtering keeps input order: the result is a subsequence of the input |
| `Streams.FilterMembership` | src/main/java/at/ac/fhcampuswien/fhmdb/HomeController.java:113-119 | an element is kept exactly when it is in the input and satisfies the predicate |
| `Streams.FilterMultiplicity` | src/main/java/at/ac/fhcampuswien/fhmdb/HomeController.java:113-119 | a kept element appears as often as in the input; others do not appear |
| `Streams.FilterContents` | src/main/java/at/ac/fhcampuswien/fhmdb/HomeController.java:113-119 | the result is a subsequence of the input holding exactly the satisfying elements, each as often as in the input |
| `Streams.FilterAllSatisfy` | src/main/java/at/ac/fhcampuswien/fhmdb/HomeController.java:113-119 | every element of the result satisfies the predicate |
| `Streams.FilterKeepsAll` | src/main/java/at/ac/fhcampuswien/fhmdb/HomeController.java:113-119 | the input comes back whole exactly when every element satisfies the predicate |
| `Streams.FilterIdempotent` | src/main/java/at/ac/fhcampuswien/fhmdb/HomeController.java:129-132 | filtering the result again with the same predicate returns it unchanged |
| `Streams.FilterEmpty` | src/main/java/at/ac/fhcampuswien/fhmdb/HomeController.java:188-190 | the result is empty exactly when no element satisfies the predicate |
| `Streams.FilterAppend` | src/main/java/at/ac/fhcampuswien/fhmdb/HomeController.java:174-176 | filtering two lists one after the other is filtering each and concatenating |
| `Streams.FilterFullLength` | src/main/java/at/ac/fhcampuswien/fhmdb/HomeController.java:174-176 | nothing is dropped exactly when every element satisfies the predicate |
| `Streams.Reverse` | src/main/java/at/ac/fhcampuswien/fhmdb/HomeController.java:100 | reversal keeps the length |
| `Streams.ReverseAt` | src/main/java/at/ac/fhcampuswien/fhmdb/HomeController.java:100 | position k of the reversal is position n-1-k of the input |
| `Streams.ReverseMultiset` | src/main/java/at/ac/fhcampuswien/fhmdb/HomeController.java:100 | reversal is a permutation |
| `MovieQueries.FilterByQuery` | src/main/java/at/ac/fhcampuswien/fhmdb/HomeController.java:106-120 | a null or empty query returns the argument list itself (null included); for a non-empty query the call fails exactly when the list is null, and only with `IllegalArgumentException` |
| `MovieQueries.MatchesQuery` | src/main/java/at/ac/fhcampuswien/fhmdb/HomeController.java:115-118 | the filter lambda: an empty query matches every movie, and a matching query is no longer than the title or the description |
| `MovieQueries.MatchesQueryIffSubstring` | src/main/java/at/ac/fhcampuswien/fhmdb/HomeController.java:115-118 | a movie matches exactly when the lower-cased query is a substring of the lower-cased title or of the lower-cased description |
| `MovieQueries.FilterByQueryOrder` | src/main/java/at/ac/fhcampuswien/fhmdb/HomeController.java:113-119 | for a non-empty query over a non-null list the call succeeds, the result is a subsequence of the input (order kept) and holds no null |
| `MovieQueries.FilterByQueryMembers` | src/main/java/at/ac/fhcampuswien/fhmdb/HomeController.java:113-119 | for a non-empty query over a non-null list an element is in the result exactly when it is a non-null matching movie of the input, and it appears as often as in the input |
| `MovieQueries.FilterByGenre` | src/main/java/at/ac/fhcampuswien/fhmdb/HomeController.java:122-133 | a null genre returns the argument list itself; otherwise the call fails exactly when the list is null, and only with `IllegalArgumentException` |
| `MovieQueries.FilterByGenreContents` | src/main/java/at/ac/fhcampuswien/fhmdb/HomeController.java:129-132 | for a genre over a non-null list the result is a subsequence of the input, holds no null, holds exactly the non-null movies tagged with the genre, each as often as in the input |
| `MovieQueries.FilterByGenreIdempotent` | src/main/java/at/ac/fhcampuswien/fhmdb/HomeController.java:122-133 | whenever the genre filter succeeds, applying it to its own result returns that result again |
| `MovieQueries.CountMoviesFrom` | src/main/java/at/ac/fhcampuswien/fhmdb/HomeController.java:173-177 | the count is between 0 and the number of movies |
| `MovieQueries.CountMoviesFromAdditive` | src/main/java/at/ac/fhcampuswien/fhmdb/HomeController.java:173-177 | no movies count 0, one movie counts 1 exactly when its directors contain the exact name, and counts add over concatenation |
| `MovieQueries.CountMoviesFromZero` | src/main/java/at/ac/fhcampuswien/fhmdb/HomeController.java:173-177 | the count is 0 exactly when no movie lists the director |
| `MovieQueries.CountMoviesFromAll` | src/main/java/at/ac/fhcampuswien/fhmdb/HomeController.java:173-177 | the count equals the number of movies exactly when every movie lists the director |
| `MovieQueries.GetLongestMovieTitle` | src/main/java/at/ac/fhcampuswien/fhmdb/HomeController.java:179-185 | 0 for no movies; otherwise at least every title's length and equal to the length of some title |
| `MovieQueries.GetMoviesBetweenYears` | src/main/java/at/ac/fhcampuswien/fhmdb/HomeController.java:187-191 | the result is never longer than the input |
| `MovieQueries.GetMoviesBetweenYearsContents` | src/main/java/at/ac/fhcampuswien/fhmdb/HomeController.java:187-191 | the result is a subsequence of the input holding exactly the movies with `startYear <= releaseYear <= endYear`, each as often as in the input |
| `MovieQueries.GetMoviesBetweenYearsInverted` | src/main/java/at/ac/fhcampuswien/fhmdb/HomeController.java:187-191 | with `startYear > endYear` the result is empty, not an error |
| `MovieQueries.AllCast` | src/main/java/at/ac/fhcampuswien/fhmdb/HomeController.java:195 | `flatMap` over the main casts: every cast entry of every movie is in the flattened list |
| `MovieQueries.AllCastMembership` | src/main/java/at/ac/fhcampuswien/fhmdb/HomeController.java:195 | a name is among the flattened cast entries exactly when some movie's main cast lists it |
| `MovieQueries.AllCastAppend` | src/main/java/at/ac/fhcampuswien/fhmdb/HomeController.java:195 | the entries of two lists of movies are the entries of the first followed by those of the second, repeats included |
| `MovieQueries.AllCastSingle` | src/main/java/at/ac/fhcampuswien/fhmdb/HomeController.java:195 | one movie contributes exactly its main cast, in order |
| `MovieQueries.GroupCounts` | src/main/java/at/ac/fhcampuswien/fhmdb/HomeController.java:196 | `groupingBy(String::toLowerCase, counting())`: every count is positive and at most the number of entries |
| `MovieQueries.GroupCountsCounts` | src/main/java/at/ac/fhcampuswien/fhmdb/HomeController.java:196 | the grouping has a key exactly when some entry lower-cases to it, and maps it to the number of such entries |
| `MovieQueries.LowerAll` | src/main/java/at/ac/fhcampuswien/fhmdb/HomeController.java:196 | there is one key per cast entry |
| `MovieQueries.LowerAllMembership` | src/main/java/at/ac/fhcampuswien/fhmdb/HomeController.java:196 | the keys are exactly the lower-cased cast entries |
| `MovieQueries.LowerAllAreKeys` | src/main/java/at/ac/fhcampuswien/fhmdb/HomeController.java:196 | every lower-cased entry is a key of the grouping map |
| `MovieQueries.PickMax` | src/main/java/at/ac/fhcampuswien/fhmdb/HomeController.java:197-199 | the chosen key is a candidate and no candidate has a larger count |
| `MovieQueries.GetMostPopularActor` | src/main/java/at/ac/fhcampuswien/fhmdb/HomeController.java:193-201 | "" when there are no cast entries, otherwise one of the lower-cased entries (maximal count in `MostPopularActorIsMostFrequent`) |
| `MovieQueries.MostPopularActorIsMostFrequent` | src/main/java/at/ac/fhcampuswien/fhmdb/HomeController.java:193-201 | "" when there are no cast entries; otherwise the lower-cased form of some cast entry, counted at least once, and no cast entry is counted (ignoring case) more often |
| `TitleSort.Compare` | src/main/java/at/ac/fhcampuswien/fhmdb/HomeController.java:97-100 | the two comparators tie exactly on movies with equal titles, and the reversed comparator is the negated ascending one |
| `TitleSort.CompareAntisymmetric` | src/main/java/at/ac/fhcampuswien/fhmdb/HomeController.java:97-100 | both title comparators change sign when their arguments are swapped |
| `TitleSort.CompareTransitive` | src/main/java/at/ac/fhcampuswien/fhmdb/HomeController.java:97-100 | both title comparators are transitive |
| `TitleSort.CompareZeroIffSameTitle` | src/main/java/at/ac/fhcampuswien/fhmdb/HomeController.java:97-100 | both comparators report a tie exactly for movies with equal titles |
| `TitleSort.Insert` | src/main/java/at/ac/fhcampuswien/fhmdb/HomeController.java:97-100 | inserting adds exactly one element |
| `TitleSort.SortByTitle` | src/main/java/at/ac/fhcampuswien/fhmdb/HomeController.java:97-100 | sorting keeps the length of the list |
| `TitleSort.InsertMultiset` | src/main/java/at/ac/fhcampuswien/fhmdb/HomeController.java:97-100 | inserting adds exactly the inserted movie to the multiset of elements |
| `TitleSort.InsertMembers` | src/main/java/at/ac/fhcampuswien/fhmdb/HomeController.java:97-100 | the movies of an insertion are the inserted movie and the movies of the list |
| `TitleSort.InsertSorted` | src/main/java/at/ac/fhcampuswien/fhmdb/HomeController.java:97-100 | inserting into a sorted list keeps it sorted |
| `TitleSort.SortByTitleSorted` | src/main/java/at/ac/fhcampuswien/fhmdb/HomeController.java:97-100 | the sorted list is ordered by the comparator: non-decreasing titles ascending, non-increasing descending |
| `TitleSort.SortByTitlePermutation` | src/main/java/at/ac/fhcampuswien/fhmdb/HomeController.java:97-100 | the sorted list is a permutation of the input |
| `TitleSort.InsertStable` | src/main/java/at/ac/fhcampuswien/fhmdb/HomeController.java:97-100 | inserting a movie in front of its ties keeps the order among equal titles |
| `TitleSort.SortByTitleStable` | src/main/java/at/ac/fhcampuswien/fhmdb/HomeController.java:97-100 | for every title, the movies with that title appear in the same order as in the input |
| `TitleSort.InsertDistinct` | src/main/java/at/ac/fhcampuswien/fhmdb/HomeController.java:97-100 | inserting a movie with a new title keeps titles pairwise distinct |
| `TitleSort.SortByTitleDistinct` | src/main/java/at/ac/fhcampuswien/fhmdb/HomeController.java:97-100 | sorting a list with distinct titles gives a list with distinct titles |
| `TitleSort.StrictlySortedUnique` | src/main/java/at/ac/fhcampuswien/fhmdb/HomeController.java:97-100 | two strictly ordered permutations of each other are equal |
| `TitleSort.ReverseStrictlySorted` | src/main/java/at/ac/fhcampuswien/fhmdb/HomeController.java:97-100 | reversing a strictly ascending list gives a strictly descending one |
| `TitleSort.SortDescendingIsReversedAscending` | src/main/java/at/ac/fhcampuswien/fhmdb/HomeController.java:96-102 | with pairwise distinct titles, descending order is exactly the reverse of ascending order |
| `TitleSort.DescendingKeepsTiesInInputOrder` | src/main/java/at/ac/fhcampuswien/fhmdb/HomeController.java:100 | two movies titled "Up" keep input order in both directions, so descending is not the reverse of ascending |
| `Controller.NextState` | src/main/java/at/ac/fhcampuswien/fhmdb/HomeController.java:95-103 | the next state is never NONE, and it is ASCENDING exactly when the current state is not ASCENDING |
| `Controller.StateAfterAlternates` | src/main/java/at/ac/fhcampuswien/fhmdb/HomeController.java:92-103 | starting at NONE, successive sorts give ASCENDING, DESCENDING, ASCENDING, ... forever |
| `Controller.HomeController.constructor` | src/main/java/at/ac/fhcampuswien/fhmdb/HomeController.java:63-69 | the working list is the fetched list and the sort state is NONE |
| `Controller.HomeController.SortMovies` | src/main/java/at/ac/fhcampuswien/fhmdb/HomeController.java:95-103 | NONE and DESCENDING move to ASCENDING, ASCENDING to DESCENDING; the new list is the old one sorted in the new state's direction, ordered, a permutation, and stable for equal titles |
| `Examples.LongestTitleExample` | src/main/java/at/ac/fhcampuswien/fhmdb/HomeController.java:179-185 | no movies give 0; "Up" and "Interstellar" give 12 |
| `Examples.CountMoviesFromExample` | src/main/java/at/ac/fhcampuswien/fhmdb/HomeController.java:173-177 | "Nolan" counts 1 in a two-movie list; "nolan" counts 0 |
| `Examples.AllCastExample` | src/main/java/at/ac/fhcampuswien/fhmdb/HomeController.java:195 | the casts of three movies flatten to "Tom", "tom", "Meryl" in order |
| `Examples.CastGroupingExample` | src/main/java/at/ac/fhcampuswien/fhmdb/HomeController.java:196 | "Tom", "tom", "Meryl" group to {"tom": 2, "meryl": 1} |
| `Examples.MostPopularActorExample` | src/main/java/at/ac/fhcampuswien/fhmdb/HomeController.java:193-201 | no movies give ""; casts "Tom", "tom", "Meryl" give "tom" |
| `Examples.FilterByQueryNullListExample` | src/main/java/at/ac/fhcampuswien/fhmdb/HomeController.java:109-111 | a non-empty query over a null list throws `IllegalArgumentException("movies must not be null")` |

## Left out

- `initialize`, `initializeLayout` and the fetch in `initializeState` (lines 57-91) are JavaFX widget setup and a remote HTTP call. The constructor keeps only the state that `initializeState` sets up, and takes the fetched list as a parameter.
- `applyAllFilters` (lines 135-143): the filtering is done server-side by `MovieAPI.getAllMovies`, which is not part of this model. Its "no filter" test compares strings by reference (`==`) against prompt texts. Its only local effect is to replace `observableMovies`.
- The event handlers `searchBtnClicked`, `resetBtnClicked` and `sortBtnClicked` (lines 145-171) read and reset widgets. The re-sort after a search at lines 157-159 flips the sort direction; that is UI wiring.
- The static label lists `titlesList` and `descriptionsList` (lines 54-55), and all of `FhmdbApplication.java` (JavaFX bootstrap, styling, window-width listener).
- `ObservableList` change notifications to the list view are not modelled; `observableMovies` is a plain sequence.
- `MostPopularActorIsMostFrequent`: it states only that the result has a maximal count, not which tied name wins. The source picks the first maximum in `HashMap` iteration order, which is unspecified. `PickMax` fixes one order: the first maximal name in input order.
- `JavaStrings.LowerChar` and `ToLowerCase`: only the ASCII capitals 'A'..'Z' are lower-cased, and every other character is kept unchanged. Java's `toLowerCase` is locale- and Unicode-sensitive.
- `JavaStrings.CompareTo`: it compares Dafny characters (Unicode scalar values). Java compares UTF-16 code units, so the two can differ for characters outside the Basic Multilingual Plane.
- `MovieQueries.GetLongestMovieTitle`: a title's length is its number of Dafny characters (Unicode scalar values). Java's `String.length` counts UTF-16 code units, so a title with characters outside the Basic Multilingual Plane is longer in Java.
- `MovieQueries.CountMoviesFrom`, `GetLongestMovieTitle`, `GetMoviesBetweenYears`, `GetMostPopularActor` and `HomeController.SortMovies` take lists without nulls. In Java a null list, a null movie or a null title or cast entry there throws `NullPointerException`; that case is not modelled.
- `Models.Movie`: every movie's title, description, genre list, director list and cast list are non-null for every operation. In Java, `filterByQuery` throws `NullPointerException` for a non-null movie with a null title. Because `||` short-circuits (line 116), it throws for a null description only when the lower-cased title does not contain the query (line 117). `filterByGenre` throws it for one with a null genre list (line 131). The model does not capture these exceptions.
- `Controller.HomeController.SortMovies`: `sortedState` is null until `initializeState` runs, and `sortMovies` then does nothing. The model's constructor always sets `NONE`, so this state does not occur.
- `SortMovies`: `observableMovies` is a JavaFX observable list, and its `sort` implementation is not part of this model. The model relies only on the documented contract of `List.sort`, which is a stable sort. It uses a stable insertion sort and proves that the result is ordered, is a permutation of the input, and keeps equal titles in input order.
- The movie rating (a `double`) and any other movie fields: no modelled operation reads them. The `Genre` enumeration's constants are not part of this model; a genre is identified by its name.
- Java `int`/`long` widths: the operations only compare years and count movies, so no wrap-around can occur for lists that fit in memory; unbounded integers are used.
