/**
 * Sorting the working list by title. `Comparator.comparing(Movie::getTitle)`
 * orders movies by `String.compareTo` of their titles, and `.reversed()`
 * swaps the arguments. `List.sort` is a stable sort; it is modelled by a
 * stable insertion sort, whose result is ordered, a permutation of its input
 * and keeps movies with equal titles in input order (see
 * `HomeController.SortMovies`).
 */
module TitleSort {
  import opened Models
  import opened JavaStrings
  import opened Streams

  /** Which of the two comparators of `sortMovies` is used. */
  datatype Direction = Ascending | Descending

  /** The comparator: `comparing(Movie::getTitle)`, or its reversal. */
  function Compare(a: Movie, b: Movie, dir: Direction): (r: int)
    ensures r == 0 <==> a.title == b.title
    ensures dir == Descending ==> r == -CompareTo(a.title, b.title)
  {
    CompareToZeroIffEqual(a.title, b.title);
    CompareToZeroIffEqual(b.title, a.title);
    CompareToAntisymmetric(a.title, b.title);
    match dir
    case Ascending => CompareTo(a.title, b.title)
    case Descending => CompareTo(b.title, a.title)
  }

  /** Both comparators are antisymmetric. */
  lemma CompareAntisymmetric(a: Movie, b: Movie, dir: Direction)
    ensures Compare(b, a, dir) == -Compare(a, b, dir)
  {
    CompareToAntisymmetric(a.title, b.title);
  }

  /** Both comparators are transitive. */
  lemma CompareTransitive(a: Movie, b: Movie, c: Movie, dir: Direction)
    requires Compare(a, b, dir) <= 0 && Compare(b, c, dir) <= 0
    ensures Compare(a, c, dir) <= 0
  {
    match dir
    case Ascending => CompareToTransitive(a.title, b.title, c.title);
    case Descending => CompareToTransitive(c.title, b.title, a.title);
  }

  /** Both comparators report a tie exactly for movies with the same title. */
  lemma CompareZeroIffSameTitle(a: Movie, b: Movie, dir: Direction)
    ensures Compare(a, b, dir) == 0 <==> a.title == b.title
  {
    CompareToZeroIffEqual(a.title, b.title);
    CompareToZeroIffEqual(b.title, a.title);
  }

  /** No later movie comes before an earlier one under the comparator. */
  ghost predicate Sorted(s: seq<Movie>, dir: Direction)
  {
    forall i, j :: 0 <= i < j < |s| ==> Compare(s[i], s[j], dir) <= 0
  }

  /** Every earlier movie comes strictly before every later one. */
  ghost predicate StrictlySorted(s: seq<Movie>, dir: Direction)
  {
    forall i, j :: 0 <= i < j < |s| ==> Compare(s[i], s[j], dir) < 0
  }

  /** No two positions hold movies with the same title. */
  ghost predicate DistinctTitles(s: seq<Movie>)
  {
    forall i, j :: 0 <= i < j < |s| ==> s[i].title != s[j].title
  }

  /** Inserts `x` in front of the first movie it does not come after. */
  function Insert(x: Movie, s: seq<Movie>, dir: Direction): (r: seq<Movie>)
    ensures |r| == |s| + 1
  {
    if s == [] then [x]
    else if Compare(x, s[0], dir) <= 0 then [x] + s
    else [s[0]] + Insert(x, s[1..], dir)
  }

  /** `list.sort(comparator)` on the list `s`. */
  function SortByTitle(s: seq<Movie>, dir: Direction): (r: seq<Movie>)
    ensures |r| == |s|
  {
    if s == [] then [] else Insert(s[0], SortByTitle(s[1..], dir), dir)
  }

  /** Inserting adds exactly `x` to the multiset of movies. */
  lemma {:induction false} InsertMultiset(x: Movie, s: seq<Movie>, dir: Direction)
    ensures multiset(Insert(x, s, dir)) == multiset(s) + multiset{x}
  {
    if s == [] {
    } else if Compare(x, s[0], dir) <= 0 {
      assert Insert(x, s, dir) == [x] + s;
    } else {
      var y, rest := s[0], s[1..];
      InsertMultiset(x, rest, dir);
      assert s == [y] + rest;
      assert Insert(x, s, dir) == [y] + Insert(x, rest, dir);
    }
  }

  /** The movies of `Insert(x, s)` are `x` and the movies of `s`. */
  lemma InsertMembers(x: Movie, s: seq<Movie>, dir: Direction, y: Movie)
    ensures y in Insert(x, s, dir) <==> y == x || y in s
  {
    InsertMultiset(x, s, dir);
    assert y in Insert(x, s, dir) <==> y in multiset(Insert(x, s, dir));
  }

  /** A movie that comes before every movie of a sorted list can be put in front. */
  lemma ConsSorted(x: Movie, s: seq<Movie>, dir: Direction)
    requires Sorted(s, dir)
    requires forall y :: y in s ==> Compare(x, y, dir) <= 0
    ensures Sorted([x] + s, dir)
  {
    var r := [x] + s;
    forall i, j | 0 <= i < j < |r|
      ensures Compare(r[i], r[j], dir) <= 0
    {
      assert r[j] == s[j - 1];
      if i > 0 {
        assert r[i] == s[i - 1];
      }
    }
  }

  /** Inserting into an ordered list keeps it ordered. */
  lemma {:induction false} InsertSorted(x: Movie, s: seq<Movie>, dir: Direction)
    requires Sorted(s, dir)
    ensures Sorted(Insert(x, s, dir), dir)
  {
    if s == [] {
    } else if Compare(x, s[0], dir) <= 0 {
      forall y | y in s
        ensures Compare(x, y, dir) <= 0
      {
        var k :| 0 <= k < |s| && s[k] == y;
        if k > 0 {
          CompareTransitive(x, s[0], y, dir);
        }
      }
      ConsSorted(x, s, dir);
    } else {
      CompareAntisymmetric(x, s[0], dir);
      InsertSorted(x, s[1..], dir);
      var tail := Insert(x, s[1..], dir);
      forall y | y in tail
        ensures Compare(s[0], y, dir) <= 0
      {
        InsertMembers(x, s[1..], dir, y);
        if y != x {
          var k :| 0 <= k < |s[1..]| && s[1..][k] == y;
          assert s[k + 1] == y;
        }
      }
      ConsSorted(s[0], tail, dir);
    }
  }

  /** The sorted list is ordered by the comparator. */
  lemma {:induction false} SortByTitleSorted(s: seq<Movie>, dir: Direction)
    ensures Sorted(SortByTitle(s, dir), dir)
  {
    if s != [] {
      SortByTitleSorted(s[1..], dir);
      InsertSorted(s[0], SortByTitle(s[1..], dir), dir);
    }
  }

  /** The sorted list is a permutation of the list. */
  lemma {:induction false} SortByTitlePermutation(s: seq<Movie>, dir: Direction)
    ensures multiset(SortByTitle(s, dir)) == multiset(s)
  {
    if s != [] {
      SortByTitlePermutation(s[1..], dir);
      InsertMultiset(s[0], SortByTitle(s[1..], dir), dir);
      assert s == [s[0]] + s[1..];
    }
  }

  /** The movie has title `t`. */
  function TitleIs(t: string): Movie -> bool
  {
    (m: Movie) => m.title == t
  }

  /** Among the movies titled `t`, inserting keeps the order of `[x] + s`. */
  lemma {:induction false} InsertStable(x: Movie, s: seq<Movie>, dir: Direction, t: string)
    ensures Filter(Insert(x, s, dir), TitleIs(t)) == Filter([x] + s, TitleIs(t))
  {
    if s != [] && Compare(x, s[0], dir) > 0 {
      var p := TitleIs(t);
      var y, rest := s[0], s[1..];
      var hx := if p(x) then [x] else [];
      var hy := if p(y) then [y] else [];
      CompareZeroIffSameTitle(x, y, dir);
      assert hy == [] || hx == [];
      InsertStable(x, rest, dir, t);
      assert s == [y] + rest;
      assert Insert(x, s, dir) == [y] + Insert(x, rest, dir);
      FilterCons(y, Insert(x, rest, dir), p);
      FilterCons(x, rest, p);
      FilterCons(y, rest, p);
      FilterCons(x, s, p);
      assert hy + (hx + Filter(rest, p)) == hx + (hy + Filter(rest, p));
    }
  }

  /** The sort is stable: movies with the same title keep their relative order. */
  lemma {:induction false} SortByTitleStable(s: seq<Movie>, dir: Direction, t: string)
    ensures Filter(SortByTitle(s, dir), TitleIs(t)) == Filter(s, TitleIs(t))
  {
    if s != [] {
      SortByTitleStable(s[1..], dir, t);
      InsertStable(s[0], SortByTitle(s[1..], dir), dir, t);
      assert ([s[0]] + SortByTitle(s[1..], dir))[1..] == SortByTitle(s[1..], dir);
      assert ([s[0]] + s[1..]) == s;
    }
  }

  /** Sorting keeps titles distinct. */
  lemma {:induction false} SortByTitleDistinct(s: seq<Movie>, dir: Direction)
    requires DistinctTitles(s)
    ensures DistinctTitles(SortByTitle(s, dir))
  {
    if s != [] {
      DistinctTitlesTail(s);
      SortByTitleDistinct(s[1..], dir);
      SortByTitlePermutation(s[1..], dir);
      var rest := SortByTitle(s[1..], dir);
      forall y | y in rest
        ensures y.title != s[0].title
      {
        assert y in multiset(rest);
      }
      InsertDistinct(s[0], rest, dir);
    }
  }

  /** A movie whose title is new can be put in front of a list with distinct titles. */
  lemma ConsDistinct(x: Movie, s: seq<Movie>)
    requires DistinctTitles(s)
    requires forall y :: y in s ==> y.title != x.title
    ensures DistinctTitles([x] + s)
  {
    var r := [x] + s;
    forall i, j | 0 <= i < j < |r|
      ensures r[i].title != r[j].title
    {
      assert r[j] == s[j - 1];
      if i > 0 {
        assert r[i] == s[i - 1];
      }
    }
  }

  /** The rest of a list with distinct titles has distinct titles. */
  lemma DistinctTitlesTail(s: seq<Movie>)
    requires s != [] && DistinctTitles(s)
    ensures DistinctTitles(s[1..])
    ensures forall y :: y in s[1..] ==> y.title != s[0].title
  {
    forall i, j | 0 <= i < j < |s[1..]|
      ensures s[1..][i].title != s[1..][j].title
    {
      assert s[1..][i] == s[i + 1] && s[1..][j] == s[j + 1];
    }
    forall y | y in s[1..]
      ensures y.title != s[0].title
    {
      var k :| 0 <= k < |s[1..]| && s[1..][k] == y;
      assert s[k + 1] == y;
    }
  }

  /** Inserting a movie with a new title keeps titles distinct. */
  lemma {:induction false} InsertDistinct(x: Movie, s: seq<Movie>, dir: Direction)
    requires DistinctTitles(s)
    requires forall y :: y in s ==> y.title != x.title
    ensures DistinctTitles(Insert(x, s, dir))
  {
    if s == [] {
    } else if Compare(x, s[0], dir) <= 0 {
      ConsDistinct(x, s);
    } else {
      DistinctTitlesTail(s);
      InsertDistinct(x, s[1..], dir);
      var tail := Insert(x, s[1..], dir);
      forall y | y in tail
        ensures y.title != s[0].title
      {
        InsertMembers(x, s[1..], dir, y);
      }
      ConsDistinct(s[0], tail);
    }
  }

  /** Two strictly sorted permutations of each other are equal. */
  lemma {:induction false} StrictlySortedUnique(a: seq<Movie>, b: seq<Movie>, dir: Direction)
    requires StrictlySorted(a, dir) && StrictlySorted(b, dir)
    requires multiset(a) == multiset(b)
    ensures a == b
    decreases |a|, 1
  {
    if a == [] || b == [] {
      assert |a| == |multiset(a)| && |b| == |multiset(b)|;
    } else {
      SameFirst(a, b, dir);
      SameRest(a, b, dir);
      assert a == [a[0]] + a[1..] && b == [b[0]] + b[1..];
    }
  }

  /** The step of `StrictlySortedUnique`: equal first movies leave equal rests. */
  lemma {:induction false} SameRest(a: seq<Movie>, b: seq<Movie>, dir: Direction)
    requires StrictlySorted(a, dir) && StrictlySorted(b, dir)
    requires multiset(a) == multiset(b) && a != [] && b != [] && a[0] == b[0]
    ensures a[1..] == b[1..]
    decreases |a|, 0
  {
    TailMultiset(a);
    TailMultiset(b);
    StrictlySortedTail(a, dir);
    StrictlySortedTail(b, dir);
    StrictlySortedUnique(a[1..], b[1..], dir);
  }

  /** Dropping the first movie removes exactly it from the multiset. */
  lemma TailMultiset(s: seq<Movie>)
    requires s != []
    ensures multiset(s[1..]) == multiset(s) - multiset{s[0]}
  {
    assert s == [s[0]] + s[1..];
  }

  /** The rest of a strictly sorted list is strictly sorted. */
  lemma StrictlySortedTail(s: seq<Movie>, dir: Direction)
    requires s != [] && StrictlySorted(s, dir)
    ensures StrictlySorted(s[1..], dir)
  {
    forall i, j | 0 <= i < j < |s[1..]|
      ensures Compare(s[1..][i], s[1..][j], dir) < 0
    {
      assert s[1..][i] == s[i + 1] && s[1..][j] == s[j + 1];
    }
  }

  /** Two strictly sorted, non-empty permutations of each other start alike. */
  lemma SameFirst(a: seq<Movie>, b: seq<Movie>, dir: Direction)
    requires StrictlySorted(a, dir) && StrictlySorted(b, dir)
    requires multiset(a) == multiset(b) && a != [] && b != []
    ensures a[0] == b[0]
  {
    assert a[0] in multiset(b) && b[0] in multiset(a);
    if a[0] != b[0] {
      FirstIsLeast(a, b[0], dir);
      FirstIsLeast(b, a[0], dir);
      CompareAntisymmetric(a[0], b[0], dir);
      assert false;
    }
  }

  /** The first movie of a strictly sorted list comes before every other one. */
  lemma FirstIsLeast(s: seq<Movie>, y: Movie, dir: Direction)
    requires StrictlySorted(s, dir) && y in s && y != s[0]
    ensures Compare(s[0], y, dir) < 0
  {
    var k :| 0 <= k < |s| && s[k] == y;
  }

  /** Reversing a strictly ascending list gives a strictly descending one. */
  lemma ReverseStrictlySorted(s: seq<Movie>)
    requires StrictlySorted(s, Ascending)
    ensures StrictlySorted(Reverse(s), Descending)
  {
    var r := Reverse(s);
    forall i, j | 0 <= i < j < |r|
      ensures Compare(r[i], r[j], Descending) < 0
    {
      ReverseAt(s, i);
      ReverseAt(s, j);
    }
  }

  /**
   * With pairwise distinct titles, the descending order is the exact
   * reverse of the ascending order.
   */
  lemma SortDescendingIsReversedAscending(s: seq<Movie>)
    requires DistinctTitles(s)
    ensures SortByTitle(s, Descending) == Reverse(SortByTitle(s, Ascending))
  {
    var up, down := SortByTitle(s, Ascending), SortByTitle(s, Descending);
    forall dir: Direction
      ensures StrictlySorted(SortByTitle(s, dir), dir)
    {
      var r := SortByTitle(s, dir);
      SortByTitleSorted(s, dir);
      SortByTitleDistinct(s, dir);
      forall i, j | 0 <= i < j < |r|
        ensures Compare(r[i], r[j], dir) < 0
      {
        CompareZeroIffSameTitle(r[i], r[j], dir);
      }
    }
    ReverseStrictlySorted(up);
    SortByTitlePermutation(s, Ascending);
    SortByTitlePermutation(s, Descending);
    ReverseMultiset(up);
    StrictlySortedUnique(down, Reverse(up), Descending);
  }

  /**
   * With a repeated title the reversal property fails: the reversed
   * comparator keeps tied movies in input order, as the ascending one does.
   */
  lemma DescendingKeepsTiesInInputOrder()
    ensures var first := Movie("Up", "a", {}, 2009, [], []);
      var second := Movie("Up", "b", {}, 2009, [], []);
      && SortByTitle([first, second], Ascending) == [first, second]
      && SortByTitle([first, second], Descending) == [first, second]
      && Reverse(SortByTitle([first, second], Ascending)) == [second, first]
  {
    var first := Movie("Up", "a", {}, 2009, [], []);
    var second := Movie("Up", "b", {}, 2009, [], []);
    CompareToZeroIffEqual("Up", "Up");
    assert [first, second][1..] == [second];
    assert SortByTitle([second], Ascending) == [second];
    assert SortByTitle([second], Descending) == [second];
  }
}
