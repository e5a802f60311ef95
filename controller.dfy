/**
 * The stateful part of the catalog's `HomeController`: the working list of
 * movies on display and the direction it was last sorted in, toggled by
 * `sortMovies`.
 */
module Controller {
  import opened Models
  import opened Streams
  import opened TitleSort

  /** The state `sortMovies` moves to from `s`. */
  function NextState(s: SortedState): (r: SortedState)
    ensures r != NONE
    ensures r == ASCENDING <==> s != ASCENDING
  {
    match s
    case NONE => ASCENDING
    case DESCENDING => ASCENDING
    case ASCENDING => DESCENDING
  }

  /** The comparator that puts the list in state `s` (`s` is not `NONE`). */
  function DirectionOf(s: SortedState): Direction
  {
    if s == DESCENDING then Descending else Ascending
  }

  /** The sort state after `n` calls of `sortMovies` on a freshly initialised controller. */
  function StateAfter(n: nat): SortedState
  {
    if n == 0 then NONE else NextState(StateAfter(n - 1))
  }

  /** The toggle cycles NONE, ASCENDING, DESCENDING, ASCENDING, ... without end. */
  lemma {:induction false} StateAfterAlternates(n: nat)
    ensures StateAfter(n) == if n == 0 then NONE else if n % 2 == 1 then ASCENDING else DESCENDING
  {
    if n > 0 {
      StateAfterAlternates(n - 1);
    }
  }

  class HomeController {
    /** `observableMovies`: the working list on display. */
    var observableMovies: seq<Movie>
    /** `sortedState`. */
    var sortedState: SortedState

    /** The state set up by `initializeState`, given the list the catalog fetched. */
    constructor (allMovies: seq<Movie>)
      ensures observableMovies == allMovies
      ensures sortedState == NONE
    {
      observableMovies := allMovies;
      sortedState := NONE;
    }

    /**
     * `sortMovies()`: from NONE or DESCENDING sort by title ascending and
     * move to ASCENDING; from ASCENDING sort descending and move to
     * DESCENDING. The sort is a stable permutation of the list.
     */
    method SortMovies()
      modifies this
      ensures sortedState == NextState(old(sortedState))
      ensures observableMovies == SortByTitle(old(observableMovies), DirectionOf(sortedState))
      ensures Sorted(observableMovies, DirectionOf(sortedState))
      ensures multiset(observableMovies) == multiset(old(observableMovies))
      ensures forall t :: Filter(observableMovies, TitleIs(t)) == Filter(old(observableMovies), TitleIs(t))
    {
      ghost var before := observableMovies;
      if sortedState == NONE || sortedState == DESCENDING {
        observableMovies := SortByTitle(observableMovies, Ascending);
        sortedState := ASCENDING;
      } else if sortedState == ASCENDING {
        observableMovies := SortByTitle(observableMovies, Descending);
        sortedState := DESCENDING;
      }
      SortByTitleSorted(before, DirectionOf(sortedState));
      SortByTitlePermutation(before, DirectionOf(sortedState));
      forall t
        ensures Filter(observableMovies, TitleIs(t)) == Filter(before, TitleIs(t))
      {
        SortByTitleStable(before, DirectionOf(sortedState), t);
      }
    }
  }
}
