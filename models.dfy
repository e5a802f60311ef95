/**
 * The entities the movie query engine works on. `Movie`, `Genre` and
 * `SortedState` live in the catalog's `models` package; only the parts the
 * query engine reads are modelled here.
 */
module Models {

  /** A possibly-null Java reference: `None` stands for `null`. */
  datatype Option<T> = None | Some(value: T)

  /** The exceptions the engine throws. */
  datatype Error = IllegalArgument(message: string)

  /** A value, or the exception that was thrown instead of returning one. */
  datatype Result<T> = Ok(value: T) | Err(error: Error)

  /**
   * A genre tag. The enumeration's constants are not part of this model; a
   * genre is identified by the name of its constant, and genres are compared
   * by identity, as Java enum constants are.
   */
  datatype Genre = Genre(name: string)

  /** A movie record, read-only for the engine (the rating is not modelled). */
  datatype Movie = Movie(
    title: string,
    description: string,
    genres: set<Genre>,
    releaseYear: int,
    directors: seq<string>,
    mainCast: seq<string>)

  /** A Java `List<Movie>` that may itself be null and may hold null elements. */
  type MovieList = Option<seq<Option<Movie>>>

  /** The direction the working list was last sorted in. */
  datatype SortedState = NONE | ASCENDING | DESCENDING
}
