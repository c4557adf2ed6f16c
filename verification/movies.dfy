/**
 * The records the watch-list app passes around: search hits and detail payloads
 * as the movie database returns them, and the entries of the watched list.
 */
module Movies {
  import opened Wrappers

  /** One hit of the search endpoint: `imdbID`, `Title`, `Year`, `Poster`. */
  datatype MovieSummary = MovieSummary(imdbID: string, title: string, year: string, poster: string)

  /**
   * The detail payload. A field the payload does not carry is `undefined` in the
   * app, written `None` here; before a payload arrives the details are `{}`.
   */
  datatype MovieDetails = MovieDetails(
    title: Option<string>,
    year: Option<string>,
    poster: Option<string>,
    runtime: Option<string>,
    imdbRating: Option<string>,
    plot: Option<string>,
    released: Option<string>,
    actors: Option<string>,
    director: Option<string>,
    genre: Option<string>)

  /** The `{}` a detail view starts with. */
  const NoDetails := MovieDetails(None, None, None, None, None, None, None, None, None, None)

  /**
   * A value produced by JavaScript's `Number(text)`. A whole number of minutes is
   * interpreted; anything else (a fraction, NaN, a float rating) is kept as the
   * text it was computed from.
   */
  datatype Num = Whole(n: nat) | Uninterpreted(text: Option<string>)

  /** An entry of the watched list, as `handleAdd` builds it. */
  datatype WatchedEntry = WatchedEntry(
    imdbId: string,
    title: Option<string>,
    year: Option<string>,
    poster: Option<string>,
    imdbRating: Num,
    userRating: nat,
    runtime: Num)

  /** The two exceptions the modelled code can raise and does not catch. */
  datatype JsError = SyntaxError | TypeError
}
