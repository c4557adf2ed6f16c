# usePopcorn: a verified model of the search, watch-list, persistence and key-binding logic

usePopcorn is a small React app for searching a movie database, opening a
movie's details, rating it and keeping a "watched" list. This project models
the state logic underneath its views, in Dafny:

- **Search controller** (`useMovies`, and the inline copy in the first version
  of `App`). `SearchSpec` is a state machine over values. It holds `movies`,
  `loading` and `error`, plus a record of every running request and whether
  its `AbortController` has been aborted. A query change is the effect's
  cleanup followed by the effect. Each request later settles exactly once, and
  unmounting runs the last cleanup. `UseMovies.MovieSearch` is the hook as an
  object: its methods run the hook's setter sequence and end in the state
  `SearchSpec` prescribes. The main theorem, `StaleResponseNeverWrites`, says
  that once a request is superseded, its response never changes the movies or
  the error the view shows: both end exactly as if that response had never
  arrived. Its `finally` still clears `loading` (`SupersededAbortClearsLoading`).
- **Watched list and selection** (`Watchlist`). These are the handlers' pure
  transformations: append, delete by id, toggle the selection, and the record
  `handleAdd` builds (including reading `"148 min"` as 148). Two pure pieces
  belong to the detail view: the membership guard that hides the rating widget,
  and the earlier rating it shows. The app classes `AppV3.App` and `AppV2.App`
  apply these transformations to their fields. `Details.SelectedMovie` is the
  detail view with its uncancelled, silently failing fetch.
- **Persisted state** (`LocalStorage`). Storage is a `map<string, string>`.
  JSON is a `Codec` the caller supplies, and the lemmas that need a round trip
  state it as a hypothesis. `PersistedState` reads its initial value lazily,
  then writes the full value under its key on mount and after every change.
- **Key bindings** (`Keys`). This covers the case-insensitive match of
  `useKey`, the exact `"Escape"` test of the first version, and the document's
  listener list. `KeyBinding` registers one listener when its effect runs,
  replaces it when the effect re-runs, and removes it on teardown.

In these places the code behaves differently from what its UI suggests, and
the model follows the code:

- The non-ok search message is `"soemthing went wrong"`, spelled as the code
  spells it.
- A short query is judged by JavaScript's `query.length`, which counts UTF-16
  code units (`SearchSpec.JsLength`), with no trim. The effect never
  sets `loading` itself for a short query: `loading` is cleared only by the
  `finally` of a request.
- The same `finally` also runs for a superseded request. So when one long
  query replaces another, the spinner goes off while the newer request is
  still running (`SupersededAbortClearsLoading`).
- A stored watched list that does not parse is not replaced by an empty list.
  `JSON.parse` throws, which `LazyInit` models as `Err(SyntaxError)`.
- Deleting removes every entry with the id, not just one.
- A failed search keeps the previous movies in both versions.

The detail view of the first version (src/App-v2.js:223-366) matches the
second version's line for line. The exceptions are its Escape handler and the
`countRef` logging. `Keys.KeyBinding` models the handler's registration with
the `Exact` matcher, and `AppV2.App.KeyDown` models its effect on the app.
`Details.SelectedMovie` models both versions.

## Model

| member | source | states |
|---|---|---|
| `SearchSpec.JsLength` | src/useMovies.js:39 | `query.length` counts UTF-16 code units: at least the number of characters and at most twice it, and exactly it when no character lies above U+FFFF. |
| `SearchSpec.EmojiQueryIsThreeUnitsLong` | src/useMovies.js:39 | "a" followed by an emoji is two characters but three code units, so it is long enough to be searched. |
| `SearchSpec.Init` | src/useMovies.js:4-6 | The hook starts with no movies, not loading, no error and no request; that state satisfies the controller invariant. |
| `SearchSpec.AbortCurrent` | src/useMovies.js:47-49 | The cleanup marks the current request aborted if it is still running and changes nothing else. |
| `SearchSpec.OnQuery` | src/useMovies.js:8-50 | The previous request is aborted. A query shorter than 3 UTF-16 code units (`query.length`, no trim) gives movies `[]` and error `""`, issues no request and leaves no current request. A longer one keeps the movies, sets loading, clears the error and registers exactly one new, live request. The invariant is preserved. |
| `SearchSpec.OnSettle` | src/useMovies.js:20-36 | Loading ends false and the request leaves the running set. An aborted request leaves movies and error untouched. Otherwise: non-ok gives "soemthing went wrong", no match gives "Movie not found", any other exception gives its message (movies unchanged in all three), and a match list replaces the movies and clears the error. A request that is not running changes nothing. |
| `SearchSpec.OnUnmount` | src/useMovies.js:47-49 | Unmounting aborts the current request. Afterwards every running request is aborted and none is current. |
| `SearchSpec.RunPreservesValid` | src/useMovies.js:8-50 | Every sequence of events keeps the invariant: ids are never reused, at most one running request is live and it is the current one, and loading implies a running request. |
| `SearchSpec.QueryChangeSupersedes` | src/useMovies.js:47-49 | A new query aborts the request still running for the previous one, and that request's delivery can no longer change movies or error. |
| `SearchSpec.SupersededAbortClearsLoading` | src/useMovies.js:30-36 | As written, the superseded request's `finally` clears loading while the newer request is still running and live. |
| `SearchSpec.StaleResponseNeverWrites` | src/useMovies.js:30-33 | For every later event sequence, a superseded request's delivery leaves the final movies and error equal to those of the same sequence without it. |
| `SearchSpec.LaterQueryWins` | src/useMovies.js:45-49 | After a query Q1 of 3 or more code units is followed by Q2, Q1's response never affects the movies or the error, whenever it arrives. |
| `UseMovies.MovieSearch.constructor` | src/useMovies.js:4-6 | The hook's fields start as `[]`, `false`, `""`, equal to `SearchSpec.Init`. |
| `UseMovies.MovieSearch.QueryChanged` | src/useMovies.js:8-50 | The cleanup-then-effect setter sequence ends in `OnQuery` of the old state. It returns the new request's id exactly for queries of 3 or more code units. |
| `UseMovies.MovieSearch.Settle` | src/useMovies.js:10-37 | The try/catch/finally setter sequence ends in `OnSettle` of the old state; loading is false afterwards. |
| `UseMovies.MovieSearch.Unmount` | src/useMovies.js:47-49 | The last cleanup ends in `OnUnmount` of the old state. |
| `Watchlist.IsWatched` | src/App-v3.js:305 | `.some` holds exactly when some entry of the list has the id. |
| `Watchlist.CanRate` | src/App-v3.js:305-323 | The star widget shows exactly when no earlier rating is found, so exactly one of the two branches appears. |
| `Watchlist.ShowAdd` | src/App-v3.js:312 | Add shows only with the widget and a rating of at least 1; with rating 0 or a watched movie it is hidden. |
| `Watchlist.WatchedAfterAddAndDelete` | src/App-v3.js:345-361 | After an add the list holds the movie's id and every id it held, and no other. After a delete the id is gone and every other id is kept. |
| `Watchlist.PreviousRating` | src/App-v3.js:210-212 | The result is defined exactly when some entry has the selected id, and it is the rating of the first such entry. |
| `Watchlist.AddWatched` | src/App-v3.js:345-348 | The list grows by one; all earlier entries are unchanged and the new movie is last. |
| `Watchlist.ToggleSelected` | src/App-v3.js:350-352 | The selection becomes null exactly when `id` was selected, and `id` otherwise. |
| `Watchlist.ToggleTwice` | src/App-v3.js:350-352 | Toggling the same id twice restores the selection exactly when it was null or that id; from any other selection it ends null. |
| `Watchlist.DeleteWatched` | src/App-v3.js:358-361 | The result holds exactly the entries whose id differs, in their original relative order. Its length drops by the number of matching entries. |
| `Watchlist.DeleteIdempotent` | src/App-v3.js:358-361 | Deleting an id twice is the same as deleting it once. |
| `Watchlist.DeleteUnwatched` | src/App-v3.js:358-361 | Deleting an id no entry has leaves the list unchanged. |
| `Watchlist.DeleteAfterAdd` | src/App-v3.js:345-361 | Deleting the id of a just-added movie gives the same list as deleting it before the add; when the id was new, it gives the original list. |
| `Watchlist.DeleteUniqueDropsOne` | src/App-v3.js:358-361 | In a list with unique ids, deleting a present id shortens the list by exactly one and the id is gone. |
| `Watchlist.FirstToken` | src/App-v3.js:271 | `split(" ").at(0)` is the prefix of the runtime text that ends at its first space, or the whole text if it has none. |
| `Watchlist.ParseRuntime` | src/App-v3.js:271 | `Number(runtime.split(" ").at(0))` is a whole number exactly when the first word is all digits. A runtime that is empty or starts with a space gives 0, and an all-digit runtime gives its value. |
| `Watchlist.NumberOfToken` | src/App-v3.js:271 | `Number(token)` is a whole number exactly when the token is all digits; the empty token gives 0. |
| `Watchlist.DigitsRoundTrip` | src/App-v3.js:271 | Reading back the decimal digits of `n` gives `n`. |
| `Watchlist.RuntimeOfMinutes` | src/App-v3.js:271 | A runtime written `"<n> min"` parses to `n` minutes. |
| `Watchlist.RuntimeOf148` | src/App-v3.js:271 | `"148 min"` parses to 148. |
| `Watchlist.NewEntry` | src/App-v3.js:263-277 | The new entry has the selected id, the chosen rating, the payload's title, year and poster, its `imdbRating` kept as uninterpreted text, and the parsed runtime. With no `Runtime` in the payload, `runtime.split` throws a TypeError. |
| `Watchlist.AddThroughGuardKeepsIdsUnique` | src/App-v3.js:305-316 | Adding while the Add button is shown keeps the ids of a unique-id list unique. The movie then shows as rated, with the new rating. |
| `Details.SelectedMovie.constructor` | src/App-v3.js:195-259 | On mount the details are `{}` and the rating is 0, and the detail fetch starts (loading). |
| `Details.SelectedMovie.SelectionChanged` | src/App-v3.js:236-259 | A new selection starts a new fetch (loading) and keeps the old details and rating; nothing cancels the earlier fetch. |
| `Details.SelectedMovie.DetailsArrived` | src/App-v3.js:248-256 | A payload replaces the details, a failure leaves them unchanged and shows no error, and loading ends false. Any response is applied, whichever selection it was for. |
| `Details.SelectedMovie.Rate` | src/App-v3.js:307-311 | The chosen rating is stored; nothing else changes. |
| `Details.SelectedMovie.RatingArea` | src/App-v3.js:281-323 | The area is rendered only when the details are not loading: while loading, no widget, no Add button and no earlier rating show. Otherwise the widget shows exactly when the movie is not watched, Add shows exactly when the widget shows and the rating is positive, and for a watched movie the earlier rating shows, taken from the first matching entry as `find` does. |
| `Details.SelectedMovie.Add` | src/App-v3.js:263-277 | Clicking Add yields exactly the entry `handleAdd` builds (`NewEntry` of the selected id, the details and the rating): the selected id and rating, the payload's title, year and poster, and the parsed runtime, for a movie the list does not yet hold. A missing runtime gives the TypeError. |
| `LocalStorage.LazyInit` | src/useLocalStorageState.js:4-10 | An absent or empty stored string gives the initial value. Otherwise the result is the parse, and a parse failure is a SyntaxError with no fallback. |
| `LocalStorage.ReloadYieldsLastValue` | src/useLocalStorageState.js:9-13 | After `v` is written under the key, initialising again from storage gives `v`, given that the codec round-trips. |
| `LocalStorage.PersistedState.constructor` | src/useLocalStorageState.js:4-14 | The value is the lazy initial value, and mounting writes its encoding under the key. |
| `LocalStorage.PersistedState.Set` | src/useLocalStorageState.js:12-14 | The full encoding of the new value replaces the entry under the key. Every other key is unchanged, and a reload gives the new value back. |
| `Keys.Lower` | src/useKey.js:6 | Lowering keeps the length and lowers each character. |
| `Keys.KeyMatches` | src/useKey.js:6 | A match needs equal lengths, and every key matches itself. |
| `Keys.MatchIsCaseInsensitive` | src/useKey.js:6 | A code matches a key exactly when both have the same length and agree position by position up to case. |
| `Keys.SameKeyUpToCase` | src/useKey.js:6 | Two keys that differ only in case accept the same codes. |
| `Keys.EscapeBindingsAgree` | src/useKey.js:6-8 | The bindings "escape" and "Escape" accept the same key presses. |
| `Keys.EnterIsNotEscape` | src/App-v3.js:13-19 | No key press triggers both the Enter binding and the Escape binding. |
| `Keys.ExactEscapeIsStricter` | src/App-v2.js:250-255 | The exact `"Escape"` test accepts only codes that the case-insensitive binding accepts, and strictly fewer ("ESCAPE"). |
| `Keys.Accepts` | src/useKey.js:6 | The exact matcher accepts exactly its own code (src/App-v2.js:252). The case-insensitive one accepts its key and only codes of the key's length. |
| `Keys.Invoked` | src/useKey.js:5-10 | A key press runs the action of every listener that accepts its code, and no other action. |
| `Keys.OtherCodeInvokesNothing` | src/useKey.js:6-8 | A code that no listener accepts runs nothing. |
| `Keys.InvokedAppend` | src/useKey.js:5-10 | Actions run in registration order: a listener registered last runs after all the others, once, exactly when it accepts the code. |
| `Keys.Without` | src/useKey.js:12-14 | Removing a closure keeps exactly the listeners with other handles, and handles stay distinct. |
| `Keys.WithoutAppend` | src/useKey.js:12-14 | Removing a closure keeps the other listeners in registration order. |
| `Keys.Document.AddKeydownListener` | src/useKey.js:10 | The new listener is appended with a fresh handle. |
| `Keys.Document.RemoveKeydownListener` | src/useKey.js:13 | Only the listener with that handle is removed. |
| `Keys.KeyBinding.constructor` | src/useKey.js:4-10 | Mounting registers exactly one listener for the binding. |
| `Keys.KeyBinding.Teardown` | src/useKey.js:12-14 | The cleanup removes the binding's listener, and no listener of the binding remains. |
| `Keys.KeyBinding.Rerun` | src/useKey.js:4-15 | A re-run replaces the listener: the old one is removed and one new one is appended. |
| `Keys.TornDownBindingIsSilent` | src/useKey.js:12-14 | The cleanup removes the binding's only listener. If no other listener carries the binding's action, no key press runs it afterwards. |
| `Keys.AtMostOneListener` | src/useKey.js:10-15 | In a list with distinct handles, if every listener with an owned handle carries the current handle, at most one listener has an owned handle. |
| `Keys.BindingHasAtMostOneListener` | src/useKey.js:10-15 | A valid `KeyBinding` never has two listeners on its document. |
| `AppV3.App.constructor` | src/App-v3.js:337-343 | On mount the query is empty, nothing is selected, the search is in its initial state, and the watched list is read from storage and written back under "watched". |
| `AppV3.App.SetQuery` | src/App-v3.js:338-342 | The search effect runs only when the query changes, and the selection is not touched. |
| `AppV3.App.SearchSettled` | src/App-v3.js:342 | A settling request moves the search to `OnSettle` of its state. |
| `AppV3.App.SelectMovie` | src/App-v3.js:350-352 | The selection is toggled. |
| `AppV3.App.CloseMovie` | src/App-v3.js:354-356 | The selection becomes null. |
| `AppV3.App.AddWatched` | src/App-v3.js:345-348 | The movie is appended and the selection cleared. The whole list is written under "watched", and a reload gives it back. |
| `AppV3.App.DeleteWatched` | src/App-v3.js:358-361 | The filtered list replaces the old one and is written under "watched". |
| `AppV3.App.SetSearchFocus` | src/App-v3.js:14 | The focus of the search box changes and nothing else does. |
| `AppV3.App.PressEnter` | src/App-v3.js:13-19 | With the search box focused, nothing changes. Otherwise the box gains focus and the query becomes `""`. If the query was not already empty, the search moves to `OnQuery` of its state for `""`: the running request is aborted and movies and error are cleared. |
| `AppV3.App.KeyDown` | src/App-v3.js:13-19 | Enter (any case) has exactly the effect of `PressEnter` on query, focus and search, and keeps the selection. Escape (any case) closes the detail view and keeps query, focus and search. Any other code changes nothing. |
| `AppV2.App.constructor` | src/App-v2.js:369-374 | Everything starts empty; the watched list is not read from storage. |
| `AppV2.App.SetQuery` | src/App-v2.js:376-422 | A changed query of 3 or more code units closes the detail view and starts the search. A short one clears movies and error and leaves the selection alone. |
| `AppV2.App.SearchSettled` | src/App-v2.js:378-405 | A settling request moves the search to `OnSettle` of its state. |
| `AppV2.App.SelectMovie` | src/App-v2.js:429-431 | The selection is toggled. |
| `AppV2.App.CloseMovie` | src/App-v2.js:433-435 | The selection becomes null. |
| `AppV2.App.KeyDown` | src/App-v2.js:250-261 | Only the exact code "Escape" closes the detail view. Any other code, "escape" included, changes nothing. Query, list and search are always kept. |
| `AppV2.App.AddWatched` | src/App-v2.js:424-427 | The movie is appended and the selection cleared; nothing is persisted. |
| `AppV2.App.DeleteWatched` | src/App-v2.js:437-440 | Every entry with the id is removed. |

## Left out

- Rendering is not modelled: JSX and the presentational components (`Logo`, `NavBar`, `Box`, `Movie`, `MovieList`, `WatchedMovie`, `Loader`, `ErrorMessage`). They only display fields. `StarRating` is not part of this model; its ratings arrive as plain numbers.
- `average` and `WatchedSummary` are not modelled, because they use floating-point division and `toFixed`.
- `imdbRating` is kept as the text `Number` was applied to, because the rating is a float.
- `Watchlist.ParseRuntime`: inherits the limits of `NumberOfToken` below, so a runtime such as "1e2 min" or "+90 min", which JavaScript reads as 100 and 90, stays uninterpreted.
- `Watchlist.NumberOfToken`: for a token that is not all digits (a fraction, a hex literal, "Infinity", NaN), `Number` is not interpreted. The token is kept as text. A digit string is read exactly at any length, whereas JavaScript rounds values above 2^53.
- `Keys.Lower`: only ASCII letters are lowered. JavaScript's full Unicode `toLowerCase` is not modelled.
- `fetch`, URLs, the API key and JSON decoding become abstract responses (`Response`, `DetailResponse`) and an abstract `Codec`. `LocalStorage.ReloadYieldsLastValue` assumes the codec round-trips, which real JSON does not do for `NaN` or `undefined` fields.
- Asynchronous interleaving is not modelled. It becomes a sequence of events, and cancellation is an aborted flag per request. A request aborted after its body was read is assumed to reach its continuation as an `AbortError`.
- DOM focus is reduced to a boolean. `document.title` effects, `countRef` and `console.log` are not modelled.
- React's render cycle is not modelled: batching, a re-render that an unchanged state skips, and state updates on an unmounted detail view.
- A detail view re-fetches when its selection changes, but it is not unmounted. Its fetch has no cancellation to model.
- `AppV3.App.KeyDown` dispatches the two `useKey` bindings directly. Their registration and removal on the document are modelled separately, by `Keys.KeyBinding`.
- `LocalStorage.PersistedState.constructor`: a stored value that does not parse throws before the component mounts, so the constructor requires the successful case. `LocalStorage.LazyInit` models the error itself.
- src/Converter.js is not part of this model. It is a currency-conversion fetch wrapper.
- The unused fixtures `tempMovieData` and `tempWatchedData`, and the `imdbID`/`imdbId` mismatch in list keys, are not modelled. The mismatch is display-only.
