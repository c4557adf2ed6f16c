/**
 * The first version of `App`: the same search logic written inline (here the
 * same `MovieSearch` object), except that a query of three or more UTF-16 code units
 * also closes the detail view before the request starts. The watched list is a
 * plain in-memory list that starts empty and is not persisted.
 */
module AppV2 {
  import opened Wrappers
  import opened Movies
  import opened SearchSpec
  import opened UseMovies
  import opened Watchlist
  import opened Keys

  class App {
    var query: string
    var selectedId: Option<string>
    var watched: seq<WatchedEntry>
    const search: MovieSearch

    ghost predicate Valid()
      reads this, search
    {
      search.Valid()
    }

    /** First render: no movies, no query, nothing watched, nothing selected. */
    constructor ()
      ensures Valid() && fresh(search)
      ensures query == "" && selectedId == None && watched == []
      ensures search.State() == Init()
    {
      query := "";
      selectedId := None;
      watched := [];
      search := new MovieSearch();
      new;
      var _ := search.QueryChanged(query);  // the search effect's first run
    }

    /**
     * `query` changed and the effect runs: the previous request is aborted; a
     * short query clears movies and error and leaves the selection alone; a
     * longer one first closes the detail view, then starts the search.
     */
    method SetQuery(q: string)
      requires Valid()
      modifies this, search
      ensures Valid() && query == q && watched == old(watched)
      ensures search.State() == if q == old(query) then old(search.State()) else OnQuery(old(search.State()), q)
      ensures q != old(query) && JsLength(q) >= MinQueryLength ==> selectedId == None
      ensures q == old(query) || JsLength(q) < MinQueryLength ==> selectedId == old(selectedId)
    {
      if q != query {
        query := q;
        if JsLength(q) >= MinQueryLength {
          selectedId := None;  // handleCloseMovie()
        }
        var _ := search.QueryChanged(q);
      }
    }

    /** A search request settles. */
    method SearchSettled(id: nat, response: Response)
      requires Valid()
      modifies search
      ensures Valid() && search.State() == OnSettle(old(search.State()), id, response)
    {
      search.Settle(id, response);
    }

    /** `handleSelectedMovie(id)`. */
    method SelectMovie(id: string)
      modifies this
      ensures selectedId == ToggleSelected(old(selectedId), id)
      ensures query == old(query) && watched == old(watched)
    {
      selectedId := ToggleSelected(selectedId, id);
    }

    /** `handleCloseMovie`, also run by the detail view's exact Escape handler. */
    method CloseMovie()
      modifies this
      ensures selectedId == None
      ensures query == old(query) && watched == old(watched)
    {
      selectedId := None;
    }

    /**
     * A `keydown` on the document. Only the detail view listens, and only
     * while a movie is selected; its handler compares `code` with "Escape"
     * exactly, so "escape" or "ESCAPE" closes nothing.
     */
    method KeyDown(code: string)
      requires Valid()
      modifies this
      ensures Valid()
      ensures code == "Escape" ==> selectedId == None
      ensures code != "Escape" ==> selectedId == old(selectedId)
      ensures query == old(query) && watched == old(watched) && search.State() == old(search.State())
    {
      if selectedId.Some? && Accepts(Exact("Escape"), code) {
        CloseMovie();
      }
    }

    /** `handleAddWatched(movie)`: appended at the end, and the detail view closes. */
    method AddWatched(movie: WatchedEntry)
      modifies this
      ensures watched == Watchlist.AddWatched(old(watched), movie) && selectedId == None
      ensures query == old(query)
    {
      watched := Watchlist.AddWatched(watched, movie);
      selectedId := None;
    }

    /** `handleDeleteWatched(id)`: every entry with that id goes. */
    method DeleteWatched(id: string)
      modifies this
      ensures watched == Watchlist.DeleteWatched(old(watched), id)
      ensures query == old(query) && selectedId == old(selectedId)
    {
      watched := Watchlist.DeleteWatched(watched, id);
    }
  }
}
