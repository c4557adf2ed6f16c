/**
 * The second version of `App`: the search runs through `useMovies`, the
 * watched list is persisted under the key "watched", and Enter and Escape are
 * bound with `useKey`. The handlers apply the pure transformations of
 * `Watchlist` to the app's state.
 */
module AppV3 {
  import opened Wrappers
  import opened Movies
  import opened SearchSpec
  import opened UseMovies
  import opened Watchlist
  import opened LocalStorage
  import opened Keys

  const WatchedKey := "watched"

  class App {
    var query: string
    var selectedId: Option<string>
    var searchFocused: bool  // whether the search box is the active element
    const search: MovieSearch
    const watched: PersistedState<seq<WatchedEntry>>

    ghost predicate Valid()
      reads this, search, watched, watched.store
    {
      search.Valid() && watched.Valid() && watched.key == WatchedKey
    }

    /**
     * First render: an empty query, nothing selected, the watched list read
     * from storage (empty when nothing usable is stored) and written back.
     */
    constructor (store: Storage, codec: Codec<seq<WatchedEntry>>)
      requires LazyInit(store.items, WatchedKey, [], codec).Ok?
      modifies store
      ensures Valid() && fresh(search) && fresh(watched) && watched.store == store && watched.codec == codec
      ensures query == "" && selectedId == None && !searchFocused
      ensures search.State() == Init()
      ensures watched.value == LazyInit(old(store.items), WatchedKey, [], codec).value
      ensures store.items == old(store.items)[WatchedKey := codec.serialize(watched.value)]
    {
      query := "";
      selectedId := None;
      searchFocused := false;
      search := new MovieSearch();
      watched := new PersistedState(store, WatchedKey, [], codec);
      new;
      var _ := search.QueryChanged(query);  // the search effect's first run
    }

    /** The search box changed `query`; the search effect runs only when it differs. */
    method SetQuery(q: string)
      requires Valid()
      modifies this, search
      ensures Valid() && query == q
      ensures search.State() == if q == old(query) then old(search.State()) else OnQuery(old(search.State()), q)
      ensures selectedId == old(selectedId) && searchFocused == old(searchFocused)
    {
      if q != query {
        query := q;
        var _ := search.QueryChanged(q);
      }
    }

    /** A search request settles. */
    method SearchSettled(id: nat, response: Response)
      requires Valid()
      modifies search
      ensures Valid() && search.State() == OnSettle(old(search.State()), id, response)
    {
      search.Settle(id, response);
    }

    /** `handleSelectedMovie(id)`. */
    method SelectMovie(id: string)
      modifies this
      ensures selectedId == ToggleSelected(old(selectedId), id)
      ensures query == old(query) && searchFocused == old(searchFocused)
    {
      selectedId := ToggleSelected(selectedId, id);
    }

    /** `handleCloseMovie`. */
    method CloseMovie()
      modifies this
      ensures selectedId == None
      ensures query == old(query) && searchFocused == old(searchFocused)
    {
      selectedId := None;
    }

    /**
     * `handleAddWatched(movie)`: the movie is appended, the detail view closes,
     * and the whole list is written to storage, from where a reload gives it back.
     */
    method AddWatched(movie: WatchedEntry)
      requires Valid()
      modifies this, watched, watched.store
      ensures Valid() && selectedId == None
      ensures watched.value == Watchlist.AddWatched(old(watched.value), movie)
      ensures watched.store.items == old(watched.store.items)[WatchedKey := watched.codec.serialize(watched.value)]
      ensures RoundTrips(watched.codec) ==> LazyInit(watched.store.items, WatchedKey, [], watched.codec) == Ok(watched.value)
      ensures query == old(query) && searchFocused == old(searchFocused)
    {
      watched.Set(Watchlist.AddWatched(watched.value, movie));
      selectedId := None;
    }

    /** `handleDeleteWatched(id)`: every entry with that id goes, and the list is written back. */
    method DeleteWatched(id: string)
      requires Valid()
      modifies watched, watched.store
      ensures Valid()
      ensures watched.value == Watchlist.DeleteWatched(old(watched.value), id)
      ensures watched.store.items == old(watched.store.items)[WatchedKey := watched.codec.serialize(watched.value)]
      ensures RoundTrips(watched.codec) ==> LazyInit(watched.store.items, WatchedKey, [], watched.codec) == Ok(watched.value)
    {
      watched.Set(Watchlist.DeleteWatched(watched.value, id));
    }

    /** The user moves the focus into or out of the search box. */
    method SetSearchFocus(focused: bool)
      modifies this
      ensures searchFocused == focused
      ensures query == old(query) && selectedId == old(selectedId)
    {
      searchFocused := focused;
    }

    /**
     * The Enter binding of `Search`: nothing when the search box already has
     * the focus; otherwise the box takes the focus and the query is cleared.
     */
    method PressEnter()
      requires Valid()
      modifies this, search
      ensures Valid()
      ensures old(searchFocused) ==> query == old(query) && search.State() == old(search.State())
      ensures searchFocused && (!old(searchFocused) ==> query == "")
      ensures !old(searchFocused) ==>
              search.State() == if old(query) == "" then old(search.State()) else OnQuery(old(search.State()), "")
      ensures selectedId == old(selectedId)
    {
      if searchFocused {
        return;
      }
      searchFocused := true;
      SetQuery("");
    }

    /**
     * A `keydown` on the document. The Enter binding is always mounted; the
     * Escape binding belongs to the detail view, which is mounted only while
     * a movie is selected. Both compare codes ignoring case.
     */
    method KeyDown(code: string)
      requires Valid()
      modifies this, search
      ensures Valid()
      ensures !KeyMatches(code, "Enter") && !KeyMatches(code, "Escape") ==>
              query == old(query) && selectedId == old(selectedId) && search.State() == old(search.State())
              && searchFocused == old(searchFocused)
      ensures KeyMatches(code, "Escape") ==> selectedId == None
      ensures KeyMatches(code, "Escape") ==>
              query == old(query) && searchFocused == old(searchFocused) && search.State() == old(search.State())
      ensures KeyMatches(code, "Enter") ==> selectedId == old(selectedId) && searchFocused
      ensures KeyMatches(code, "Enter") && old(searchFocused) ==>
              query == old(query) && search.State() == old(search.State())
      ensures KeyMatches(code, "Enter") && !old(searchFocused) ==>
              query == "" && search.State() == (if old(query) == "" then old(search.State()) else OnQuery(old(search.State()), ""))
    {
      EnterIsNotEscape(code);
      if KeyMatches(code, "Enter") {
        PressEnter();
      }
      if selectedId.Some? && KeyMatches(code, "Escape") {
        CloseMovie();
      }
    }
  }
}
