/**
 * The detail view (`SelectedMovie`) of both app versions: its detail payload,
 * its loading flag and the rating the user picked. The detail fetch has no
 * cancellation and no visible error: a failed fetch leaves the details as they
 * were, and every response that arrives is applied, whichever selection it
 * was requested for.
 */
module Details {
  import opened Wrappers
  import opened Movies
  import opened Watchlist

  /** What the detail endpoint gives back. */
  datatype DetailResponse =
    | DetailsOk(data: MovieDetails)  // `res.ok`; the body is the payload
    | DetailsFailed                  // `!res.ok`, or the fetch or body read threw

  class SelectedMovie {
    var selectedId: string
    var details: MovieDetails
    var loading: bool
    var userRating: nat

    /**
     * Mounting: the details start as `{}`, the rating as 0, and the fetch
     * effect runs at once, setting `loading`.
     */
    constructor (selectedId: string)
      ensures this.selectedId == selectedId
      ensures details == NoDetails && loading && userRating == 0
    {
      this.selectedId := selectedId;
      details := NoDetails;
      userRating := 0;
      loading := true;  // the effect's setLoading(true)
    }

    /**
     * A different movie is selected while the view stays mounted: the fetch
     * effect runs again for the new id. The details of the previous movie and
     * the rating chosen for it are kept until something replaces them.
     */
    method SelectionChanged(id: string)
      modifies this
      ensures selectedId == id && loading
      ensures details == old(details) && userRating == old(userRating)
    {
      selectedId := id;
      loading := true;
    }

    /**
     * A detail response arrives. A payload replaces the details, a failure is
     * swallowed and leaves them unchanged; `loading` ends false either way.
     * Nothing ties the response to the current selection.
     */
    method DetailsArrived(response: DetailResponse)
      modifies this
      ensures !loading
      ensures response.DetailsOk? ==> details == response.data
      ensures response.DetailsFailed? ==> details == old(details)
      ensures selectedId == old(selectedId) && userRating == old(userRating)
    {
      if response.DetailsOk? {
        details := response.data;
      }
      loading := false;
    }

    /** The star widget reports a rating. */
    method Rate(rating: nat)
      modifies this
      ensures userRating == rating
      ensures selectedId == old(selectedId) && details == old(details) && loading == old(loading)
    {
      userRating := rating;
    }

    /**
     * What the user sees in the rating area. While the detail fetch is pending
     * only the loader is rendered, so neither the widget, the Add button nor an
     * earlier rating shows. Otherwise: the star widget (and, with a rating,
     * the Add button) when the movie is not in the list, the earlier rating
     * otherwise.
     */
    method RatingArea(watched: seq<WatchedEntry>) returns (widget: bool, addButton: bool, rated: Option<nat>)
      ensures widget <==> !loading && !IsWatched(watched, selectedId)
      ensures addButton <==> widget && userRating > 0
      ensures !loading ==> (widget <==> rated.None?)
      ensures rated == if loading then None else PreviousRating(watched, selectedId)
      ensures rated.Some? ==> exists i :: 0 <= i < |watched| && watched[i].imdbId == selectedId
                                          && rated.value == watched[i].userRating
    {
      if loading {
        widget, addButton, rated := false, false, None;  // only the loader
        return;
      }
      widget := CanRate(watched, selectedId);
      addButton := ShowAdd(watched, selectedId, userRating);
      rated := PreviousRating(watched, selectedId);
    }

    /**
     * The Add button's click handler, which only exists while the view is not
     * loading and the button is shown: the entry `handleAdd` builds, or the
     * TypeError `runtime.split` raises when the payload has no runtime.
     */
    method Add(watched: seq<WatchedEntry>) returns (r: Result<WatchedEntry, JsError>)
      requires !loading && ShowAdd(watched, selectedId, userRating)
      ensures r == NewEntry(selectedId, details, userRating)
      ensures r.Ok? <==> details.runtime.Some?
      ensures r.Ok? ==> r.value.imdbId == selectedId && r.value.userRating == userRating
                        && !IsWatched(watched, r.value.imdbId)
    {
      r := NewEntry(selectedId, details, userRating);
    }
  }
}
