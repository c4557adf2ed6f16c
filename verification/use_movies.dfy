/**
 * The `useMovies` hook as an object: its three `useState` cells and the
 * bookkeeping of its `AbortController`s are fields, and each event runs the
 * setter sequence the hook runs. Every event leaves the state that
 * `SearchSpec` prescribes, so the lemmas proved there hold of the hook.
 */
module UseMovies {
  import opened Wrappers
  import opened Movies
  import opened SearchSpec

  class MovieSearch {
    var movies: seq<MovieSummary>
    var loading: bool
    var error: string
    var nextId: nat
    var current: Option<nat>
    var inFlight: map<nat, bool>

    function State(): Controller
      reads this
    {
      Controller(movies, loading, error, nextId, current, inFlight)
    }

    ghost predicate Valid()
      reads this
    {
      SearchSpec.Valid(State())
    }

    /** First render: `movies = []`, `loading = false`, `error = ""`, nothing requested. */
    constructor ()
      ensures Valid() && State() == Init()
      ensures movies == [] && !loading && error == ""
    {
      movies, loading, error := [], false, "";
      nextId, current, inFlight := 0, None, map[];
    }

    /**
     * `query` changed: the previous effect's cleanup aborts its request, then
     * the effect either clears the results (short query) or sets `loading`,
     * clears the error and starts a request.
     */
    method QueryChanged(query: string) returns (request: Option<nat>)
      requires Valid()
      modifies this
      ensures Valid() && State() == OnQuery(old(State()), query)
      ensures JsLength(query) < MinQueryLength ==> request == None && movies == [] && error == ""
      ensures JsLength(query) >= MinQueryLength ==>
        request == Some(old(nextId)) && loading && error == "" && movies == old(movies)
    {
      ghost var spec := OnQuery(State(), query);
      // cleanup of the previous run: controller.abort()
      if current.Some? && current.value in inFlight {
        inFlight := inFlight[current.value := true];
      }
      if JsLength(query) < MinQueryLength {
        movies := [];
        error := "";
        current := None;
        request := None;
        assert State() == spec;
        return;
      }
      request := Some(nextId);
      current := request;
      inFlight := inFlight[nextId := false];
      nextId := nextId + 1;
      loading := true;
      error := "";
      assert State() == spec;
    }

    /**
     * Request `id` settles with `response`. An aborted request's `AbortError`
     * is swallowed; otherwise the response sets the error or the movies. The
     * `finally` clears `loading` in every case.
     */
    method Settle(id: nat, response: Response)
      requires Valid()
      modifies this
      ensures Valid() && State() == OnSettle(old(State()), id, response)
      ensures id in old(inFlight) ==> !loading
    {
      if id !in inFlight {
        return;
      }
      var aborted := inFlight[id];
      if !aborted {
        match response
        case NotOk => error := NotOkMessage;
        case NoMatch => error := NotFoundMessage;
        case Found(hits) =>
          movies := hits;
          error := "";
        case Threw(message) => error := message;
      }
      inFlight := inFlight - {id};
      loading := false;
    }

    /** The component unmounts: the last cleanup aborts the current request. */
    method Unmount()
      requires Valid()
      modifies this
      ensures Valid() && State() == OnUnmount(old(State()))
    {
      if current.Some? && current.value in inFlight {
        inFlight := inFlight[current.value := true];
      }
      current := None;
    }
  }
}
