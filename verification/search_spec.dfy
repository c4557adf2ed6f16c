/**
 * The query-driven search controller of `useMovies` (and of the inline copy in
 * the first version of `App`), as a state machine over values.
 *
 * Besides the three pieces of state the view sees (`movies`, `loading`,
 * `error`), a controller value records every request whose `fetchMovies` has
 * not yet finished, and whether its `AbortController` has been aborted. Real
 * asynchronous interleaving is reduced to a sequence of events: a query change
 * (the effect's cleanup followed by the effect), the settling of one request,
 * and unmounting (the last cleanup).
 */
module SearchSpec {
  import opened Wrappers
  import opened Movies

  /** Queries shorter than this clear the results and issue no request. */
  const MinQueryLength := 3

  /** How many UTF-16 code units JavaScript uses for `c`: two above U+FFFF, one otherwise. */
  function CodeUnits(c: char): nat {
    if c as int > 0xFFFF then 2 else 1
  }

  /**
   * JavaScript's `s.length`, which counts UTF-16 code units: it is the number
   * of characters, plus one for every character outside the Basic
   * Multilingual Plane.
   */
  function JsLength(s: string): (n: nat)
    ensures |s| <= n <= 2 * |s|
    ensures (forall i :: 0 <= i < |s| ==> s[i] as int <= 0xFFFF) ==> n == |s|
    decreases |s|
  {
    if s == [] then 0
    else
      assert forall i :: 0 <= i < |s[1..]| ==> s[1..][i] == s[i + 1];
      CodeUnits(s[0]) + JsLength(s[1..])
  }

  /** "a" followed by an emoji is two characters but three code units long. */
  lemma EmojiQueryIsThreeUnitsLong()
    ensures |"a\U{1F600}"| == 2 && JsLength("a\U{1F600}") == 3
  {
    assert "a\U{1F600}"[1..] == "\U{1F600}";
    assert "\U{1F600}"[1..] == "";
  }

  /** The message thrown for a non-ok HTTP status, spelled as the app spells it. */
  const NotOkMessage := "soemthing went wrong"

  /** The message thrown when the payload says `"Response": "False"`. */
  const NotFoundMessage := "Movie not found"

  /** What the network gives back for one search request that was not aborted. */
  datatype Response =
    | NotOk                             // `!res.ok`
    | NoMatch                           // `data.Response === "False"`
    | Found(search: seq<MovieSummary>)  // `data.Search`
    | Threw(message: string)            // `fetch` or `res.json()` threw something other than an AbortError

  /**
   * The state of the hook. `current` is the request started by the effect now
   * in place (its cleanup aborts it); `inFlight` maps each request whose
   * `fetchMovies` is still running to whether it has been aborted.
   */
  datatype Controller = Controller(
    movies: seq<MovieSummary>,
    loading: bool,
    error: string,
    nextId: nat,
    current: Option<nat>,
    inFlight: map<nat, bool>)

  /** The events the hook reacts to. */
  datatype Event =
    | QueryChanged(query: string)
    | Settled(id: nat, response: Response)
    | Unmounted

  /**
   * What holds of every reachable controller: request ids are never reused, the
   * only request that is running and not aborted is the current one, the
   * current one is never aborted while it runs, and `loading` is only set while
   * some request is still running.
   */
  ghost predicate Valid(c: Controller) {
    && (forall id :: id in c.inFlight ==> id < c.nextId)
    && (c.current.Some? ==> c.current.value < c.nextId)
    && (forall id :: id in c.inFlight && !c.inFlight[id] ==> c.current == Some(id))
    && (c.current.Some? && c.current.value in c.inFlight ==> !c.inFlight[c.current.value])
    && (c.loading ==> c.inFlight != map[])
  }

  /** A request that is still running but whose controller has been aborted. */
  ghost predicate Superseded(c: Controller, id: nat) {
    id in c.inFlight && c.inFlight[id]
  }

  /** The state `useState` starts with: no movies, not loading, no error. */
  function Init(): (c: Controller)
    ensures c.movies == [] && !c.loading && c.error == ""
    ensures c.inFlight == map[] && c.current == None
    ensures Valid(c)
  {
    Controller([], false, "", 0, None, map[])
  }

  /** The effect's cleanup: `controller.abort()` on the current request, if it is still running. */
  function AbortCurrent(c: Controller): (r: Controller)
    ensures r.movies == c.movies && r.loading == c.loading && r.error == c.error
    ensures r.nextId == c.nextId && r.current == c.current
    ensures r.inFlight.Keys == c.inFlight.Keys
    ensures forall id :: id in c.inFlight ==> r.inFlight[id] == (c.inFlight[id] || c.current == Some(id))
  {
    if c.current.Some? && c.current.value in c.inFlight then
      c.(inFlight := c.inFlight[c.current.value := true])
    else
      c
  }

  /**
   * The query changed: the previous effect's cleanup aborts its request, then
   * the effect runs again. A query shorter than three UTF-16 code units
   * (`query.length`, nothing is trimmed) clears the movies and the error and issues
   * nothing; otherwise `loading` is set, the error cleared and a new request
   * issued, which becomes the current one.
   */
  function OnQuery(c: Controller, query: string): (r: Controller)
    ensures JsLength(query) < MinQueryLength ==>
      && r.movies == [] && r.error == "" && r.loading == c.loading
      && r.current == None && r.nextId == c.nextId
      && r.inFlight.Keys == c.inFlight.Keys
    ensures JsLength(query) >= MinQueryLength ==>
      && r.movies == c.movies && r.loading && r.error == ""
      && r.current == Some(c.nextId) && r.nextId == c.nextId + 1
      && r.inFlight.Keys == c.inFlight.Keys + {c.nextId} && !r.inFlight[c.nextId]
    ensures forall id :: id in c.inFlight && id < c.nextId ==>
      r.inFlight[id] == (c.inFlight[id] || c.current == Some(id))
    ensures Valid(c) ==> Valid(r)
  {
    var cleaned := AbortCurrent(c);
    if JsLength(query) < MinQueryLength then
      cleaned.(movies := [], error := "", current := None)
    else
      cleaned.(loading := true, error := "", current := Some(c.nextId),
               nextId := c.nextId + 1, inFlight := cleaned.inFlight[c.nextId := false])
  }

  /**
   * Request `id` finishes. Its `finally` clears `loading` whatever happened. An
   * aborted request ends in an `AbortError`, which is swallowed: movies and
   * error stay as they are. Otherwise a non-ok status, a "no match" payload
   * and any other exception set their message and keep the movies, and a
   * match list replaces the movies and clears the error. A request that is not running has nothing to
   * deliver.
   */
  function OnSettle(c: Controller, id: nat, response: Response): (r: Controller)
    ensures id !in c.inFlight ==> r == c
    ensures id in c.inFlight ==>
      && !r.loading && r.inFlight == c.inFlight - {id}
      && r.nextId == c.nextId && r.current == c.current
    ensures Superseded(c, id) ==> r.movies == c.movies && r.error == c.error
    ensures id in c.inFlight && !c.inFlight[id] ==>
      && (response.NotOk? ==> r.movies == c.movies && r.error == NotOkMessage)
      && (response.NoMatch? ==> r.movies == c.movies && r.error == NotFoundMessage)
      && (response.Found? ==> r.movies == response.search && r.error == "")
      && (response.Threw? ==> r.movies == c.movies && r.error == response.message)
    ensures Valid(c) ==> Valid(r)
  {
    if id !in c.inFlight then c
    else
      var finished := c.(loading := false, inFlight := c.inFlight - {id});
      if c.inFlight[id] then finished
      else
        match response
        case NotOk => finished.(error := NotOkMessage)
        case NoMatch => finished.(error := NotFoundMessage)
        case Found(hits) => finished.(movies := hits, error := "")
        case Threw(message) => finished.(error := message)
  }

  /** The component unmounts: the last cleanup aborts the current request. */
  function OnUnmount(c: Controller): (r: Controller)
    ensures r.movies == c.movies && r.loading == c.loading && r.error == c.error
    ensures r.current == None && r.inFlight.Keys == c.inFlight.Keys
    ensures Valid(c) ==> Valid(r) && forall id :: id in r.inFlight ==> r.inFlight[id]
  {
    AbortCurrent(c).(current := None)
  }

  function Step(c: Controller, e: Event): Controller {
    match e
    case QueryChanged(q) => OnQuery(c, q)
    case Settled(id, response) => OnSettle(c, id, response)
    case Unmounted => OnUnmount(c)
  }

  function Run(c: Controller, events: seq<Event>): Controller
    decreases |events|
  {
    if events == [] then c else Run(Step(c, events[0]), events[1..])
  }

  predicate SettlesRequest(e: Event, id: nat) {
    e.Settled? && e.id == id
  }

  /** The same events with every delivery for request `id` taken out. */
  function WithoutSettle(events: seq<Event>, id: nat): (r: seq<Event>)
    ensures |r| <= |events|
    ensures forall e :: e in r ==> e in events && !SettlesRequest(e, id)
    ensures forall e :: e in events && !SettlesRequest(e, id) ==> e in r
    decreases |events|
  {
    if events == [] then []
    else
      var rest := WithoutSettle(events[1..], id);
      assert forall e :: e in events ==> e == events[0] || e in events[1..];
      if SettlesRequest(events[0], id) then rest else [events[0]] + rest
  }

  /** Every reachable controller is valid. */
  lemma {:induction false} RunPreservesValid(c: Controller, events: seq<Event>)
    requires Valid(c)
    ensures Valid(Run(c, events))
    decreases |events|
  {
    if events != [] {
      RunPreservesValid(Step(c, events[0]), events[1..]);
    }
  }

  /**
   * A new query aborts the request the previous query started, if it is still
   * running, and a delivery for that request can no longer change movies or error.
   */
  lemma QueryChangeSupersedes(c: Controller, query: string, response: Response)
    requires Valid(c) && c.current.Some? && c.current.value in c.inFlight
    ensures Superseded(OnQuery(c, query), c.current.value)
    ensures OnQuery(c, query).current != c.current
    ensures var r := OnSettle(OnQuery(c, query), c.current.value, response);
            r.movies == OnQuery(c, query).movies && r.error == OnQuery(c, query).error
  {
  }

  /**
   * As written, the `finally` of an aborted request still clears `loading`:
   * when a query of three or more code units is superseded by another, the
   * first request's abort clears the spinner while the second request is still
   * running and live.
   */
  lemma SupersededAbortClearsLoading(c: Controller, q1: string, q2: string, response: Response)
    requires Valid(c) && JsLength(q1) >= MinQueryLength && JsLength(q2) >= MinQueryLength
    ensures var c2 := OnQuery(OnQuery(c, q1), q2);
            var c3 := OnSettle(c2, c.nextId, response);
            && !c3.loading
            && c3.current == Some(c.nextId + 1)
            && c.nextId + 1 in c3.inFlight && !c3.inFlight[c.nextId + 1]
  {
  }

  /**
   * `a` is the run in which the superseded request `id` was delivered and `b`
   * the run in which it was not: they agree on everything except `loading` and
   * the entry of `id` itself, which is aborted wherever it is present.
   */
  ghost predicate AgreeExceptStale(a: Controller, b: Controller, id: nat) {
    && a.movies == b.movies && a.error == b.error
    && a.nextId == b.nextId && a.current == b.current
    && id < a.nextId && a.current != Some(id)
    && (id in a.inFlight ==> a.inFlight[id])
    && (id in b.inFlight ==> b.inFlight[id])
    && (forall k :: k != id ==> (k in a.inFlight <==> k in b.inFlight))
    && (forall k :: k != id && k in a.inFlight ==> a.inFlight[k] == b.inFlight[k])
  }

  lemma AgreeAbort(a: Controller, b: Controller, id: nat)
    requires AgreeExceptStale(a, b, id)
    ensures AgreeExceptStale(AbortCurrent(a), AbortCurrent(b), id)
  {
  }

  lemma AgreeQuery(a: Controller, b: Controller, id: nat, query: string)
    requires AgreeExceptStale(a, b, id)
    ensures AgreeExceptStale(OnQuery(a, query), OnQuery(b, query), id)
  {
    AgreeAbort(a, b, id);
    var a1, b1 := AbortCurrent(a), AbortCurrent(b);
    if JsLength(query) < MinQueryLength {
      assert OnQuery(a, query) == a1.(movies := [], error := "", current := None);
      assert OnQuery(b, query) == b1.(movies := [], error := "", current := None);
    } else {
      assert OnQuery(a, query) == a1.(loading := true, error := "", current := Some(a.nextId),
                                      nextId := a.nextId + 1, inFlight := a1.inFlight[a.nextId := false]);
      assert OnQuery(b, query) == b1.(loading := true, error := "", current := Some(b.nextId),
                                      nextId := b.nextId + 1, inFlight := b1.inFlight[b.nextId := false]);
    }
  }

  lemma AgreeSettle(a: Controller, b: Controller, id: nat, k: nat, response: Response)
    requires AgreeExceptStale(a, b, id)
    ensures AgreeExceptStale(OnSettle(a, k, response), if k == id then b else OnSettle(b, k, response), id)
  {
  }

  lemma AgreeStep(a: Controller, b: Controller, id: nat, e: Event)
    requires AgreeExceptStale(a, b, id)
    ensures AgreeExceptStale(Step(a, e), if SettlesRequest(e, id) then b else Step(b, e), id)
  {
    match e
    case QueryChanged(q) => AgreeQuery(a, b, id, q);
    case Settled(k, response) => AgreeSettle(a, b, id, k, response);
    case Unmounted => AgreeAbort(a, b, id);
  }

  lemma {:induction false} AgreeRun(a: Controller, b: Controller, id: nat, events: seq<Event>)
    requires AgreeExceptStale(a, b, id)
    ensures AgreeExceptStale(Run(a, events), Run(b, WithoutSettle(events, id)), id)
    decreases |events|
  {
    if events != [] {
      var e := events[0];
      AgreeStep(a, b, id, e);
      var b' := if SettlesRequest(e, id) then b else Step(b, e);
      AgreeRun(Step(a, e), b', id, events[1..]);
      if !SettlesRequest(e, id) {
        var w := [e] + WithoutSettle(events[1..], id);
        assert WithoutSettle(events, id) == w;
        assert w[0] == e && w[1..] == WithoutSettle(events[1..], id);
      }
    }
  }

  /**
   * A superseded request never changes the movies or the error the view
   * shows: whatever happens afterwards, both end up exactly as if its
   * response had never arrived. Its `finally` still clears `loading`
   * (`SupersededAbortClearsLoading`).
   */
  lemma StaleResponseNeverWrites(c: Controller, id: nat, events: seq<Event>)
    requires Valid(c) && Superseded(c, id)
    ensures Run(c, events).movies == Run(c, WithoutSettle(events, id)).movies
    ensures Run(c, events).error == Run(c, WithoutSettle(events, id)).error
  {
    AgreeRun(c, c, id, events);
  }

  /**
   * The ordering the search needs: once a query Q1 (of three or more
   * code units) has been followed by a query Q2, the response to Q1 never
   * overwrites the movies or the error, whenever it arrives.
   */
  lemma LaterQueryWins(c: Controller, q1: string, q2: string, events: seq<Event>)
    requires Valid(c) && JsLength(q1) >= MinQueryLength
    ensures var c2 := OnQuery(OnQuery(c, q1), q2);
            && Run(c2, events).movies == Run(c2, WithoutSettle(events, c.nextId)).movies
            && Run(c2, events).error == Run(c2, WithoutSettle(events, c.nextId)).error
  {
    var c1 := OnQuery(c, q1);
    QueryChangeSupersedes(c1, q2, NotOk);
    StaleResponseNeverWrites(OnQuery(c1, q2), c.nextId, events);
  }
}
