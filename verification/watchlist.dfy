/**
 * The pure part of the app's handlers: the new watched list or selection each
 * handler computes, the record `handleAdd` builds from the detail payload, and
 * the guard that decides whether the rating widget and the Add button appear.
 */
module Watchlist {
  import opened Wrappers
  import opened Movies

  // ---------------------------------------------------------------------------
  // Membership and the rating guard

  /** `watched.some((item) => item.imdbId === id)`: some entry of the list has that id. */
  predicate IsWatched(watched: seq<WatchedEntry>, id: string): (b: bool)
    ensures b <==> exists e :: e in watched && e.imdbId == id
  {
    exists i :: 0 <= i < |watched| && watched[i].imdbId == id
  }

  /**
   * The rating widget is shown only for a movie that is not in the list yet;
   * the other branch of the same test shows the earlier rating, so exactly
   * one of the two appears.
   */
  predicate CanRate(watched: seq<WatchedEntry>, selectedId: string): (b: bool)
    ensures b <==> PreviousRating(watched, selectedId).None?
  {
    !IsWatched(watched, selectedId)
  }

  /** The Add button is shown when the widget is and a rating has been chosen. */
  predicate ShowAdd(watched: seq<WatchedEntry>, selectedId: string, userRating: nat): (b: bool)
    ensures b ==> CanRate(watched, selectedId) && userRating >= 1
    ensures userRating == 0 || IsWatched(watched, selectedId) ==> !b
  {
    CanRate(watched, selectedId) && userRating > 0
  }

  /**
   * How the handlers change membership: after an add the list holds the
   * movie's id as well as every id it held, and after a delete it no longer
   * holds the deleted id while every other id is kept.
   */
  lemma WatchedAfterAddAndDelete(watched: seq<WatchedEntry>, movie: WatchedEntry, id: string, other: string)
    requires other != id
    ensures IsWatched(AddWatched(watched, movie), id) <==> IsWatched(watched, id) || movie.imdbId == id
    ensures !IsWatched(DeleteWatched(watched, id), id)
    ensures IsWatched(DeleteWatched(watched, id), other) <==> IsWatched(watched, other)
  {
    var added := AddWatched(watched, movie);
    if IsWatched(watched, id) {
      var i :| 0 <= i < |watched| && watched[i].imdbId == id;
      assert added[i] == watched[i];
    }
    if IsWatched(watched, other) {
      var i :| 0 <= i < |watched| && watched[i].imdbId == other;
      assert watched[i] in DeleteWatched(watched, id);
    }
  }

  /** No two entries share an `imdbId`. */
  ghost predicate UniqueIds(watched: seq<WatchedEntry>) {
    forall i, j :: 0 <= i < j < |watched| ==> watched[i].imdbId != watched[j].imdbId
  }

  /**
   * The rating shown for a movie already in the list:
   * `watched.find((movie) => movie.imdbId === selectedId)?.userRating`, the
   * rating of the first matching entry, `undefined` when none matches.
   */
  function PreviousRating(watched: seq<WatchedEntry>, selectedId: string): (r: Option<nat>)
    ensures r.Some? <==> IsWatched(watched, selectedId)
    ensures r.Some? ==> exists i :: 0 <= i < |watched| && watched[i].imdbId == selectedId
                                    && r.value == watched[i].userRating
                                    && forall j :: 0 <= j < i ==> watched[j].imdbId != selectedId
    decreases |watched|
  {
    if watched == [] then None
    else if watched[0].imdbId == selectedId then Some(watched[0].userRating)
    else
      var r := PreviousRating(watched[1..], selectedId);
      if r.Some? then
        var i :| 0 <= i < |watched[1..]| && watched[1..][i].imdbId == selectedId
                 && r.value == watched[1..][i].userRating
                 && forall j :: 0 <= j < i ==> watched[1..][j].imdbId != selectedId;
        assert watched[i + 1].imdbId == selectedId;
        r
      else
        assert forall i :: 1 <= i < |watched| ==> watched[i] == watched[1..][i - 1];
        r
  }

  // ---------------------------------------------------------------------------
  // The handlers of `App`

  /** `handleAddWatched`: `[...watched, movie]`. */
  function AddWatched(watched: seq<WatchedEntry>, movie: WatchedEntry): (r: seq<WatchedEntry>)
    ensures |r| == |watched| + 1 && r[..|watched|] == watched && r[|watched|] == movie
  {
    watched + [movie]
  }

  /** `handleSelectedMovie`: the selection becomes `null` if `id` was selected, `id` otherwise. */
  function ToggleSelected(selectedId: Option<string>, id: string): (r: Option<string>)
    ensures r == None <==> selectedId == Some(id)
    ensures r != None ==> r == Some(id)
  {
    if selectedId == Some(id) then None else Some(id)
  }

  /**
   * Clicking the same movie twice gives back the original selection exactly
   * when nothing or that movie was selected; from any other selection it
   * closes the detail view.
   */
  lemma ToggleTwice(selectedId: Option<string>, id: string)
    ensures ToggleSelected(ToggleSelected(selectedId, id), id) == selectedId
            <==> selectedId == None || selectedId == Some(id)
    ensures selectedId != None && selectedId != Some(id) ==>
            ToggleSelected(ToggleSelected(selectedId, id), id) == None
  {
  }

  /** The number of entries whose `imdbId` is `id`. */
  function CountId(watched: seq<WatchedEntry>, id: string): nat
    decreases |watched|
  {
    if watched == [] then 0
    else (if watched[0].imdbId == id then 1 else 0) + CountId(watched[1..], id)
  }

  /** `a` is `b` with some entries left out, the rest in their original order. */
  predicate IsSubsequence(a: seq<WatchedEntry>, b: seq<WatchedEntry>)
    decreases |b|
  {
    if a == [] then true
    else if b == [] then false
    else if a[0] == b[0] then IsSubsequence(a[1..], b[1..])
    else IsSubsequence(a, b[1..])
  }

  /**
   * `handleDeleteWatched`: `watched.filter((movie) => movie.imdbId !== id)`.
   * The result keeps the entries with another id, in their order, and loses
   * exactly the matching ones.
   */
  function DeleteWatched(watched: seq<WatchedEntry>, id: string): (r: seq<WatchedEntry>)
    ensures forall e :: e in r <==> e in watched && e.imdbId != id
    ensures |r| == |watched| - CountId(watched, id)
    ensures IsSubsequence(r, watched)
    decreases |watched|
  {
    if watched == [] then []
    else
      var rest := DeleteWatched(watched[1..], id);
      assert forall e :: e in watched <==> e == watched[0] || e in watched[1..];
      if watched[0].imdbId == id then
        SubsequenceOfTail(rest, watched);
        rest
      else
        assert ([watched[0]] + rest)[1..] == rest;
        [watched[0]] + rest
  }

  lemma {:induction false} SubsequenceOfTail(a: seq<WatchedEntry>, b: seq<WatchedEntry>)
    requires b != [] && IsSubsequence(a, b[1..])
    ensures IsSubsequence(a, b)
    decreases |b|, |a|
  {
    if a != [] && a[0] == b[0] {
      SubsequenceDropHead(a, b[1..]);
    }
  }

  lemma {:induction false} SubsequenceDropHead(a: seq<WatchedEntry>, b: seq<WatchedEntry>)
    requires a != [] && IsSubsequence(a, b)
    ensures IsSubsequence(a[1..], b)
    decreases |b|, |a|
  {
    if a[0] != b[0] {
      SubsequenceDropHead(a, b[1..]);
    }
    SubsequenceOfTail(a[1..], b);
  }

  lemma {:induction false} DeleteConcat(a: seq<WatchedEntry>, b: seq<WatchedEntry>, id: string)
    ensures DeleteWatched(a + b, id) == DeleteWatched(a, id) + DeleteWatched(b, id)
    decreases |a|
  {
    if a == [] {
      assert a + b == b;
    } else {
      assert (a + b)[1..] == a[1..] + b;
      DeleteConcat(a[1..], b, id);
    }
  }

  /** Deleting twice is deleting once. */
  lemma {:induction false} DeleteIdempotent(watched: seq<WatchedEntry>, id: string)
    ensures DeleteWatched(DeleteWatched(watched, id), id) == DeleteWatched(watched, id)
    decreases |watched|
  {
    if watched != [] {
      DeleteIdempotent(watched[1..], id);
      if watched[0].imdbId != id {
        var rest := DeleteWatched(watched[1..], id);
        assert ([watched[0]] + rest)[1..] == rest;
      }
    }
  }

  /** Deleting an id that is not in the list changes nothing. */
  lemma {:induction false} DeleteUnwatched(watched: seq<WatchedEntry>, id: string)
    requires !IsWatched(watched, id)
    ensures DeleteWatched(watched, id) == watched
    decreases |watched|
  {
    if watched != [] {
      assert !IsWatched(watched[1..], id) by {
        forall i | 0 <= i < |watched[1..]| ensures watched[1..][i].imdbId != id {
          assert watched[1..][i] == watched[i + 1];
        }
      }
      DeleteUnwatched(watched[1..], id);
      assert watched == [watched[0]] + watched[1..];
    }
  }

  /** Adding an entry and deleting its id undoes the add and every earlier entry with that id. */
  lemma DeleteAfterAdd(watched: seq<WatchedEntry>, movie: WatchedEntry)
    ensures DeleteWatched(AddWatched(watched, movie), movie.imdbId) == DeleteWatched(watched, movie.imdbId)
    ensures !IsWatched(watched, movie.imdbId) ==>
            DeleteWatched(AddWatched(watched, movie), movie.imdbId) == watched
  {
    DeleteConcat(watched, [movie], movie.imdbId);
    assert DeleteWatched([movie], movie.imdbId) == [];
    assert watched + [] == watched;
    if !IsWatched(watched, movie.imdbId) {
      DeleteUnwatched(watched, movie.imdbId);
    }
  }

  lemma {:induction false} CountIdInRange(watched: seq<WatchedEntry>, id: string, k: nat)
    requires k < |watched| && watched[k].imdbId == id
    requires forall j :: 0 <= j < |watched| && j != k ==> watched[j].imdbId != id
    ensures CountId(watched, id) == 1
    decreases |watched|
  {
    if k == 0 {
      CountIdAbsent(watched[1..], id);
    } else {
      CountIdInRange(watched[1..], id, k - 1);
    }
  }

  lemma {:induction false} CountIdAbsent(watched: seq<WatchedEntry>, id: string)
    requires forall j :: 0 <= j < |watched| ==> watched[j].imdbId != id
    ensures CountId(watched, id) == 0
    decreases |watched|
  {
    if watched != [] {
      CountIdAbsent(watched[1..], id);
    }
  }

  /**
   * In a list with unique ids, removing a movie that is in it shortens the
   * list by exactly one, and the id is gone.
   */
  lemma DeleteUniqueDropsOne(watched: seq<WatchedEntry>, id: string)
    requires UniqueIds(watched) && IsWatched(watched, id)
    ensures |DeleteWatched(watched, id)| == |watched| - 1
    ensures !IsWatched(DeleteWatched(watched, id), id)
  {
    var k :| 0 <= k < |watched| && watched[k].imdbId == id;
    CountIdInRange(watched, id, k);
    var r := DeleteWatched(watched, id);
    forall i | 0 <= i < |r| ensures r[i].imdbId != id {
      assert r[i] in r;
    }
  }

  // ---------------------------------------------------------------------------
  // Building an entry: `handleAdd`

  predicate IsDigit(c: char) {
    '0' <= c <= '9'
  }

  predicate AllDigits(s: string) {
    forall i :: 0 <= i < |s| ==> IsDigit(s[i])
  }

  /** The value of a string of decimal digits. */
  function DigitsValue(s: string): nat
    requires AllDigits(s)
    decreases |s|
  {
    if s == [] then 0
    else DigitsValue(s[..|s| - 1]) * 10 + (s[|s| - 1] as int - '0' as int)
  }

  /** The decimal digits of `n`, as `String(n)` writes them. */
  function DecimalDigits(n: nat): (s: string)
    ensures AllDigits(s) && |s| > 0
  {
    if n < 10 then [(n + '0' as int) as char]
    else DecimalDigits(n / 10) + [(n % 10 + '0' as int) as char]
  }

  /** Reading back the digits `String(n)` writes gives `n`. */
  lemma {:induction false} DigitsRoundTrip(n: nat)
    ensures DigitsValue(DecimalDigits(n)) == n
  {
    if n >= 10 {
      var s := DecimalDigits(n);
      assert s[..|s| - 1] == DecimalDigits(n / 10);
      DigitsRoundTrip(n / 10);
    }
  }

  /** `s.split(" ").at(0)`: everything before the first space, or all of `s`. */
  function FirstToken(s: string): (r: string)
    ensures r <= s
    ensures forall i :: 0 <= i < |r| ==> r[i] != ' '
    ensures |r| < |s| ==> s[|r|] == ' '
    ensures (forall i :: 0 <= i < |s| ==> s[i] != ' ') ==> r == s
    decreases |s|
  {
    if s == [] || s[0] == ' ' then []
    else [s[0]] + FirstToken(s[1..])
  }

  /**
   * `Number(token)` for a token that holds no space: a run of digits is that
   * whole number and the empty token is `0`; anything else is left uninterpreted.
   */
  function NumberOfToken(token: string): (r: Num)
    ensures r.Whole? <==> AllDigits(token)
    ensures token == [] ==> r == Whole(0)
  {
    if AllDigits(token) then Whole(DigitsValue(token)) else Uninterpreted(Some(token))
  }

  /** The runtime of an entry: `Number(runtime.split(" ").at(0))`. */
  function ParseRuntime(runtime: string): (r: Num)
    ensures r.Whole? <==> AllDigits(FirstToken(runtime))
    ensures runtime == [] || runtime[0] == ' ' ==> r == Whole(0)
    ensures AllDigits(runtime) ==> r == Whole(DigitsValue(runtime))
  {
    NumberOfToken(FirstToken(runtime))
  }

  /** A runtime written as the detail endpoint writes it, "<n> min", gives `n`. */
  lemma RuntimeOfMinutes(n: nat)
    ensures ParseRuntime(DecimalDigits(n) + " min") == Whole(n)
  {
    var digits := DecimalDigits(n);
    var s := digits + " min";
    assert FirstToken(s) == digits by {
      FirstTokenOfWord(digits, " min");
    }
    DigitsRoundTrip(n);
  }

  lemma {:induction false} FirstTokenOfWord(word: string, rest: string)
    requires forall i :: 0 <= i < |word| ==> word[i] != ' '
    requires rest != [] && rest[0] == ' '
    ensures FirstToken(word + rest) == word
    decreases |word|
  {
    if word == [] {
      assert word + rest == rest;
    } else {
      assert (word + rest)[1..] == word[1..] + rest;
      FirstTokenOfWord(word[1..], rest);
    }
  }

  /** "148 min", the runtime of the detail payload, becomes 148 minutes. */
  lemma RuntimeOf148()
    ensures ParseRuntime("148 min") == Whole(148)
  {
    FirstTokenOfWord("148", " min");
    assert "148" + " min" == "148 min";
    assert DigitsValue("1") == 1;
    assert DigitsValue("14") == 14 by { assert "14"[..1] == "1"; }
    assert DigitsValue("148") == 148 by { assert "148"[..2] == "14"; }
  }

  /**
   * `handleAdd`'s record: the selected id, the title, year and poster of the
   * payload, `Number(imdbRating)` (not interpreted), the chosen rating, and
   * the runtime in minutes. When the payload has no `Runtime` (the detail fetch
   * failed and the details are still `{}`), `runtime.split` throws a TypeError.
   */
  function NewEntry(selectedId: string, details: MovieDetails, userRating: nat): (r: Result<WatchedEntry, JsError>)
    ensures r.Ok? <==> details.runtime.Some?
    ensures r.Err? ==> r.error == TypeError
    ensures r.Ok? ==>
      && r.value.imdbId == selectedId
      && r.value.userRating == userRating
      && r.value.title == details.title && r.value.year == details.year
      && r.value.poster == details.poster
      && r.value.runtime == ParseRuntime(details.runtime.value)
      && r.value.imdbRating == Uninterpreted(details.imdbRating)
  {
    match details.runtime
    case None => Err(TypeError)
    case Some(runtime) =>
      Ok(WatchedEntry(
        imdbId := selectedId,
        title := details.title,
        year := details.year,
        poster := details.poster,
        imdbRating := Uninterpreted(details.imdbRating),
        userRating := userRating,
        runtime := ParseRuntime(runtime)))
  }

  /**
   * The guard is what keeps the list free of duplicates: an entry added while
   * the Add button is shown has an id the list does not hold yet, so a list
   * with unique ids keeps them, and the new entry's rating is the one shown
   * for that movie from then on.
   */
  lemma AddThroughGuardKeepsIdsUnique(watched: seq<WatchedEntry>, selectedId: string,
                                      details: MovieDetails, userRating: nat)
    requires UniqueIds(watched) && ShowAdd(watched, selectedId, userRating)
    requires NewEntry(selectedId, details, userRating).Ok?
    ensures var after := AddWatched(watched, NewEntry(selectedId, details, userRating).value);
            && UniqueIds(after)
            && !CanRate(after, selectedId)
            && PreviousRating(after, selectedId) == Some(userRating)
  {
    var entry := NewEntry(selectedId, details, userRating).value;
    var after := AddWatched(watched, entry);
    assert after[|watched|].imdbId == selectedId;
    var r := PreviousRating(after, selectedId);
    var i :| 0 <= i < |after| && after[i].imdbId == selectedId && r.value == after[i].userRating;
    assert i == |watched|;
  }
}
