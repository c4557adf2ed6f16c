/**
 * Global key bindings: the `useKey` hook, which runs an action on every
 * `keydown` whose `code` equals its key up to case, and the first version's
 * Escape handler, which compares `code` exactly. Both register one listener on
 * the document when their effect runs and remove it in the effect's cleanup.
 */
module Keys {
  import opened Wrappers

  /** `toLowerCase` on one character (the model covers ASCII letters). */
  function LowerChar(c: char): char {
    if 'A' <= c <= 'Z' then (c as int - 'A' as int + 'a' as int) as char else c
  }

  /** `toLowerCase`: every character lowered, the length kept. */
  function Lower(s: string): (r: string)
    ensures |r| == |s|
    ensures forall i :: 0 <= i < |s| ==> r[i] == LowerChar(s[i])
    decreases |s|
  {
    if s == [] then [] else [LowerChar(s[0])] + Lower(s[1..])
  }

  /** `e.code.toLowerCase() === key.toLowerCase()`. */
  predicate KeyMatches(code: string, key: string): (b: bool)
    ensures b ==> |code| == |key|
    ensures code == key ==> b
  {
    Lower(code) == Lower(key)
  }

  /** Two characters that are the same letter up to case, or the same character. */
  predicate SameIgnoringCase(a: char, b: char) {
    LowerChar(a) == LowerChar(b)
  }

  /** A code matches a key exactly when they agree position by position up to case. */
  lemma MatchIsCaseInsensitive(code: string, key: string)
    ensures KeyMatches(code, key) <==>
            |code| == |key| && forall i :: 0 <= i < |code| ==> SameIgnoringCase(code[i], key[i])
  {
    if |code| == |key| && forall i :: 0 <= i < |code| ==> SameIgnoringCase(code[i], key[i]) {
      assert forall i :: 0 <= i < |code| ==> Lower(code)[i] == Lower(key)[i];
    }
  }

  /** Two bindings whose keys differ only in case accept the same key presses. */
  lemma SameKeyUpToCase(key1: string, key2: string, code: string)
    requires |key1| == |key2| && forall i :: 0 <= i < |key1| ==> SameIgnoringCase(key1[i], key2[i])
    ensures KeyMatches(code, key1) <==> KeyMatches(code, key2)
  {
    MatchIsCaseInsensitive(key1, key2);
  }

  /** So the bindings "escape" and "Escape" accept the same events. */
  lemma EscapeBindingsAgree(code: string)
    ensures KeyMatches(code, "escape") <==> KeyMatches(code, "Escape")
  {
    SameKeyUpToCase("escape", "Escape", code);
  }

  /** No key press is both Enter and Escape, whatever the case. */
  lemma EnterIsNotEscape(code: string)
    ensures !(KeyMatches(code, "Enter") && KeyMatches(code, "Escape"))
  {
    assert |Lower("Enter")| != |Lower("Escape")|;
  }

  /** How a listener decides whether a key press is for it. */
  datatype Matcher =
    | IgnoreCase(key: string)  // `useKey(key, ...)`
    | Exact(code: string)      // the first version's `e.code === "Escape"`

  predicate Accepts(m: Matcher, code: string): (b: bool)
    ensures m.Exact? ==> (b <==> code == m.code)
    ensures m.IgnoreCase? ==> (code == m.key ==> b) && (b ==> |code| == |m.key|)
  {
    match m
    case IgnoreCase(key) => KeyMatches(code, key)
    case Exact(c) => code == c
  }

  /**
   * The exact Escape test accepts only what `useKey("Escape", ...)` accepts,
   * and strictly less: "ESCAPE" passes the second and not the first.
   */
  lemma ExactEscapeIsStricter(code: string)
    ensures Accepts(Exact("Escape"), code) ==> Accepts(IgnoreCase("Escape"), code)
    ensures !Accepts(Exact("Escape"), "ESCAPE") && Accepts(IgnoreCase("Escape"), "ESCAPE")
  {
    MatchIsCaseInsensitive("ESCAPE", "Escape");
  }

  /** A `keydown` listener on the document; `handle` is the identity of its closure. */
  datatype Listener<A> = Listener(handle: nat, matcher: Matcher, action: A)

  /**
   * The actions a key press with this `code` runs, in registration order: the
   * action of every listener that accepts it, and nothing else.
   */
  function Invoked<A(!new)>(listeners: seq<Listener<A>>, code: string): (r: seq<A>)
    ensures |r| <= |listeners|
    ensures forall i :: 0 <= i < |listeners| && Accepts(listeners[i].matcher, code) ==> listeners[i].action in r
    ensures forall a :: a in r ==> exists i :: 0 <= i < |listeners| && listeners[i].action == a
                                             && Accepts(listeners[i].matcher, code)
    decreases |listeners|
  {
    if listeners == [] then []
    else
      var rest := Invoked(listeners[1..], code);
      assert forall i :: 1 <= i < |listeners| ==> listeners[i] == listeners[1..][i - 1];
      if Accepts(listeners[0].matcher, code) then [listeners[0].action] + rest else rest
  }

  /** A key press no registered listener accepts runs nothing. */
  lemma {:induction false} OtherCodeInvokesNothing<A(!new)>(listeners: seq<Listener<A>>, code: string)
    requires forall i :: 0 <= i < |listeners| ==> !Accepts(listeners[i].matcher, code)
    ensures Invoked(listeners, code) == []
    decreases |listeners|
  {
    if listeners != [] {
      assert forall i :: 0 <= i < |listeners[1..]| ==> listeners[1..][i] == listeners[i + 1];
      OtherCodeInvokesNothing(listeners[1..], code);
    }
  }

  /** `removeEventListener` with one closure: the listeners without that handle, in order. */
  function Without<A(!new)>(listeners: seq<Listener<A>>, handle: nat): (r: seq<Listener<A>>)
    ensures forall l :: l in r <==> l in listeners && l.handle != handle
    ensures DistinctHandles(listeners) ==> DistinctHandles(r)
    decreases |listeners|
  {
    if listeners == [] then []
    else
      var rest := Without(listeners[1..], handle);
      assert forall l :: l in listeners <==> l == listeners[0] || l in listeners[1..];
      if listeners[0].handle == handle then rest
      else
        assert DistinctHandles(listeners) ==> forall l :: l in rest ==> l.handle != listeners[0].handle by {
          if DistinctHandles(listeners) {
            forall l | l in rest ensures l.handle != listeners[0].handle {
              var k :| 0 <= k < |listeners[1..]| && listeners[1..][k] == l;
              assert listeners[k + 1] == l;
            }
          }
        }
        [listeners[0]] + rest
  }

  /**
   * Order and multiplicity: a listener registered last runs after all the
   * others, and once, exactly when it accepts the code.
   */
  lemma {:induction false} InvokedAppend<A(!new)>(listeners: seq<Listener<A>>, l: Listener<A>, code: string)
    ensures Invoked(listeners + [l], code)
            == Invoked(listeners, code) + (if Accepts(l.matcher, code) then [l.action] else [])
    decreases |listeners|
  {
    if listeners != [] {
      assert (listeners + [l])[1..] == listeners[1..] + [l];
      InvokedAppend(listeners[1..], l, code);
    }
  }

  /** Removing a handle keeps the other listeners in registration order. */
  lemma {:induction false} WithoutAppend<A(!new)>(listeners: seq<Listener<A>>, l: Listener<A>, handle: nat)
    ensures Without(listeners + [l], handle)
            == Without(listeners, handle) + (if l.handle == handle then [] else [l])
    decreases |listeners|
  {
    if listeners != [] {
      assert (listeners + [l])[1..] == listeners[1..] + [l];
      WithoutAppend(listeners[1..], l, handle);
    }
  }

  ghost predicate DistinctHandles<A(!new)>(listeners: seq<Listener<A>>) {
    forall i, j :: 0 <= i < j < |listeners| ==> listeners[i].handle != listeners[j].handle
  }

  /** The document's `keydown` listeners. */
  class Document<A(!new)> {
    var listeners: seq<Listener<A>>
    var nextHandle: nat

    ghost predicate Valid()
      reads this
    {
      && DistinctHandles(listeners)
      && forall i :: 0 <= i < |listeners| ==> listeners[i].handle < nextHandle
    }

    constructor ()
      ensures Valid() && listeners == []
    {
      listeners := [];
      nextHandle := 0;
    }

    /** `addEventListener("keydown", f)` with a new closure `f`. */
    method AddKeydownListener(matcher: Matcher, action: A) returns (handle: nat)
      requires Valid()
      modifies this
      ensures Valid()
      ensures handle == old(nextHandle) && nextHandle > handle
      ensures listeners == old(listeners) + [Listener(handle, matcher, action)]
    {
      handle := nextHandle;
      listeners := listeners + [Listener(handle, matcher, action)];
      nextHandle := nextHandle + 1;
    }

    /** `removeEventListener("keydown", f)`: only that closure goes. */
    method RemoveKeydownListener(handle: nat)
      requires Valid()
      modifies this
      ensures Valid() && nextHandle == old(nextHandle)
      ensures listeners == Without(old(listeners), handle)
    {
      ghost var before := listeners;
      listeners := Without(listeners, handle);
      forall i | 0 <= i < |listeners| ensures listeners[i].handle < nextHandle {
        assert listeners[i] in before;
      }
    }
  }

  /**
   * One binding effect (`useKey`, or the first version's Escape effect): the
   * listener it has registered, if any, and every handle it has ever used.
   */
  class KeyBinding<A(!new)> {
    const doc: Document<A>
    var handle: Option<nat>
    ghost var owned: set<nat>

    /**
     * The binding has at most one listener on the document: every listener
     * with one of its handles is the one it currently holds.
     */
    ghost predicate Valid()
      reads this, doc
    {
      && doc.Valid()
      && (forall h :: h in owned ==> h < doc.nextHandle)
      && (handle.Some? ==> handle.value in owned
                           && exists i :: 0 <= i < |doc.listeners| && doc.listeners[i].handle == handle.value)
      && (forall i :: 0 <= i < |doc.listeners| && doc.listeners[i].handle in owned ==>
                      handle == Some(doc.listeners[i].handle))
    }

    /** The effect runs on mount: one listener is added. */
    constructor (doc: Document<A>, matcher: Matcher, action: A)
      requires doc.Valid()
      modifies doc
      ensures this.doc == doc && Valid()
      ensures handle == Some(old(doc.nextHandle))
      ensures doc.listeners == old(doc.listeners) + [Listener(handle.value, matcher, action)]
    {
      this.doc := doc;
      var h := doc.AddKeydownListener(matcher, action);
      handle := Some(h);
      owned := {h};
      new;
      assert doc.listeners[|doc.listeners| - 1].handle == h;
    }

    /** The cleanup: the listener is removed, and no listener of this binding is left. */
    method Teardown()
      requires Valid()
      modifies this, doc
      ensures Valid() && handle == None && owned == old(owned)
      ensures doc.listeners == if old(handle).Some? then Without(old(doc.listeners), old(handle).value)
                               else old(doc.listeners)
      ensures forall i :: 0 <= i < |doc.listeners| ==> doc.listeners[i].handle !in owned
    {
      if handle.Some? {
        ghost var before := doc.listeners;
        doc.RemoveKeydownListener(handle.value);
        forall i | 0 <= i < |doc.listeners| ensures doc.listeners[i].handle !in owned {
          assert doc.listeners[i] in before;
        }
      }
      handle := None;
    }

    /**
     * A dependency changed: the cleanup removes the old listener and the
     * effect adds a new one, so the binding still has exactly one.
     */
    method Rerun(matcher: Matcher, action: A)
      requires Valid()
      modifies this, doc
      ensures Valid() && handle.Some?
      ensures doc.listeners == (if old(handle).Some? then Without(old(doc.listeners), old(handle).value)
                                else old(doc.listeners)) + [Listener(handle.value, matcher, action)]
    {
      Teardown();
      var h := doc.AddKeydownListener(matcher, action);
      handle := Some(h);
      owned := owned + {h};
      assert doc.listeners[|doc.listeners| - 1].handle == h;
    }
  }

  /**
   * After teardown the binding's action is no longer run by any key press.
   * `before` is the document's list when the cleanup runs: its listeners with
   * one of the binding's handles carry the binding's current `handle` (as
   * `KeyBinding.Valid` says), and only they carry `action`. Teardown leaves
   * `Without(before, handle)`.
   */
  lemma TornDownBindingIsSilent<A(!new)>(before: seq<Listener<A>>, owned: set<nat>, handle: nat,
                                         action: A, code: string)
    requires forall i :: 0 <= i < |before| && before[i].handle in owned ==> before[i].handle == handle
    requires forall i :: 0 <= i < |before| && before[i].action == action ==> before[i].handle in owned
    ensures action !in Invoked(Without(before, handle), code)
  {
  }

  /** A valid binding has at most one listener on its document. */
  lemma BindingHasAtMostOneListener<A(!new)>(b: KeyBinding<A>)
    requires b.Valid()
    ensures forall i, j :: (0 <= i < |b.doc.listeners| && 0 <= j < |b.doc.listeners|
                            && b.doc.listeners[i].handle in b.owned && b.doc.listeners[j].handle in b.owned) ==> i == j
  {
    AtMostOneListener(b.doc.listeners, b.owned, b.handle);
  }

  /** A valid binding has at most one listener registered. */
  lemma AtMostOneListener<A(!new)>(listeners: seq<Listener<A>>, owned: set<nat>, handle: Option<nat>)
    requires DistinctHandles(listeners)
    requires forall i :: 0 <= i < |listeners| && listeners[i].handle in owned ==> handle == Some(listeners[i].handle)
    ensures forall i, j :: (0 <= i < |listeners| && 0 <= j < |listeners|
                            && listeners[i].handle in owned && listeners[j].handle in owned) ==> i == j
  {
    forall i, j | 0 <= i < |listeners| && 0 <= j < |listeners|
                  && listeners[i].handle in owned && listeners[j].handle in owned
      ensures i == j
    {
      assert listeners[i].handle == listeners[j].handle;
    }
  }
}
