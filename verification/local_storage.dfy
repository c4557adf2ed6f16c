/**
 * `useLocalStorageState`: a piece of state whose initial value is read once
 * from the browser's key-value storage and whose every value is written back
 * in full under the same key. Storage is a map from keys to strings; the
 * JSON encoding is a pair of functions supplied by the caller, and the lemmas
 * that need it to round-trip say so in their preconditions.
 */
module LocalStorage {
  import opened Wrappers
  import opened Movies

  /** `JSON.stringify` and `JSON.parse`; `parse` gives `None` where JSON.parse throws. */
  datatype Codec<!V> = Codec(serialize: V -> string, parse: string -> Option<V>)

  /**
   * What the lemmas assume of the encoding: parsing what was written gives the
   * value back, and what is written is never the empty string (which the hook
   * would read as "nothing stored").
   */
  ghost predicate RoundTrips<V(!new)>(codec: Codec<V>) {
    forall v :: codec.parse(codec.serialize(v)) == Some(v) && codec.serialize(v) != ""
  }

  /** The browser's `localStorage`. */
  class Storage {
    var items: map<string, string>

    constructor (items: map<string, string>)
      ensures this.items == items
    {
      this.items := items;
    }
  }

  /**
   * The lazy initial value: `initialState` when nothing is stored under `key`
   * or the stored string is empty (both are falsy), otherwise the parse of the
   * stored string. A string that does not parse makes `JSON.parse` throw; the
   * hook has no fallback for it.
   */
  function LazyInit<V>(items: map<string, string>, key: string, initialState: V, codec: Codec<V>): (r: Result<V, JsError>)
    ensures (key !in items || items[key] == "") ==> r == Ok(initialState)
    ensures key in items && items[key] != "" ==>
      && (r.Ok? <==> codec.parse(items[key]).Some?)
      && (r.Ok? ==> r.value == codec.parse(items[key]).value)
      && (r.Err? ==> r.error == SyntaxError)
  {
    if key !in items || items[key] == "" then Ok(initialState)
    else
      match codec.parse(items[key])
      case None => Err(SyntaxError)
      case Some(v) => Ok(v)
  }

  /**
   * Writing a value and reading the key again gives that value back, whatever
   * the initial value and whatever else is stored.
   */
  lemma ReloadYieldsLastValue<V(!new)>(items: map<string, string>, key: string, v: V, initialState: V, codec: Codec<V>)
    requires RoundTrips(codec)
    ensures LazyInit(items[key := codec.serialize(v)], key, initialState, codec) == Ok(v)
  {
    assert codec.parse(codec.serialize(v)) == Some(v) && codec.serialize(v) != "";
  }

  /**
   * One mounted use of the hook. It holds the value and keeps the storage
   * entry under `key` equal to that value's encoding.
   */
  class PersistedState<V(!new)> {
    const store: Storage
    const key: string
    const codec: Codec<V>
    var value: V

    ghost predicate Valid()
      reads this, store
    {
      key in store.items && store.items[key] == codec.serialize(value)
    }

    /**
     * Mounting: the lazy initial value, then the write-through effect, which
     * runs once on mount as well. A stored string that does not parse throws
     * before anything mounts, so there is no hook for that case.
     */
    constructor (store: Storage, key: string, initialState: V, codec: Codec<V>)
      requires LazyInit(store.items, key, initialState, codec).Ok?
      modifies store
      ensures this.store == store && this.key == key && this.codec == codec
      ensures value == LazyInit(old(store.items), key, initialState, codec).value
      ensures store.items == old(store.items)[key := codec.serialize(value)]
      ensures Valid()
    {
      this.store := store;
      this.key := key;
      this.codec := codec;
      value := LazyInit(store.items, key, initialState, codec).value;
      new;
      store.items := store.items[key := codec.serialize(value)];
    }

    /**
     * `setValue(v)` and the effect it triggers: the whole encoded value is
     * written under `key`, replacing what was there; no other key changes.
     */
    method Set(v: V)
      requires Valid()
      modifies this, store
      ensures Valid() && value == v
      ensures store.items == old(store.items)[key := codec.serialize(v)]
      ensures forall k :: k != key ==> (k in store.items <==> k in old(store.items))
      ensures forall k :: k != key && k in store.items ==> store.items[k] == old(store.items)[k]
      ensures RoundTrips(codec) ==> forall initialState :: LazyInit(store.items, key, initialState, codec) == Ok(v)
    {
      value := v;
      store.items := store.items[key := codec.serialize(v)];
      forall initialState | RoundTrips(codec)
        ensures LazyInit(store.items, key, initialState, codec) == Ok(v)
      {
        ReloadYieldsLastValue(old(store.items), key, v, initialState, codec);
      }
    }
  }
}
