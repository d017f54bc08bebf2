/**
 * The subscribable stores of src/ts/Store.ts.  `getStore` keeps a `Set` of
 * callbacks and calls each of them on `notify`; `getMapStore` wraps a `Map`
 * that is replaced by a fresh copy on every change, and caches its keys and
 * values until the map is replaced.
 *
 * A callback is known by its identity, a number here; a call to it is
 * recorded in `Store.calls`.  The identity of the current map object, which
 * the source compares with `Object.is`, is a version number that grows each
 * time a new map is installed.
 */
module Store {
  import opened Wrappers
  import opened JsCollections

  type Callback = nat

  /** The function `subscribe` returns: calling it removes that callback. */
  datatype Unsubscriber = Unsubscriber(callback: Callback)

  /** `getStore`: the closure state is the subscriber set. */
  class Store {
    /** `suscribers`: a `Set`, so in insertion order and without repetition. */
    var subscribers: seq<Callback>
    /** Every callback invocation `notify` has made, in order. */
    var calls: seq<Callback>

    ghost predicate Valid()
      reads this
    {
      Distinct(subscribers)
    }

    constructor ()
      ensures Valid() && subscribers == [] && calls == []
    {
      subscribers, calls := [], [];
    }

    /** `subscribe`: adds the callback to the set and hands back its remover. */
    method Subscribe(callback: Callback) returns (unsubscribe: Unsubscriber)
      requires Valid()
      modifies this`subscribers
      ensures Valid()
      ensures subscribers == SetAdd(old(subscribers), callback)
      ensures unsubscribe.callback == callback
    {
      SetAddMembers(subscribers, callback);
      subscribers := SetAdd(subscribers, callback);
      unsubscribe := Unsubscriber(callback);
    }

    /** Calling the function `subscribe` returned: deletes that callback from the set. */
    method Unsubscribe(unsubscribe: Unsubscriber)
      requires Valid()
      modifies this`subscribers
      ensures Valid()
      ensures subscribers == SetDelete(old(subscribers), unsubscribe.callback)
    {
      SetDeleteMembers(subscribers, unsubscribe.callback);
      subscribers := SetDelete(subscribers, unsubscribe.callback);
    }

    /** `notify`: calls every subscriber once, in the set's order. */
    method Notify()
      modifies this`calls
      ensures calls == old(calls) + subscribers
    {
      for n := 0 to |subscribers|
        invariant calls == old(calls) + subscribers[..n]
      {
        calls := calls + [subscribers[n]];
      }
      assert subscribers[..|subscribers|] == subscribers;
    }
  }

  /**
   * One `notify` calls a subscribed callback exactly once, however many times
   * it was subscribed, and a callback that is not subscribed not at all.
   */
  lemma NotifyCallsEachOnce(subscribers: seq<Callback>, callback: Callback)
    requires Distinct(subscribers)
    ensures Count(subscribers, callback) == if callback in subscribers then 1 else 0
  {
    CountDistinct(subscribers, callback);
  }

  /**
   * Subscribing and then calling the returned remover: later notifications no
   * longer call that callback, and the other subscribers stay, in order.
   */
  lemma {:induction false} UnsubscribeStopsCalls(subscribers: seq<Callback>, callback: Callback)
    requires Distinct(subscribers)
    ensures var after := SetDelete(SetAdd(subscribers, callback), callback);
            && Distinct(after)
            && Count(after, callback) == 0
            && forall c :: c != callback ==> (c in after <==> c in subscribers)
  {
    SetAddMembers(subscribers, callback);
    var added := SetAdd(subscribers, callback);
    SetDeleteMembers(added, callback);
    CountDistinct(SetDelete(added, callback), callback);
  }

  /** `getMapStore`: the closure state `map`, `lastMap`, `lastKeys`, `lastValues`. */
  class MapStore<K(==), V> {
    const store: Store
    /** `map`, which `getSnapshot` returns. */
    var entries: Entries<K, V>
    /** The identity of the current map object. */
    var version: nat
    /** The identity of the map the cache was taken from (`lastMap`). */
    var lastVersion: nat
    var lastKeys: seq<K>
    var lastValues: seq<V>

    /** The cache is never ahead of the map, and is exact while the map is the one it was taken from. */
    ghost predicate Valid()
      reads this, store
    {
      && store.Valid()
      && DistinctKeys(entries)
      && lastVersion <= version
      && (lastVersion == version ==> lastKeys == JsCollections.Keys(entries) && lastValues == JsCollections.Values(entries))
    }

    constructor (initialValue: Entries<K, V>)
      requires DistinctKeys(initialValue)
      ensures Valid() && fresh(store)
      ensures entries == initialValue && store.subscribers == [] && store.calls == []
      ensures lastVersion == version
    {
      store := new Store();
      entries := initialValue;
      version := 0;
      lastVersion := 0;
      lastKeys := JsCollections.Keys(initialValue);
      lastValues := JsCollections.Values(initialValue);
    }

    /** `get`: the value stored under `key`, or `undefined`. */
    function Get(key: K): (v: Option<V>)
      reads this
      ensures v.Some? <==> Has(entries, key)
      ensures v.Some? ==> (key, v.value) in entries
    {
      JsCollections.Get(entries, key)
    }

    /** `set`: installs a copy of the map with `key` set to `value`, then notifies once. */
    method Set(key: K, value: V)
      requires Valid()
      modifies this`entries, this`version, store`calls
      ensures Valid()
      ensures entries == JsCollections.Set(old(entries), key, value)
      ensures version == old(version) + 1
      ensures store.calls == old(store.calls) + store.subscribers
    {
      SetKeys(entries, key, value);
      entries := JsCollections.Set(entries, key, value);
      version := version + 1;
      store.Notify();
    }

    /** `delete`: installs a copy of the map without `key`, then notifies once. */
    method Delete(key: K)
      requires Valid()
      modifies this`entries, this`version, store`calls
      ensures Valid()
      ensures entries == JsCollections.Delete(old(entries), key)
      ensures version == old(version) + 1
      ensures store.calls == old(store.calls) + store.subscribers
    {
      DeleteKeys(entries, key);
      entries := JsCollections.Delete(entries, key);
      version := version + 1;
      store.Notify();
    }

    /** `setMap`: installs the caller's map as it is, then notifies once. */
    method SetMap(newMap: Entries<K, V>)
      requires Valid() && DistinctKeys(newMap)
      modifies this`entries, this`version, store`calls
      ensures Valid()
      ensures entries == newMap
      ensures version == old(version) + 1
      ensures store.calls == old(store.calls) + store.subscribers
    {
      entries := newMap;
      version := version + 1;
      store.Notify();
    }

    /** `updateCacheSnapshot`, run when the map is no longer the one the cache was taken from. */
    method RefreshCache()
      requires Valid()
      modifies this`lastVersion, this`lastKeys, this`lastValues
      ensures Valid() && lastVersion == version
      ensures old(lastVersion) == version ==> unchanged(this)
    {
      if lastVersion != version {
        lastVersion := version;
        lastKeys := JsCollections.Keys(entries);
        lastValues := JsCollections.Values(entries);
      }
    }

    /** `keys`: the current keys in insertion order, from the cache. */
    method Keys() returns (ks: seq<K>)
      requires Valid()
      modifies this`lastVersion, this`lastKeys, this`lastValues
      ensures Valid() && ks == JsCollections.Keys(entries) && ks == lastKeys
      ensures old(lastVersion) == version ==> unchanged(this)
    {
      RefreshCache();
      ks := lastKeys;
    }

    /** `values`: the current values in insertion order, from the cache. */
    method Values() returns (vs: seq<V>)
      requires Valid()
      modifies this`lastVersion, this`lastKeys, this`lastValues
      ensures Valid() && vs == JsCollections.Values(entries) && vs == lastValues
      ensures old(lastVersion) == version ==> unchanged(this)
    {
      RefreshCache();
      vs := lastValues;
    }
  }
}
