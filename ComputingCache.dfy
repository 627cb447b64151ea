/** Stl.Caching.ComputingCache: a read-through cache that computes a missing value once,
    stores it, and never stores a failure. */
module Caching {
  import opened Wrappers

  /** What one `Get` call produces: its result, the cache contents afterwards, and whether it
      called `Compute`. */
  datatype GetOutcome<K, V, E> = GetOutcome(result: Result<V, E>, store: map<K, V>, computed: bool)

  /** `IAsyncCache.TryGet` on the backing cache. */
  function Lookup<K, V>(store: map<K, V>, key: K): Option<V>
  {
    if key in store then Some(store[key]) else None
  }

  /** The Read-Lock-RetryRead-Compute-Store pattern. `storesWhileWaiting` are the entries other
      callers stored while this call waited for the key's lock; a call that hits on the first
      read never waits. */
  function GetSpec<K, V, E>(store: map<K, V>, computer: K -> Result<V, E>, key: K,
                            storesWhileWaiting: map<K, V>): (out: GetOutcome<K, V, E>)
    ensures out.computed <==> key !in store && key !in storesWhileWaiting
    ensures out.result.Ok? ==> key in out.store && out.store[key] == out.result.value
    ensures out.result.Err? ==> out.computed && out.result == computer(key) && key !in out.store
    ensures out.store - {key} == (if key in store then store else store + storesWhileWaiting) - {key}
  {
    match Lookup(store, key)
    case Some(v) => GetOutcome(Ok(v), store, false)
    case None =>
      var locked := store + storesWhileWaiting;
      match Lookup(locked, key)
      case Some(v) => GetOutcome(Ok(v), locked, false)
      case None =>
        match computer(key)
        case Ok(v) => GetOutcome(Ok(v), locked[key := v], true)
        case Err(e) => GetOutcome(Err(e), locked, true)
  }

  /** A hit on the first read returns the cached value, computes nothing and changes nothing. */
  lemma GetHitReturnsCached<K, V, E>(store: map<K, V>, computer: K -> Result<V, E>, key: K, w: map<K, V>)
    requires key in store
    ensures GetSpec(store, computer, key, w) == GetOutcome(Ok(store[key]), store, false)
  {
  }

  /** A hit on the re-read after locking returns what the other caller stored, without computing. */
  lemma GetRecheckHitReturnsStored<K, V, E>(store: map<K, V>, computer: K -> Result<V, E>, key: K, w: map<K, V>)
    requires key !in store && key in w
    ensures var out := GetSpec(store, computer, key, w);
            out.result == Ok(w[key]) && !out.computed && out.store == store + w
  {
  }

  /** On a miss `Compute(key)` runs once; a success is stored under `key` only and returned. */
  lemma GetMissComputesAndStores<K, V, E>(store: map<K, V>, computer: K -> Result<V, E>, key: K, w: map<K, V>)
    requires key !in store && key !in w
    ensures var out := GetSpec(store, computer, key, w);
            && out.computed && out.result == computer(key)
            && (out.result.Ok? ==> key in out.store && out.store[key] == out.result.value)
            && (forall k :: k != key ==> Lookup(out.store, k) == Lookup(store + w, k))
  {
  }

  /** A failure is returned and not stored, so the next call computes again. */
  lemma GetFailureIsNotCached<K, V, E>(store: map<K, V>, computer: K -> Result<V, E>, key: K,
                                       w: map<K, V>, w': map<K, V>)
    requires GetSpec(store, computer, key, w).result.Err?
    ensures var out := GetSpec(store, computer, key, w);
            && key !in out.store && out.store == store + w
            && (key !in w' ==> GetSpec(out.store, computer, key, w').computed)
  {
  }

  /** After a successful call, every later call for the key returns the same value without
      computing. */
  lemma GetThenGetHits<K, V, E>(store: map<K, V>, computer: K -> Result<V, E>, key: K,
                                w: map<K, V>, w': map<K, V>)
    requires GetSpec(store, computer, key, w).result.Ok?
    ensures var out := GetSpec(store, computer, key, w);
            GetSpec(out.store, computer, key, w') == GetOutcome(out.result, out.store, false)
  {
  }

  /** `ComputingCache<TKey, TValue>` together with its base `ComputingCacheBase`. */
  class ComputingCache<K(==), V, E> {
    /** `Cache`: the backing store. */
    var store: map<K, V>
    /** `Computer`: the compute delegate; a failure stands for the exception it throws. */
    const computer: K -> Result<V, E>
    /** The keys `Compute` was called with, oldest first. */
    ghost var computeCalls: seq<K>

    constructor (cache: map<K, V>, computer: K -> Result<V, E>)
      ensures store == cache && this.computer == computer && computeCalls == []
    {
      store := cache;
      this.computer := computer;
      computeCalls := [];
    }

    /** `Compute(key)`: invokes the computer. */
    method Compute(key: K) returns (r: Result<V, E>)
      modifies this`computeCalls
      ensures r == computer(key) && computeCalls == old(computeCalls) + [key]
    {
      r := computer(key);
      computeCalls := computeCalls + [key];
    }

    /** `Get(key)`. The lock is a no-op here; only the stores other callers made while this
        call waited for it are seen, as `storesWhileWaiting`. */
    method Get(key: K, storesWhileWaiting: map<K, V>) returns (r: Result<V, E>)
      modifies this`store, this`computeCalls
      ensures var out := GetSpec(old(store), computer, key, storesWhileWaiting);
              && r == out.result && store == out.store
              && computeCalls == old(computeCalls) + (if out.computed then [key] else [])
    {
      var maybeValue := Lookup(store, key);
      if maybeValue.Some? {
        return Ok(maybeValue.value);
      }

      // acquiring the lock
      store := store + storesWhileWaiting;

      maybeValue := Lookup(store, key);
      if maybeValue.Some? {
        return Ok(maybeValue.value);
      }

      r := Compute(key);
      if r.Ok? {
        store := store[key := r.value];
      }
    }

    /** `TryGet(key)`: always `Some` of what `Get` returns; a failure propagates. */
    method TryGet(key: K, storesWhileWaiting: map<K, V>) returns (r: Result<Option<V>, E>)
      modifies this`store, this`computeCalls
      ensures var out := GetSpec(old(store), computer, key, storesWhileWaiting);
              && (out.result.Ok? ==> r == Ok(Some(out.result.value)))
              && (out.result.Err? ==> r == Err(out.result.error))
              && store == out.store
              && computeCalls == old(computeCalls) + (if out.computed then [key] else [])
    {
      var value := Get(key, storesWhileWaiting);
      match value
      case Ok(v) => r := Ok(Some(v));
      case Err(e) => r := Err(e);
    }
  }
}
