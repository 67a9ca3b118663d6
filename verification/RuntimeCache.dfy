/**
 The TTL cache: what each of its critical sections does to the table of entries
 (as functions on values), and the class whose methods carry them out.
 Time is read from a monotonic clock and passed in as an integer number of ticks; an entry is live
 strictly before its expiry. Expired entries are dropped when a look-up meets them, not before.
 `CacheProtocol` interleaves the same critical sections among many tasks, and `DashboardCache`
 builds the keys under which the dashboard's progress is kept.
 */
module RuntimeCache {
  import opened Prelude

  datatype Entry<+V> = Entry(value: V, expiresAt: int)

  /** How a call ends: with a value, or with an exception or cancellation. */
  datatype Outcome<+T> = Returned(value: T) | Raised

  type Items<V> = map<string, Entry<V>>

  predicate Live<V>(items: Items<V>, key: string, now: int) {
    key in items && items[key].expiresAt > now
  }

  /** A look-up drops the entry it finds expired. */
  function AfterLookup<V>(items: Items<V>, key: string, now: int): Items<V> {
    if Live(items, key, now) then items else items - {key}
  }

  function Stored<V>(items: Items<V>, key: string, value: V, now: int, ttl: int): Items<V> {
    items[key := Entry(value, now + ttl)]
  }

  function DroppedWhere<V>(items: Items<V>, covers: string -> bool): Items<V> {
    map k | k in items && !covers(k) :: items[k]
  }

  /** The cache object. A cached Python `None` is the value `None` of the option. */
  class TTLCache<D> {
    const ttlSeconds: int
    var items: Items<Option<D>>

    constructor (ttlSeconds: int)
      ensures this.ttlSeconds == ttlSeconds && items == map[]
    {
      this.ttlSeconds := ttlSeconds;
      items := map[];
    }

    method Get(key: string, now: int) returns (found: Option<D>)
      modifies this`items
      ensures items == AfterLookup(old(items), key, now)
      ensures key in items <==> key in old(items) && now < old(items)[key].expiresAt
      ensures forall k :: k != key ==> (k in items <==> k in old(items)) && (k in items ==> items[k] == old(items)[k])
      ensures key in items ==> items[key] == old(items)[key] && found == items[key].value
      ensures key !in items ==> found == None
    {
      if !(key in items && items[key].expiresAt > now) {
        items := items - {key};
        return None;
      }
      found := items[key].value;
    }

    method Set(key: string, value: Option<D>, now: int) returns (stored: Option<D>)
      modifies this`items
      ensures items == old(items)[key := Entry(value, now + ttlSeconds)]
      ensures stored == value
    {
      items := items[key := Entry(value, now + ttlSeconds)];
      return value;
    }

    /**
     One call that no other task interrupts. `checked`, `rechecked` and `finished` are the
     clock readings of the first look-up, of the second one under the lock, and of the store;
     `produced` is how the factory ends if it is run.
     */
    method GetOrSet(key: string, checked: int, rechecked: int, finished: int, produced: Outcome<Option<D>>)
      returns (outcome: Outcome<Option<D>>, factoryRan: bool)
      requires checked <= rechecked <= finished
      modifies this`items
      // the factory runs exactly when there is no entry, or one that has expired before it could answer
      ensures factoryRan <==> key !in old(items) || old(items)[key].expiresAt <= checked ||
                              (old(items)[key].expiresAt <= rechecked && old(items)[key].value == None)
      ensures factoryRan ==> outcome == produced
      ensures factoryRan && produced.Returned? ==>
              items == old(items)[key := Entry(produced.value, finished + ttlSeconds)]
      ensures factoryRan && produced.Raised? ==>
              items == if key in old(items) && checked < old(items)[key].expiresAt then old(items)
                       else old(items) - {key}
      ensures !factoryRan ==> key in old(items) && outcome == Returned(old(items)[key].value) && items == old(items)
      // a cached None is not mistaken for a miss
      ensures key in old(items) && rechecked < old(items)[key].expiresAt ==> !factoryRan
    {
      var cached := Get(key, checked);
      if cached != None {
        return Returned(cached), false;
      }
      if key in items && items[key].expiresAt > rechecked {
        return Returned(items[key].value), false;
      }
      if produced.Returned? {
        items := items[key := Entry(produced.value, finished + ttlSeconds)];
      }
      return produced, true;
    }

    method Invalidate(key: string)
      modifies this`items
      ensures items == old(items) - {key}
    {
      items := items - {key};
    }

    method InvalidateWhere(covers: string -> bool)
      modifies this`items
      ensures items == map k | k in old(items) && !covers(k) :: old(items)[k]
    {
      var keys := set k | k in items && covers(k);
      while keys != {}
        invariant forall k :: k in keys ==> k in old(items) && covers(k)
        invariant items == map k | k in old(items) && (covers(k) ==> k in keys) :: old(items)[k]
        decreases keys
      {
        var key :| key in keys;
        keys := keys - {key};
        items := items - {key};
      }
    }
  }

  /** A value that was set is found for exactly the lifetime of the cache, and dropped by the first look-up after it. */
  method SetThenGet<D>(cache: TTLCache<D>, key: string, value: Option<D>, setAt: int, readAt: int)
      returns (found: Option<D>)
    modifies cache`items
    ensures found == if readAt < setAt + cache.ttlSeconds then value else None
    ensures key in cache.items <==> readAt < setAt + cache.ttlSeconds
  {
    var _ := cache.Set(key, value, setAt);
    found := cache.Get(key, readAt);
  }
}
