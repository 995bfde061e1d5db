/** The generic TTL cache of src/lib/cache-service.ts. Each entry is its own
    item of a web `Storage` area, under the key `prefix + key`, holding the
    JSON text of `{data, timestamp, expiresAt}`; there is no size bound and no
    refresh on read. The clock is the explicit parameter `now`; whether
    `setItem` fits within the quota and whether `getItem` succeeds are the
    explicit parameters `fits` and `readOk`. */
module CacheServices {
  import opened OrderedMaps

  const DEFAULT_PREFIX: string := "ai_translator_cache_"
  const DEFAULT_TTL_MINUTES: int := 60

  datatype CacheEntry<T> = CacheEntry(data: T, timestamp: int, expiresAt: int)

  /** An item's text as the service reads it: the empty string (falsy, so
      treated as missing), text that `JSON.parse` rejects or that parses to
      `null`, or an entry. */
  datatype Stored<T> = Blank | Unparseable | Parsed(entry: CacheEntry<T>)

  /** The items of a storage area, in the order of `storage.key(i)`. */
  type Items<T> = seq<(string, Stored<T>)>

  /** An item that `cleanup` deletes: under the prefix, and either unparseable
      or past its expiry time. */
  predicate Stale<T>(p: (string, Stored<T>), prefix: string, now: int) {
    prefix <= p.0
    && match p.1
       case Blank => false
       case Unparseable => true
       case Parsed(e) => now > e.expiresAt
  }

  function StaleAt<T>(prefix: string, now: int): ((string, Stored<T>)) -> bool {
    (p: (string, Stored<T>)) => Stale(p, prefix, now)
  }

  function PrefixedBy<T>(prefix: string): ((string, Stored<T>)) -> bool {
    (p: (string, Stored<T>)) => prefix <= p.0
  }

  /** What `get` returns for storage key `k`. */
  function Read<T>(items: Items<T>, k: string, now: int, readOk: bool): Option<T> {
    if !readOk then None
    else match Lookup<Stored<T>>(items, k)
      case Some(Parsed(e)) => if now > e.expiresAt then None else Some(e.data)
      case _ => None
  }

  /** The items after `get` for storage key `k`: an expired entry is removed. */
  function AfterRead<T>(items: Items<T>, k: string, now: int, readOk: bool): Items<T> {
    if !readOk then items
    else match Lookup<Stored<T>>(items, k)
      case Some(Parsed(e)) => if now > e.expiresAt then Remove(items, k) else items
      case _ => items
  }

  // ---------------------------------------------------------------------------

  /** A web `Storage` area holding the service's items among others. */
  class Storage<T> {
    var items: Items<T>

    ghost predicate Valid()
      reads this
    {
      DistinctKeys(items)
    }

    constructor (initial: Items<T>)
      requires DistinctKeys(initial)
      ensures Valid() && items == initial
    {
      items := initial;
    }

    function Length(): nat
      reads this
    {
      |items|
    }

    /** `storage.key(i)`: the i-th key, or null past the end. */
    function Key(i: nat): Option<string>
      reads this
    {
      if i < |items| then Some(items[i].0) else None
    }

    function GetItem(k: string): Option<Stored<T>>
      reads this
    {
      Lookup(items, k)
    }

    /** `storage.setItem(k, v)`; when the value does not fit, it throws and
        the area is unchanged. */
    method SetItem(k: string, v: Stored<T>, fits: bool) returns (ok: bool)
      requires Valid()
      modifies this
      ensures Valid()
      ensures ok == fits
      ensures items == if fits then Put(old(items), k, v) else old(items)
    {
      if fits {
        items := Put(items, k, v);
      }
      ok := fits;
    }

    method RemoveItem(k: string)
      requires Valid()
      modifies this
      ensures Valid()
      ensures items == Remove(old(items), k)
    {
      items := Remove(items, k);
    }
  }

  // ---------------------------------------------------------------------------

  class CacheService<T> {
    const storage: Storage<T>
    const prefix: string
    /** Time to live in milliseconds. */
    const ttl: int

    ghost predicate Valid()
      reads this, storage
    {
      storage.Valid()
    }

    constructor (storage: Storage<T>, prefix: string := DEFAULT_PREFIX,
                 ttlMinutes: int := DEFAULT_TTL_MINUTES)
      requires storage.Valid()
      ensures Valid()
      ensures this.storage == storage && this.prefix == prefix
      ensures ttl == ttlMinutes * 60000
    {
      this.storage := storage;
      this.prefix := prefix;
      this.ttl := ttlMinutes * 60 * 1000;
    }

    /** Writes the entry under `prefix + key`; a write that does not fit is
        swallowed and followed by `cleanup`. */
    method Set(key: string, value: T, now: int, fits: bool)
      requires Valid()
      modifies storage
      ensures Valid()
      ensures fits ==> storage.items == Put(old(storage.items), prefix + key,
                                            Parsed(CacheEntry(value, now, now + ttl)))
      ensures !fits ==> storage.items == Without(old(storage.items), StaleAt(prefix, now))
    {
      var entry := CacheEntry(value, now, now + ttl);
      var ok := storage.SetItem(prefix + key, Parsed(entry), fits);
      if !ok {
        Cleanup(now);
      }
    }

    /** Returns the data stored under `prefix + key` while it has not expired;
        removes it once expired; anything else, a failing read included, gives
        null. */
    method Get(key: string, now: int, readOk: bool) returns (r: Option<T>)
      requires Valid()
      modifies storage
      ensures Valid()
      ensures r == Read(old(storage.items), prefix + key, now, readOk)
      ensures storage.items == AfterRead(old(storage.items), prefix + key, now, readOk)
    {
      if !readOk {
        return None;
      }
      var item := storage.GetItem(prefix + key);
      if item.None? || item.value.Blank? || item.value.Unparseable? {
        return None;
      }
      var entry := item.value.entry;
      if now > entry.expiresAt {
        storage.RemoveItem(prefix + key);
        return None;
      }
      return Some(entry.data);
    }

    /** Collects the prefixed keys whose item is expired or unparseable, then
        removes them. */
    method Cleanup(now: int)
      requires Valid()
      modifies storage
      ensures Valid()
      ensures storage.items == Without(old(storage.items), StaleAt(prefix, now))
    {
      var keysToRemove: seq<string> := [];
      var i := 0;
      while i < storage.Length()
        invariant 0 <= i <= |storage.items|
        invariant storage.items == old(storage.items)
        invariant keysToRemove == KeysWhere(storage.items[..i], StaleAt(prefix, now))
      {
        assert storage.items[..i + 1][..i] == storage.items[..i];
        var key := storage.Key(i);
        if key.Some? && prefix <= key.value {
          LookupAt(storage.items, i);
          var item := storage.GetItem(key.value);
          if item.Some? && !item.value.Blank? {
            if item.value.Unparseable? || now > item.value.entry.expiresAt {
              keysToRemove := keysToRemove + [key.value];
            }
          }
        }
        i := i + 1;
      }
      assert storage.items[..i] == storage.items;
      RemoveKeys(keysToRemove);
      RemoveAllWhere(old(storage.items), StaleAt(prefix, now));
    }

    /** Collects every key that starts with the prefix, then removes them. */
    method Clear()
      requires Valid()
      modifies storage
      ensures Valid()
      ensures storage.items == Without(old(storage.items), PrefixedBy(prefix))
    {
      var keysToRemove: seq<string> := [];
      var i := 0;
      while i < storage.Length()
        invariant 0 <= i <= |storage.items|
        invariant storage.items == old(storage.items)
        invariant keysToRemove == KeysWhere(storage.items[..i], PrefixedBy(prefix))
      {
        assert storage.items[..i + 1][..i] == storage.items[..i];
        var key := storage.Key(i);
        if key.Some? && prefix <= key.value {
          keysToRemove := keysToRemove + [key.value];
        }
        i := i + 1;
      }
      assert storage.items[..i] == storage.items;
      RemoveKeys(keysToRemove);
      RemoveAllWhere(old(storage.items), PrefixedBy(prefix));
    }

    /** `keysToRemove.forEach(key => this.storage.removeItem(key))`. */
    method RemoveKeys(keys: seq<string>)
      requires Valid()
      modifies storage
      ensures Valid()
      ensures storage.items == RemoveAll(old(storage.items), keys)
    {
      var j := 0;
      while j < |keys|
        invariant 0 <= j <= |keys|
        invariant Valid()
        invariant storage.items == RemoveAll(old(storage.items), keys[..j])
      {
        assert keys[..j + 1][..j] == keys[..j];
        storage.RemoveItem(keys[j]);
        j := j + 1;
      }
      assert keys[..j] == keys;
    }
  }

  // ---------------------------------------------------------------------------
  // What the operations promise, key by key

  /** A `set` that fits followed by a `get` of the same key finds the value
      exactly while `now'` has not passed `now + ttl`; every other storage key
      keeps its item. */
  lemma SetThenGet<T>(items: Items<T>, prefix: string, key: string, value: T,
                      now: int, ttl: int, now': int, other: string)
    requires other != prefix + key
    ensures var after := Put(items, prefix + key, Parsed(CacheEntry(value, now, now + ttl)));
            && Read(after, prefix + key, now', true)
               == (if now' <= now + ttl then Some(value) else None)
            && Lookup(after, other) == Lookup(items, other)
  {
    LookupPut(items, prefix + key, Parsed(CacheEntry(value, now, now + ttl)), prefix + key);
    LookupPut(items, prefix + key, Parsed(CacheEntry(value, now, now + ttl)), other);
  }

  /** `get` changes storage only by removing its own key, and only when the
      entry there has expired; a hit leaves storage untouched. */
  lemma GetTouchesOnlyItsKey<T>(items: Items<T>, k: string, now: int, readOk: bool, other: string)
    requires other != k
    ensures Lookup(AfterRead(items, k, now, readOk), other) == Lookup(items, other)
    ensures Read(items, k, now, readOk).Some? ==> AfterRead(items, k, now, readOk) == items
    ensures AfterRead(items, k, now, readOk) == items
            || AfterRead(items, k, now, readOk) == Remove(items, k)
  {
    LookupRemove(items, k, other);
  }

  /** An expired entry read by `get` gives null and is removed. */
  lemma GetExpired<T>(items: Items<T>, k: string, e: CacheEntry<T>, now: int)
    requires Lookup(items, k) == Some(Parsed(e)) && now > e.expiresAt
    ensures Read(items, k, now, true) == None
    ensures Lookup(AfterRead(items, k, now, true), k) == None
  {
    LookupRemove(items, k, k);
  }

  /** After `cleanup` a key keeps its item unless that item is stale; keys
      without the prefix are never touched. */
  lemma CleanupLookup<T>(items: Items<T>, prefix: string, now: int, k: string)
    requires DistinctKeys(items)
    ensures var after := Without(items, StaleAt(prefix, now));
            && (match Lookup(items, k)
                case Some(v) => Lookup(after, k) == if Stale((k, v), prefix, now) then None else Some(v)
                case None => Lookup(after, k) == None)
            && (!(prefix <= k) ==> Lookup(after, k) == Lookup(items, k))
  {
    WithoutLookup(items, StaleAt(prefix, now), k);
  }

  /** After a `set` that did not fit, the key holds no new entry: at most the
      one it held before. */
  lemma FailedSetKeepsOldOrNothing<T>(items: Items<T>, prefix: string, key: string, now: int)
    requires DistinctKeys(items)
    ensures var after := Without(items, StaleAt(prefix, now));
            Lookup(after, prefix + key) == None
            || Lookup(after, prefix + key) == Lookup(items, prefix + key)
  {
    CleanupLookup(items, prefix, now, prefix + key);
  }

  /** After `clear` no key carries the prefix, and every other key keeps its
      item. */
  lemma ClearLookup<T>(items: Items<T>, prefix: string, k: string)
    requires DistinctKeys(items)
    ensures Lookup(Without(items, PrefixedBy(prefix)), k)
            == if prefix <= k then None else Lookup(items, k)
  {
    WithoutLookup(items, PrefixedBy(prefix), k);
  }

  /** The expired-item scenario: a `get` of an item that expired an hour ago
      gives null and removes it. */
  method ExpiredItemScenario(now: int)
  {
    var area := new Storage<string>([]);
    var service := new CacheService(area);
    var entry := CacheEntry("test-value", now - 7200000, now - 3600000);
    var ok := area.SetItem(DEFAULT_PREFIX + "test-key", Parsed(entry), true);
    var r := service.Get("test-key", now, true);
    assert r == None;
    assert area.items == [];
    r := service.Get("test-key", now, false);
    assert r == None;
  }
}
