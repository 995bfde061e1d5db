# Translation caches and app store

This project models the client-side caching of an AI translation assistant,
together with the reducers of its application store. It has three parts.

- **`TranslationCache`** (src/lib/cache.ts).
  - It is an in-memory `Map` from cache key to entry, mirrored as one JSON
    list in the `translation-cache` item of local storage.
  - A key is `fromLang:toLang:hash36`. The hash is a 31-multiplier rolling
    hash over the UTF-16 code units of the text, with 32-bit signed
    wrap-around, rendered in base 36.
  - An entry is live while `now - timestamp <= 24h`. A hit refreshes its
    timestamp.
  - When more than 1000 entries are stored, `cleanup` deletes the expired
    ones. If the map is still too large, it keeps the 1000 newest entries of
    the pre-deletion snapshot.
- **`CacheService<T>`** (src/lib/cache-service.ts).
  - It is a TTL cache that stores every entry as its own item of a web
    `Storage` area, under `prefix + key`.
  - It has no size bound and no refresh on read.
  - `cleanup` and `clear` each sweep the prefixed keys in two passes: they
    collect the keys first, then remove them.
- **The app store reducers** (src/lib/store.ts).
  - The settings are shallow-merged.
  - The history is newest first and capped at 100 items.
  - Characters are appended, and filtered or mapped by name.
  - Only settings, history and characters are persisted.

Files:

- `ordered_maps.dfy`: module `OrderedMaps`. A JavaScript `Map`, and a
  `Storage` area, as an insertion-ordered sequence of (key, value) pairs.
  - It provides `Lookup`, `Put`, `Remove` and `FromPairs`.
  - It also provides the two-pass deletion `KeysWhere` / `RemoveAll` /
    `Without`, and their lemmas.
- `cache_keys.dfy`: module `CacheKeys`. It holds ToInt32, the hash, base 36
  and the key format.
- `translation_cache.dfy`: module `TranslationCaches`.
  - The class `TranslationCache` has the fields `cache` (the map) and `slot`
    (the persisted item).
  - The specification functions are `Evict`, `AfterSet`, `AfterGet`,
    `Fetched` and `Loaded`, with lemmas about them.
- `cache_service.dfy`: module `CacheServices`. It holds the class `Storage`
  (the web storage area) and the class `CacheService`.
- `app_store.dfy`: module `AppStore`. It holds the state datatypes and the
  pure reducers.

Parameters stand in for the environment:

- The clock, `Date.now()`, is the parameter `now`.
- Whether a local-storage write succeeds is `persistOk` in the translation
  cache and `fits` in the cache service.
- Whether `getItem` succeeds in `CacheService.get` is `readOk`.
- A persisted item is an abstract parsed value, not JSON text.
  - In the translation cache it is `Absent`, `Garbage` or `Saved(entries)`.
  - In the cache service it is `Blank`, `Unparseable` or `Parsed(entry)`.

The caches are meant to keep a contract that the code does not always
keep. Where the two differ, the model follows the code:

- **Liveness.**
  - An entry is meant to be live while `now < expiresAt`.
  - The translation cache tests `now - timestamp <= CACHE_DURATION`, so an
    entry is still live at exactly 24 hours (`ExpiryBoundary`).
  - The cache service tests `now > expiresAt`, so it too serves an entry at
    exactly `expiresAt`.
- **Ties in eviction.**
  - Among entries with equal timestamps, the oldest-inserted are meant to be
    dropped first.
  - The code sorts the snapshot newest first with a stable sort. Among equal
    timestamps it therefore keeps the earliest-inserted entries and drops the
    latest-inserted.
  - The model uses a stable insertion sort. `EvictKeepsNewest` states that no
    dropped entry is newer than a kept one; `AppendedStaysLast` states that an
    entry appended after entries no older than it is sorted last.
- **What the hash reads.**
  - The hash is meant to iterate over code points.
  - `charCodeAt` reads UTF-16 code units, so a character outside the Basic
    Multilingual Plane contributes its two surrogates (`Utf16`).
- **The persisted slot.**
  - The translation cache's slot is meant to sit under a configurable prefix.
  - The code uses the fixed item name `translation-cache`.
- **Invalid configuration.**
  - Construction is meant to fail fast on an invalid configuration.
  - `CacheService` accepts any `ttlMinutes` and any prefix, and the model does
    the same.
- **The round trip of set and get.**
  - `set` followed by `get` is meant to return the value.
  - In the translation cache this holds exactly when the key was already
    stored, or the map held fewer than 1000 entries, or at least one stored
    entry is strictly older than `now` (`TranslationCaches.SetThenGet`, an
    if-and-only-if). An older entry either has expired, which leaves no
    overflow, or ranks below the new entry in the sort.
  - Otherwise the map is full of entries stamped at or after `now`, and an
    overflowing `set` evicts its own new entry at once, because the stable
    sort ranks it after every entry with an equal timestamp
    (`TranslationCaches.SetEvictedAtOnce`). This happens when the clock has
    gone back or has not moved since the map was filled.

## Model

| member | source | states |
|---|---|---|
| CacheKeys.ToInt32 | src/lib/cache.ts:24-25 | the 32-bit result lies in [-2^31, 2^31) and is congruent to its argument modulo 2^32 |
| CacheKeys.HashCode | src/lib/cache.ts:21-26 | the rolling hash of any sequence of code units stays in signed 32-bit range |
| CacheKeys.HashStepIsWrappedAffine | src/lib/cache.ts:24-25 | one turn `(h << 5) - h + c` followed by `h & h` equals ToInt32(31 * h + c) |
| CacheKeys.HashIsWrappedPolynomial | src/lib/cache.ts:21-26 | the hash equals the base-31 polynomial of the code units, reduced once to 32 bits |
| CacheKeys.Utf16 | src/lib/cache.ts:22-23 | the text seen by `charCodeAt` is at least as long as the string in characters, and every unit is in [0, 0x10000) |
| CacheKeys.Base36 | src/lib/cache.ts:27 | the base-36 rendering is non-empty and holds no colon |
| CacheKeys.Base36RoundTrip | src/lib/cache.ts:27 | parsing the base-36 rendering, a leading minus sign included, gives back the hash |
| CacheKeys.Base36Injective | src/lib/cache.ts:27 | two hashes render equally exactly when they are equal |
| CacheKeys.EmptyTextKey | src/lib/cache.ts:19-28 | the empty text hashes to 0, so its key ends in ":0" |
| CacheKeys.SameLanguagesKey | src/lib/cache.ts:30-33 | for one language pair, two texts share a key exactly when their hashes are equal |
| CacheKeys.KeyDeterminesFields | src/lib/cache.ts:30-33 | with colon-free language codes, equal keys mean equal source language, target language and hash, and conversely |
| CacheKeys.HashOfPair | src/lib/cache.ts:21-26 | the hash of two code units u, v is 31u + v |
| CacheKeys.CollidingTexts | src/lib/cache.ts:19-33 | the distinct texts "Aa" and "BB" get the same key, so the key is not collision-free |
| CacheKeys.LanguageColonAmbiguity | src/lib/cache.ts:32 | a colon inside a language code lets two different language pairs produce the same key |
| TranslationCaches.TranslationCache.GenerateHash | src/lib/cache.ts:19-28 | the loop over the code units returns the base-36 rendering of the wrapped polynomial hash |
| TranslationCaches.TranslationCache.GetCacheKey | src/lib/cache.ts:30-33 | the key is the two languages and the text's hash, joined by colons |
| TranslationCaches.TranslationCache.constructor | src/lib/cache.ts:14-17 | the cache starts from the persisted list, swept by `cleanup`; it is empty when nothing or garbage is stored |
| TranslationCaches.TranslationCache.LoadFromLocalStorage | src/lib/cache.ts:35-47 | a missing item changes nothing; an unparseable one empties the map; a parsed list becomes the map, rebuilt as `new Map` and cleaned |
| TranslationCaches.TranslationCache.SaveToLocalStorage | src/lib/cache.ts:49-56 | the item then holds the whole map; a failed write leaves it as it was |
| TranslationCaches.TranslationCache.DeleteExpired | src/lib/cache.ts:60-67 | deleting while walking the snapshot leaves exactly the live entries, in their order |
| TranslationCaches.TranslationCache.Cleanup | src/lib/cache.ts:58-78 | the map becomes `Evict` of the old map, within the size bound, and is saved |
| TranslationCaches.TranslationCache.Get | src/lib/cache.ts:80-99 | the result and new map are `Fetched` and `AfterGet`; the item is rewritten exactly when the key was present |
| TranslationCaches.TranslationCache.Set | src/lib/cache.ts:101-119 | the new map is `AfterSet` of the entry stamped `now` under the derived key, within the size bound; it is saved |
| TranslationCaches.TranslationCache.Clear | src/lib/cache.ts:121-124 | the map is empty and the item is removed |
| TranslationCaches.LiveOfMembers | src/lib/cache.ts:62-67 | the sweep keeps exactly the entries with `now - timestamp <= CACHE_DURATION`, and no key twice |
| TranslationCaches.SweepDrops | src/lib/cache.ts:63-66 | deleting the key of an expired snapshot entry drops exactly that entry from the partly swept map |
| TranslationCaches.SortByTimeSorts | src/lib/cache.ts:72 | the sort is a permutation of the snapshot, newest first, with the same keys |
| TranslationCaches.SortKeepsLiveCount | src/lib/cache.ts:72 | sorting does not change how many entries are live |
| TranslationCaches.LiveComeFirst | src/lib/cache.ts:70-73 | in the sorted snapshot every live entry precedes every expired one |
| TranslationCaches.EvictBounded | src/lib/cache.ts:58-78 | after `cleanup` the map holds at most 1000 entries, no key twice, each one live and taken from the old map; no expired entry is kept, even though the sort runs over the pre-deletion snapshot |
| TranslationCaches.EvictDropsExactlyExpired | src/lib/cache.ts:62-70 | with at most 1000 live entries, `cleanup` deletes exactly the expired ones and keeps the others in order |
| TranslationCaches.EvictKeepsNewest | src/lib/cache.ts:70-75 | with more than 1000 live entries exactly 1000 are kept, and no dropped entry is newer than a kept one |
| TranslationCaches.SetKeepsBound | src/lib/cache.ts:101-119 | `set` keeps the size bound, adds at most its own key, and does not grow the map when it overwrites a key |
| TranslationCaches.NewestSurvives | src/lib/cache.ts:70-75 | a live entry strictly newer than all others survives `cleanup` |
| TranslationCaches.OutrankedSurvives | src/lib/cache.ts:62-75 | with 1001 entries, a live entry survives `cleanup` as soon as one other entry is strictly older than it |
| TranslationCaches.SetThenGet | src/lib/cache.ts:80-119 | `set` then `get` at the same instant returns the translation if and only if the key was stored, the map held fewer than 1000 entries, or some stored entry is strictly older than `now` |
| TranslationCaches.OldestDropped | src/lib/cache.ts:70-75 | with 1001 live entries, the one strictly older than all others is evicted |
| TranslationCaches.AppendedStaysLast | src/lib/cache.ts:72 | the stable sort leaves an entry appended after entries no older than it in the last place |
| TranslationCaches.SetEvictedAtOnce | src/lib/cache.ts:101-119 | on a full map of entries stamped at or after `now`, `set` of a new key leaves that key absent |
| TranslationCaches.ExpiryBoundary | src/lib/cache.ts:84-91 | an entry is served exactly CACHE_DURATION after its timestamp and not a millisecond later |
| TranslationCaches.GetTouchesOnlyItsKey | src/lib/cache.ts:80-99 | `get` changes only its own key: a miss changes nothing, an expired entry is deleted, a live one is restamped `now` with the key set unchanged; every other key keeps its entry |
| TranslationCaches.ReloadKeepsLive | src/lib/cache.ts:35-56 | saving the map and loading it at the same instant gives back its live entries |
| CacheServices.CacheService.constructor | src/lib/cache-service.ts:8-16 | the service keeps the storage area and the prefix, its TTL is `ttlMinutes * 60000` milliseconds, and it starts valid over a valid storage area |
| CacheServices.CacheService.Set | src/lib/cache-service.ts:18-34 | a fitting write puts `{value, now, now + ttl}` under `prefix + key` only; a failed write is swallowed and followed by `cleanup` |
| CacheServices.CacheService.Get | src/lib/cache-service.ts:36-52 | the result and new storage are `Read` and `AfterRead`: data only for an unexpired parsed entry, the expired one removed, and null without any change on a failing read |
| CacheServices.CacheService.Cleanup | src/lib/cache-service.ts:54-75 | storage loses exactly the prefixed items that are unparseable or expired |
| CacheServices.CacheService.Clear | src/lib/cache-service.ts:77-88 | storage loses exactly the items whose key starts with the prefix |
| CacheServices.CacheService.RemoveKeys | src/lib/cache-service.ts:74 | the second pass removes the collected keys one after the other |
| OrderedMaps.RemoveAllWhere | src/lib/cache-service.ts:55-74 | collecting the keys of the selected items and then removing them leaves exactly the unselected items, in order |
| CacheServices.SetThenGet | src/lib/cache-service.ts:18-48 | after a fitting `set`, `get` returns the value exactly while `now' <= now + ttl`, and no other key changes |
| CacheServices.GetTouchesOnlyItsKey | src/lib/cache-service.ts:36-52 | `get` either leaves storage unchanged or removes its own key; a hit leaves it unchanged |
| CacheServices.GetExpired | src/lib/cache-service.ts:43-46 | an expired entry gives null and is removed from storage |
| CacheServices.CleanupLookup | src/lib/cache-service.ts:54-75 | after `cleanup` each key keeps its item unless that item is stale, and keys without the prefix are untouched |
| CacheServices.FailedSetKeepsOldOrNothing | src/lib/cache-service.ts:25-33 | after a failed write the key holds its old item or nothing, never the new entry |
| CacheServices.ClearLookup | src/lib/cache-service.ts:77-88 | after `clear` no prefixed key is left, and every other key keeps its item |
| AppStore.UpdateSettings | src/lib/store.ts:54-57 | the settings become the merge of the old settings and the patch, and nothing else changes |
| AppStore.MergeIsShallow | src/lib/store.ts:54-57 | each settings field carried by the patch takes the patch's value; every other field keeps its old value |
| AppStore.MergeComposes | src/lib/store.ts:54-57 | two updates are one update with the composed patch; the empty patch changes nothing; repeating a patch changes nothing more |
| AppStore.PushHistory | src/lib/store.ts:75-78 | the new history starts with the item, has length min(old + 1, 100), and continues with the old history in order |
| AppStore.AddAllKeepsNewest | src/lib/store.ts:75-78 | after several adds the history is the newest 100 of the added items, latest first, and of the old history |
| AppStore.AddToHistory | src/lib/store.ts:75-78 | the history becomes `PushHistory` of the old history, and nothing else changes |
| AppStore.HistoryFromInitial | src/lib/store.ts:74-78 | from the initial empty history, any sequence of adds leaves the latest 100 items, newest first |
| AppStore.HistoryBounded | src/lib/store.ts:75-78 | the history never exceeds 100 items, and the last item added is first |
| AppStore.ClearHistory | src/lib/store.ts:79 | the history is empty and nothing else changes |
| AppStore.AddCharacter | src/lib/store.ts:83-86 | only the characters change |
| AppStore.AddCharacterAppends | src/lib/store.ts:83-86 | the character is appended at the end and the earlier ones are unchanged |
| AppStore.RemoveCharacter | src/lib/store.ts:87-90 | the characters become the filter by name, and nothing else changes |
| AppStore.WithoutName | src/lib/store.ts:87-90 | the filter keeps exactly the characters whose name differs |
| AppStore.WithoutNameConcat | src/lib/store.ts:87-90 | the filter distributes over concatenation, so the kept characters keep their order |
| AppStore.WithoutNameCount | src/lib/store.ts:87-90 | the filter drops exactly as many characters as carry the name |
| AppStore.RemoveCharacterProperties | src/lib/store.ts:83-90 | removing a name twice is removing it once; removing a just-added character's name undoes the add |
| AppStore.UpdateNamed | src/lib/store.ts:91-96 | the map keeps the length and order, merges the patch into the characters with that name, and leaves the others identical |
| AppStore.UpdateCharacter | src/lib/store.ts:91-96 | the characters become the map by name, and nothing else changes |
| AppStore.UpdateComposes | src/lib/store.ts:91-96 | two updates on one name are one update with the composed patch, provided the first keeps the name; the empty patch changes nothing |
| AppStore.TransientNotPersisted | src/lib/store.ts:100-104 | only settings, history and characters are persisted, and the transient setters never change what is persisted |

## Left out

- JSON text, `JSON.parse` and `JSON.stringify` are not modelled. A persisted item is an abstract parsed value. The model does not cover:
  - well-formed JSON of another shape, such as entries without a timestamp, which the code compares as `NaN`;
  - the item text `null`, which `new Map(null)` turns into an empty map.
- An empty-string `translation-cache` item is read as missing, because `if (saved)` treats it as false. The model folds it into `Absent`.
- In the translation cache, `get` updates the stored entry object in place. The model replaces the entry by value under the same key, in the same position. The map is private, so no alias can observe the difference.
- The clock is the parameter `now`. Each call reads it once. The model does not capture the separate clock reads in `cache.ts` `get` (lines 87 and 94) and in `cache-service.ts` `set` (lines 21-22) returning different instants.
- `console.warn` is not modelled; it has no effect on state.
- Storage failures are modelled only as described above.
  - `getItem` throwing inside `CacheService.cleanup` would push that key for removal. It is not modelled.
  - `removeItem` throwing inside `CacheService.get` is not modelled.
- JavaScript numbers are IEEE doubles; the model uses unbounded integers for timestamps and the TTL.
  - The hash arithmetic is exact either way, because every intermediate value stays below 2^53 in magnitude.
  - A fractional `ttlMinutes` is not modelled.
- The order of `storage.key(i)` is implementation-defined in browsers. The model uses insertion order, and `setItem` on an existing key keeps its place.
- The default `storage = localStorage` of the `CacheService` constructor is not modelled: the storage area is always passed in.
- The `CacheEntry` type of the cache service is not declared in src/lib/types.ts. Its shape is taken from its use at src/lib/cache-service.ts:19-23.
- Strings are sequences of Unicode scalar values, so a JavaScript string holding a lone surrogate cannot be expressed. `Utf16` covers only well-formed text.
- The Zustand `create`/`persist` middleware, the storage name `ai-translator-storage`, and the unused `CacheService` instance at src/lib/store.ts:43 are not modelled. Only the state transitions and `partialize` are modelled.
- A `Partial<AISettings>` whose `provider` or `apiKey` is present but `undefined` cannot be expressed: the model carries such a field as absent or as a value.
- `Date` fields of characters and history items are integers of milliseconds.
- src/App.tsx, src/components/LanguageSelector.tsx and src/lib/ai-service.ts are UI glue and a network client; they are not part of this model.
- Concurrency between tabs that share a storage area is not modelled. Execution is single-threaded, so every operation runs without interleaving.
