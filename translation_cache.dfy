/** The translation cache of src/lib/cache.ts: an insertion-ordered map from
    cache key to entry, kept to at most MAX_CACHE_SIZE entries and to entries
    at most CACHE_DURATION milliseconds old, and mirrored as one JSON list in
    the 'translation-cache' item of local storage. The clock is the explicit
    parameter `now`; whether a write to local storage succeeds is the explicit
    parameter `persistOk`. */
module TranslationCaches {
  import opened OrderedMaps
  import opened CacheKeys

  const CACHE_DURATION: int := 24 * 60 * 60 * 1000
  const MAX_CACHE_SIZE: nat := 1000

  datatype Entry = Entry(translation: string, timestamp: int, fromLang: string,
                         toLang: string, hash: string)

  /** The map's contents in insertion order, as `Array.from(map.entries())`. */
  type Snapshot = seq<(string, Entry)>

  /** The 'translation-cache' item: missing, text that does not parse as a list
      of entries (or whose entries are malformed), or the list. */
  datatype Persisted = Absent | Garbage | Saved(entries: Snapshot)

  /** An entry stays usable up to and including CACHE_DURATION after its
      timestamp. */
  predicate IsLive(e: Entry, now: int) {
    now - e.timestamp <= CACHE_DURATION
  }

  /** The entries that survive the expiry sweep, in their order. */
  function LiveOf(s: Snapshot, now: int): (r: Snapshot)
    ensures |r| <= |s|
  {
    if s == [] then []
    else
      var last := s[|s| - 1];
      LiveOf(s[..|s| - 1], now) + (if IsLive(last.1, now) then [last] else [])
  }

  /** Sorted by timestamp, newest first. */
  predicate NewestFirst(s: Snapshot) {
    forall i, j :: 0 <= i < j < |s| ==> s[i].1.timestamp >= s[j].1.timestamp
  }

  /** Places `x` before the first entry no newer than it. */
  function InsertByTime(x: (string, Entry), s: Snapshot): (r: Snapshot)
    ensures |r| == |s| + 1
  {
    if s == [] || s[0].1.timestamp <= x.1.timestamp then [x] + s
    else [s[0]] + InsertByTime(x, s[1..])
  }

  /** `entries.sort((a, b) => b[1].timestamp - a[1].timestamp)`: newest first;
      the sort is stable, so entries with equal timestamps keep their order. */
  function SortByTime(s: Snapshot): (r: Snapshot)
    ensures |r| == |s|
  {
    if s == [] then [] else InsertByTime(s[0], SortByTime(s[1..]))
  }

  /** What `cleanup` leaves: the live entries in their order; or, when more
      than MAX_CACHE_SIZE of them remain, the first MAX_CACHE_SIZE entries of
      the whole pre-sweep snapshot sorted newest first. */
  function Evict(s: Snapshot, now: int): Snapshot {
    var live := LiveOf(s, now);
    if |live| > MAX_CACHE_SIZE then FromPairs(SortByTime(s)[..MAX_CACHE_SIZE])
    else live
  }

  /** The map after `set` has stored entry `e` under `key`. */
  function AfterSet(s: Snapshot, key: string, e: Entry, now: int): Snapshot {
    var put := Put(s, key, e);
    if |put| > MAX_CACHE_SIZE then Evict(put, now) else put
  }

  /** What `get` returns. */
  function Fetched(s: Snapshot, key: string, now: int): Option<string> {
    match Lookup(s, key)
    case None => None
    case Some(e) => if IsLive(e, now) then Some(e.translation) else None
  }

  /** The map after `get`: an expired entry is deleted, a live one refreshed. */
  function AfterGet(s: Snapshot, key: string, now: int): Snapshot {
    match Lookup(s, key)
    case None => s
    case Some(e) => if IsLive(e, now) then Put(s, key, e.(timestamp := now)) else Remove(s, key)
  }

  /** The map the constructor starts from, given what local storage holds. */
  function Loaded(stored: Persisted, now: int): Snapshot {
    match stored
    case Saved(entries) => Evict(FromPairs(entries), now)
    case _ => []
  }

  // ---------------------------------------------------------------------------
  // The expiry sweep

  /** The sweep keeps exactly the live entries, and no key twice. */
  lemma {:induction false} LiveOfMembers(s: Snapshot, now: int)
    ensures forall p :: p in LiveOf(s, now) <==> p in s && IsLive(p.1, now)
    ensures DistinctKeys(s) ==> DistinctKeys(LiveOf(s, now))
  {
    if s != [] {
      var init, last := s[..|s| - 1], s[|s| - 1];
      assert s == init + [last];
      LiveOfMembers(init, now);
      var r := LiveOf(init, now);
      KeysSnoc(init, last);
      KeysSnoc(r, last);
      assert Keys(r) <= Keys(init) by {
        forall k | k in Keys(r) ensures k in Keys(init) {
          var p :| p in r && p.0 == k;
        }
      }
    }
  }

  lemma {:induction false} LiveOfConcat(a: Snapshot, b: Snapshot, now: int)
    ensures LiveOf(a + b, now) == LiveOf(a, now) + LiveOf(b, now)
  {
    if b != [] {
      var init, last := b[..|b| - 1], b[|b| - 1];
      assert (a + b)[..|a + b| - 1] == a + init;
      LiveOfConcat(a, init, now);
    } else {
      assert a + b == a;
    }
  }

  lemma {:induction false} AllLive(s: Snapshot, now: int)
    requires forall i :: 0 <= i < |s| ==> IsLive(s[i].1, now)
    ensures LiveOf(s, now) == s
  {
    if s != [] {
      assert s == s[..|s| - 1] + [s[|s| - 1]];
      AllLive(s[..|s| - 1], now);
    }
  }

  /** One turn of the deletion loop of `cleanup` over a live entry i: the
      swept prefix grows by that entry, which stays. */
  lemma SweepKeeps(entries: Snapshot, i: nat, now: int)
    requires i < |entries| && IsLive(entries[i].1, now)
    ensures LiveOf(entries[..i], now) + entries[i..]
            == LiveOf(entries[..i + 1], now) + entries[i + 1..]
  {
    assert entries[..i + 1][..i] == entries[..i];
    assert entries[i..] == [entries[i]] + entries[i + 1..];
  }

  /** One turn of the deletion loop of `cleanup` over an expired entry i:
      deleting its key drops exactly that entry, which is the swept prefix
      grown by one. */
  lemma SweepDrops(entries: Snapshot, i: nat, now: int)
    requires DistinctKeys(entries) && i < |entries| && !IsLive(entries[i].1, now)
    ensures Remove(LiveOf(entries[..i], now) + entries[i..], entries[i].0)
            == LiveOf(entries[..i + 1], now) + entries[i + 1..]
  {
    var done, x, rest := entries[..i], entries[i], entries[i + 1..];
    var swept := LiveOf(done, now);
    assert entries[..i + 1][..i] == done;
    assert LiveOf(entries[..i + 1], now) == swept;
    assert entries[i..] == [x] + rest;
    KeyOnlyAt(entries, i);
    LiveOfMembers(done, now);
    assert Keys(swept) <= Keys(done) by {
      forall k | k in Keys(swept) ensures k in Keys(done) {
        var p :| p in swept && p.0 == k;
      }
    }
    assert swept + ([x] + rest) == swept + [x] + rest;
    RemoveMiddle(swept, x, rest);
  }

  // ---------------------------------------------------------------------------
  // The sort

  /** Insertion keeps the entries, with `x` added, and keeps them newest first. */
  lemma {:induction false} InsertByTimeSorts(x: (string, Entry), s: Snapshot)
    ensures multiset(InsertByTime(x, s)) == multiset(s) + multiset{x}
    ensures NewestFirst(s) ==> NewestFirst(InsertByTime(x, s))
  {
    if s != [] && s[0].1.timestamp > x.1.timestamp {
      assert s == [s[0]] + s[1..];
      InsertByTimeSorts(x, s[1..]);
      if NewestFirst(s) {
        InsertBelowHead(x, s);
      }
    }
  }

  /** The inductive step of `InsertByTimeSorts`: the head of `s`, newer than
      `x`, stays in front. */
  lemma InsertBelowHead(x: (string, Entry), s: Snapshot)
    requires s != [] && s[0].1.timestamp > x.1.timestamp && NewestFirst(s)
    requires multiset(InsertByTime(x, s[1..])) == multiset(s[1..]) + multiset{x}
    requires NewestFirst(InsertByTime(x, s[1..]))
    ensures NewestFirst(InsertByTime(x, s))
  {
    var t := InsertByTime(x, s[1..]);
    HeadNewest(x, s, t);
    PrependNewest(s[0], t);
  }

  lemma HeadNewest(x: (string, Entry), s: Snapshot, t: Snapshot)
    requires s != [] && s[0].1.timestamp > x.1.timestamp && NewestFirst(s)
    requires multiset(t) == multiset(s[1..]) + multiset{x}
    ensures forall j :: 0 <= j < |t| ==> s[0].1.timestamp >= t[j].1.timestamp
  {
    forall j | 0 <= j < |t| ensures s[0].1.timestamp >= t[j].1.timestamp {
      assert t[j] in multiset(t);
      if t[j] != x {
        assert t[j] in multiset(s[1..]);
        var k :| 0 <= k < |s[1..]| && s[1..][k] == t[j];
        assert s[k + 1] == t[j];
      }
    }
  }

  lemma PrependNewest(y: (string, Entry), t: Snapshot)
    requires NewestFirst(t)
    requires forall j :: 0 <= j < |t| ==> y.1.timestamp >= t[j].1.timestamp
    ensures NewestFirst([y] + t)
  {
    var r := [y] + t;
    forall i, j | 0 <= i < j < |r| ensures r[i].1.timestamp >= r[j].1.timestamp {
      assert r[j] == t[j - 1];
      if i > 0 {
        assert r[i] == t[i - 1];
      }
    }
  }

  lemma {:induction false} InsertByTimeKeys(x: (string, Entry), s: Snapshot)
    ensures Keys(InsertByTime(x, s)) == Keys(s) + {x.0}
    ensures DistinctKeys(s) && x.0 !in Keys(s) ==> DistinctKeys(InsertByTime(x, s))
  {
    KeysCons(x, s);
    if s != [] && s[0].1.timestamp > x.1.timestamp {
      assert s == [s[0]] + s[1..];
      KeysCons(s[0], s[1..]);
      InsertByTimeKeys(x, s[1..]);
      KeysCons(s[0], InsertByTime(x, s[1..]));
    }
  }

  /** The sort is a permutation into newest-first order, with the same keys. */
  lemma {:induction false} SortByTimeSorts(s: Snapshot)
    ensures multiset(SortByTime(s)) == multiset(s)
    ensures NewestFirst(SortByTime(s))
    ensures Keys(SortByTime(s)) == Keys(s)
    ensures DistinctKeys(s) ==> DistinctKeys(SortByTime(s))
  {
    if s != [] {
      assert s == [s[0]] + s[1..];
      KeysCons(s[0], s[1..]);
      SortByTimeSorts(s[1..]);
      InsertByTimeSorts(s[0], SortByTime(s[1..]));
      InsertByTimeKeys(s[0], SortByTime(s[1..]));
    }
  }

  // ---------------------------------------------------------------------------
  // Counting live entries across the sort

  lemma {:induction false} InsertKeepsLiveCount(x: (string, Entry), t: Snapshot, now: int)
    ensures |LiveOf(InsertByTime(x, t), now)| == |LiveOf(t, now)| + if IsLive(x.1, now) then 1 else 0
  {
    assert LiveOf([x], now) == (if IsLive(x.1, now) then [x] else []) by {
      assert [x][..0] == [];
    }
    if t == [] || t[0].1.timestamp <= x.1.timestamp {
      LiveOfConcat([x], t, now);
    } else {
      assert t == [t[0]] + t[1..];
      InsertKeepsLiveCount(x, t[1..], now);
      LiveOfConcat([t[0]], InsertByTime(x, t[1..]), now);
      LiveOfConcat([t[0]], t[1..], now);
    }
  }

  lemma {:induction false} SortKeepsLiveCount(s: Snapshot, now: int)
    ensures |LiveOf(SortByTime(s), now)| == |LiveOf(s, now)|
  {
    if s != [] {
      SortKeepsLiveCount(s[1..], now);
      InsertKeepsLiveCount(s[0], SortByTime(s[1..]), now);
      assert s == [s[0]] + s[1..];
      LiveOfConcat([s[0]], s[1..], now);
      assert LiveOf([s[0]], now) == (if IsLive(s[0].1, now) then [s[0]] else []) by {
        assert [s[0]][..0] == [];
      }
    }
  }

  lemma {:induction false} NoneLive(s: Snapshot, now: int)
    requires forall k :: 0 <= k < |s| ==> !IsLive(s[k].1, now)
    ensures LiveOf(s, now) == []
  {
    if s != [] {
      NoneLive(s[..|s| - 1], now);
    }
  }

  /** In a newest-first list every live entry comes before every expired one:
      an expired entry at index i leaves at most i live entries. */
  lemma LiveComeFirst(t: Snapshot, now: int, i: nat)
    requires NewestFirst(t) && i < |t|
    ensures !IsLive(t[i].1, now) ==> |LiveOf(t, now)| <= i
  {
    var head, tail := t[..i], t[i..];
    assert t == head + tail;
    LiveOfConcat(head, tail, now);
    if !IsLive(t[i].1, now) {
      forall k | 0 <= k < |tail| ensures !IsLive(tail[k].1, now) {
        assert tail[k] == t[i + k];
      }
      NoneLive(tail, now);
    }
  }

  // ---------------------------------------------------------------------------
  // What cleanup keeps

  /** A prefix of a dictionary without duplicates has none either. */
  lemma PrefixDistinct(t: Snapshot, n: nat)
    requires DistinctKeys(t) && n <= |t|
    ensures DistinctKeys(t[..n])
  {
    var kept := t[..n];
    forall i, j | 0 <= i < j < |kept| ensures kept[i].0 != kept[j].0 {
      assert kept[i] == t[i] && kept[j] == t[j];
    }
  }

  /** The entries `cleanup` keeps on overflow: the first MAX_CACHE_SIZE of the
      snapshot sorted newest first, which form a dictionary as they are. */
  lemma NewestKept(s: Snapshot)
    requires DistinctKeys(s) && |s| > MAX_CACHE_SIZE
    ensures var t := SortByTime(s);
            NewestFirst(t) && multiset(t) == multiset(s) && DistinctKeys(t)
            && FromPairs(t[..MAX_CACHE_SIZE]) == t[..MAX_CACHE_SIZE]
  {
    var t := SortByTime(s);
    SortByTimeSorts(s);
    PrefixDistinct(t, MAX_CACHE_SIZE);
    FromDistinctPairs(t[..MAX_CACHE_SIZE]);
  }

  /** After `cleanup` the map holds at most MAX_CACHE_SIZE entries, no two
      under one key, each of them live and stored before under the same key. */
  lemma EvictBounded(s: Snapshot, now: int)
    requires DistinctKeys(s)
    ensures DistinctKeys(Evict(s, now)) && |Evict(s, now)| <= MAX_CACHE_SIZE
    ensures forall p :: p in Evict(s, now) ==> p in s && IsLive(p.1, now)
  {
    var live := LiveOf(s, now);
    LiveOfMembers(s, now);
    if |live| > MAX_CACHE_SIZE {
      var t := SortByTime(s);
      var kept := t[..MAX_CACHE_SIZE];
      NewestKept(s);
      SortKeepsLiveCount(s, now);
      forall p | p in kept ensures p in s && IsLive(p.1, now) {
        var i :| 0 <= i < MAX_CACHE_SIZE && kept[i] == p;
        assert t[i] == p;
        LiveComeFirst(t, now, i);
        assert p in multiset(t);
      }
    }
  }

  /** Without overflow, `cleanup` deletes exactly the expired entries and keeps
      the others in order. */
  lemma EvictDropsExactlyExpired(s: Snapshot, now: int)
    requires |LiveOf(s, now)| <= MAX_CACHE_SIZE
    ensures Evict(s, now) == LiveOf(s, now)
    ensures forall p :: p in Evict(s, now) <==> p in s && IsLive(p.1, now)
  {
  }

  /** With more than MAX_CACHE_SIZE live entries, `cleanup` keeps exactly
      MAX_CACHE_SIZE of them, and no entry it drops is newer than one it
      keeps. */
  lemma EvictKeepsNewest(s: Snapshot, now: int)
    requires DistinctKeys(s) && |LiveOf(s, now)| > MAX_CACHE_SIZE
    ensures |Evict(s, now)| == MAX_CACHE_SIZE
    ensures forall p, q :: p in Evict(s, now) && q in s && q !in Evict(s, now)
                           ==> q.1.timestamp <= p.1.timestamp
  {
    var t := SortByTime(s);
    var kept := t[..MAX_CACHE_SIZE];
    LiveOfMembers(s, now);
    NewestKept(s);
    assert Evict(s, now) == kept;
    forall p, q | p in kept && q in s && q !in kept
      ensures q.1.timestamp <= p.1.timestamp
    {
      var i :| 0 <= i < MAX_CACHE_SIZE && kept[i] == p;
      assert q in multiset(t);
      var j :| 0 <= j < |t| && t[j] == q;
      assert forall k :: 0 <= k < MAX_CACHE_SIZE ==> t[k] in kept;
      assert i < j;
    }
  }

  // ---------------------------------------------------------------------------
  // set and get

  /** `set` keeps the size bound, adds at most its own key, and overwriting a
      key does not grow the map. */
  lemma SetKeepsBound(s: Snapshot, key: string, e: Entry, now: int)
    requires DistinctKeys(s) && |s| <= MAX_CACHE_SIZE
    ensures DistinctKeys(AfterSet(s, key, e, now))
    ensures |AfterSet(s, key, e, now)| <= MAX_CACHE_SIZE
    ensures Keys(AfterSet(s, key, e, now)) <= Keys(s) + {key}
    ensures key in Keys(s) ==> |AfterSet(s, key, e, now)| == |s|
  {
    var put := Put(s, key, e);
    if |put| > MAX_CACHE_SIZE {
      EvictBounded(put, now);
      forall k | k in Keys(Evict(put, now)) ensures k in Keys(put) {
        var p :| p in Evict(put, now) && p.0 == k;
      }
    }
  }

  /** An entry strictly newer than all others comes first in a newest-first
      list. */
  lemma NewestAtFront(t: Snapshot, x: (string, Entry))
    requires NewestFirst(t) && x in t
    requires forall p :: p in t ==> p == x || p.1.timestamp < x.1.timestamp
    ensures t[0] == x
  {
    var i :| 0 <= i < |t| && t[i] == x;
    assert t[0].1.timestamp >= t[i].1.timestamp;
    assert t[0] in t;
  }

  /** An entry no newer than all others, and older than every other, comes
      last in a newest-first list. */
  lemma OldestAtBack(t: Snapshot, x: (string, Entry))
    requires NewestFirst(t) && x in t
    requires forall p :: p in t ==> p == x || p.1.timestamp > x.1.timestamp
    ensures t[|t| - 1] == x
  {
    var i :| 0 <= i < |t| && t[i] == x;
    assert t[i].1.timestamp >= t[|t| - 1].1.timestamp;
    assert t[|t| - 1] in t;
  }

  /** A live entry strictly newer than every other survives `cleanup`. */
  lemma NewestSurvives(s: Snapshot, x: (string, Entry), now: int)
    requires DistinctKeys(s) && x in s && IsLive(x.1, now)
    requires forall p :: p in s ==> p == x || p.1.timestamp < x.1.timestamp
    ensures Lookup(Evict(s, now), x.0) == Some(x.1)
  {
    var live := LiveOf(s, now);
    LiveOfMembers(s, now);
    if |live| > MAX_CACHE_SIZE {
      var t := SortByTime(s);
      NewestKept(s);
      assert x in multiset(t);
      forall p | p in t ensures p == x || p.1.timestamp < x.1.timestamp {
        assert p in multiset(s);
      }
      NewestAtFront(t, x);
      var kept := t[..MAX_CACHE_SIZE];
      assert kept[0] == x;
      LookupAt(kept, 0);
    } else {
      LookupMember(live, x);
    }
  }

  /** With MAX_CACHE_SIZE + 1 entries, a live entry survives `cleanup` as soon
      as one other entry is strictly older than it: either that entry has
      expired, which leaves no overflow, or it ranks below the live one in the
      sort. */
  lemma OutrankedSurvives(s: Snapshot, x: (string, Entry), now: int)
    requires DistinctKeys(s) && |s| == MAX_CACHE_SIZE + 1 && x in s && IsLive(x.1, now)
    requires exists p :: p in s && p.1.timestamp < x.1.timestamp
    ensures Lookup(Evict(s, now), x.0) == Some(x.1)
  {
    var live := LiveOf(s, now);
    LiveOfMembers(s, now);
    if |live| > MAX_CACHE_SIZE {
      var t := SortByTime(s);
      NewestKept(s);
      var p :| p in s && p.1.timestamp < x.1.timestamp;
      assert x in multiset(t) && p in multiset(t);
      var i :| 0 <= i < |t| && t[i] == x;
      var j :| 0 <= j < |t| && t[j] == p;
      assert i < j;
      var kept := t[..MAX_CACHE_SIZE];
      assert kept[i] == x;
      LookupAt(kept, i);
    } else {
      LookupMember(live, x);
    }
  }

  /** `set` followed by `get` at the same instant finds the new translation
      exactly when the write overwrites a key, does not fill the map past
      MAX_CACHE_SIZE, or meets at least one stored entry strictly older than
      `now`. */
  lemma SetThenGet(s: Snapshot, key: string, e: Entry, now: int)
    requires DistinctKeys(s) && |s| <= MAX_CACHE_SIZE && e.timestamp == now
    ensures Lookup(AfterSet(s, key, e, now), key) == Some(e)
            <==> key in Keys(s) || |s| < MAX_CACHE_SIZE
                 || exists p :: p in s && p.1.timestamp < now
    ensures Fetched(AfterSet(s, key, e, now), key, now) == Some(e.translation)
            <==> key in Keys(s) || |s| < MAX_CACHE_SIZE
                 || exists p :: p in s && p.1.timestamp < now
  {
    var put := Put(s, key, e);
    LookupPut(s, key, e, key);
    if |put| > MAX_CACHE_SIZE {
      PutAbsent(s, key, e);
      assert put == s + [(key, e)];
      if exists p :: p in s && p.1.timestamp < now {
        var p :| p in s && p.1.timestamp < now;
        assert p in put;
        OutrankedSurvives(put, (key, e), now);
      } else {
        SetEvictedAtOnce(s, key, e, now);
      }
    }
  }

  /** When MAX_CACHE_SIZE + 1 live entries overflow, an entry strictly older
      than every other is the one `cleanup` drops. */
  lemma OldestDropped(s: Snapshot, x: (string, Entry), now: int)
    requires DistinctKeys(s) && |s| == MAX_CACHE_SIZE + 1 && LiveOf(s, now) == s
    requires x in s
    requires forall p :: p in s ==> p == x || p.1.timestamp > x.1.timestamp
    ensures Lookup(Evict(s, now), x.0) == None
  {
    var t := SortByTime(s);
    NewestKept(s);
    assert x in multiset(t);
    forall p | p in t ensures p == x || p.1.timestamp > x.1.timestamp {
      assert p in multiset(s);
    }
    OldestAtBack(t, x);
    KeyOnlyAt(t, MAX_CACHE_SIZE);
    assert Evict(s, now) == t[..MAX_CACHE_SIZE];
  }

  /** Inserting an entry at least as new as the last one of a list leaves that
      last one last. */
  lemma {:induction false} InsertKeepsLast(y: (string, Entry), t: Snapshot)
    requires t != [] && t[|t| - 1].1.timestamp <= y.1.timestamp
    ensures InsertByTime(y, t)[|t|] == t[|t| - 1]
  {
    if t[0].1.timestamp > y.1.timestamp {
      assert |t| > 1;
      assert t[1..][|t| - 2] == t[|t| - 1];
      InsertKeepsLast(y, t[1..]);
    }
  }

  /** The sort is stable: an entry appended after entries no older than it
      stays last. */
  lemma {:induction false} AppendedStaysLast(s: Snapshot, x: (string, Entry))
    requires forall p :: p in s ==> p.1.timestamp >= x.1.timestamp
    ensures SortByTime(s + [x])[|s|] == x
  {
    if s == [] {
      assert [] + [x] == [x] && [x][1..] == [];
    } else {
      assert (s + [x])[1..] == s[1..] + [x];
      assert forall p :: p in s[1..] ==> p in s;
      AppendedStaysLast(s[1..], x);
      InsertKeepsLast(s[0], SortByTime(s[1..] + [x]));
    }
  }

  /** The overflow case the round trip excludes does happen: when the map is
      full of entries stamped no earlier than `now` (the clock has gone back or
      stood still), a new key stored by `set` is evicted at once, because the
      stable sort ranks it after every entry with an equal timestamp. */
  lemma SetEvictedAtOnce(s: Snapshot, key: string, e: Entry, now: int)
    requires DistinctKeys(s) && |s| == MAX_CACHE_SIZE && key !in Keys(s)
    requires e.timestamp == now
    requires forall p :: p in s ==> p.1.timestamp >= now
    ensures Lookup(AfterSet(s, key, e, now), key) == None
  {
    var put := Put(s, key, e);
    PutAbsent(s, key, e);
    assert put == s + [(key, e)];
    forall i | 0 <= i < |put| ensures IsLive(put[i].1, now) {
      assert put[i] in s || put[i] == (key, e);
    }
    AllLive(put, now);
    var t := SortByTime(put);
    NewestKept(put);
    AppendedStaysLast(s, (key, e));
    KeyOnlyAt(t, MAX_CACHE_SIZE);
    assert Evict(put, now) == t[..MAX_CACHE_SIZE];
  }

  /** An entry is still served exactly CACHE_DURATION after its timestamp and
      is expired one millisecond later. */
  lemma ExpiryBoundary(s: Snapshot, key: string, e: Entry)
    requires Lookup(s, key) == Some(e)
    ensures Fetched(s, key, e.timestamp + CACHE_DURATION) == Some(e.translation)
    ensures Fetched(s, key, e.timestamp + CACHE_DURATION + 1) == None
  {
  }

  /** `get` touches only its own key: a miss changes nothing, an expired entry
      is deleted, a live one gets timestamp `now`; every other key keeps its
      entry, and the map stays within bounds. */
  lemma GetTouchesOnlyItsKey(s: Snapshot, key: string, now: int, other: string)
    requires DistinctKeys(s) && |s| <= MAX_CACHE_SIZE && other != key
    ensures Lookup(AfterGet(s, key, now), other) == Lookup(s, other)
    ensures DistinctKeys(AfterGet(s, key, now)) && |AfterGet(s, key, now)| <= |s|
    ensures match Lookup(s, key)
            case None => AfterGet(s, key, now) == s
            case Some(e) =>
              if IsLive(e, now) then
                Keys(AfterGet(s, key, now)) == Keys(s)
                && Lookup(AfterGet(s, key, now), key) == Some(e.(timestamp := now))
              else
                Keys(AfterGet(s, key, now)) == Keys(s) - {key}
                && Lookup(AfterGet(s, key, now), key) == None
  {
    match Lookup(s, key)
    case None =>
    case Some(e) =>
      LookupPut(s, key, e.(timestamp := now), other);
      LookupPut(s, key, e.(timestamp := now), key);
      LookupRemove(s, key, other);
      LookupRemove(s, key, key);
  }

  /** Saving the map and loading it again at the same instant gives back its
      live entries; a restart loses only what has expired. */
  lemma ReloadKeepsLive(c: Snapshot, now: int)
    requires DistinctKeys(c) && |c| <= MAX_CACHE_SIZE
    ensures Loaded(Saved(c), now) == LiveOf(c, now)
  {
    FromDistinctPairs(c);
  }

  // ---------------------------------------------------------------------------

  class TranslationCache {
    var cache: Snapshot
    /** The 'translation-cache' item of local storage. */
    var slot: Persisted

    ghost predicate Valid()
      reads this
    {
      DistinctKeys(cache) && |cache| <= MAX_CACHE_SIZE
    }

    /** Starts empty and loads what local storage holds. */
    constructor (stored: Persisted, now: int, persistOk: bool)
      ensures Valid()
      ensures cache == Loaded(stored, now)
      ensures slot == if stored.Saved? && persistOk then Saved(cache) else stored
    {
      cache := [];
      slot := stored;
      new;
      LoadFromLocalStorage(now, persistOk);
    }

    /** The rolling hash loop over the UTF-16 code units of `text`. */
    static method GenerateHash(text: string) returns (hash: string)
      ensures hash == Base36(TextHash(text))
    {
      var units := Utf16(text);
      var h := 0;
      var i := 0;
      while i < |units|
        invariant 0 <= i <= |units|
        invariant h == HashCode(units[..i])
      {
        assert units[..i + 1][..i] == units[..i];
        var c := units[i];
        h := ToInt32(ToInt32(h) * 32) - h + c;
        h := ToInt32(h);
        i := i + 1;
      }
      assert units[..i] == units;
      hash := Base36(h);
    }

    static method GetCacheKey(text: string, fromLang: string, toLang: string) returns (key: string)
      ensures key == CacheKey(text, fromLang, toLang)
    {
      var hash := GenerateHash(text);
      key := fromLang + ":" + toLang + ":" + hash;
    }

    /** A missing item leaves the map as it is; an item that fails to parse
        empties it; a parsed list becomes the map and is swept by `Cleanup`. */
    method LoadFromLocalStorage(now: int, persistOk: bool)
      requires Valid()
      modifies this
      ensures Valid()
      ensures match old(slot)
              case Absent => cache == old(cache) && slot == old(slot)
              case Garbage => cache == [] && slot == old(slot)
              case Saved(entries) =>
                cache == Evict(FromPairs(entries), now)
                && slot == if persistOk then Saved(cache) else old(slot)
    {
      match slot
      case Absent =>
      case Garbage =>
        cache := [];
      case Saved(entries) =>
        cache := FromPairs(entries);
        Cleanup(now, persistOk);
    }

    /** Writes the whole map to the item; a failed write leaves the item as it
        was. */
    method SaveToLocalStorage(persistOk: bool)
      modifies this`slot
      ensures slot == if persistOk then Saved(cache) else old(slot)
    {
      if persistOk {
        slot := Saved(cache);
      }
    }

    /** Deletes the expired entries while walking a snapshot, then, if still
        over the bound, rebuilds the map from the newest MAX_CACHE_SIZE
        entries of that snapshot; then saves. */
    method Cleanup(now: int, persistOk: bool)
      requires DistinctKeys(cache)
      modifies this
      ensures Valid()
      ensures cache == Evict(old(cache), now)
      ensures slot == if persistOk then Saved(cache) else old(slot)
    {
      var entries := cache;
      DeleteExpired(entries, now);
      if |cache| > MAX_CACHE_SIZE {
        var sorted := SortByTime(entries);
        cache := FromPairs(sorted[..MAX_CACHE_SIZE]);
      }
      EvictBounded(entries, now);
      SaveToLocalStorage(persistOk);
    }

    /** The `forEach` of `cleanup`: walks the snapshot `entries` of the map
        and deletes each expired key from the map. */
    method DeleteExpired(entries: Snapshot, now: int)
      requires cache == entries && DistinctKeys(entries)
      modifies this`cache
      ensures cache == LiveOf(entries, now)
    {
      var i := 0;
      while i < |entries|
        invariant 0 <= i <= |entries|
        invariant cache == LiveOf(entries[..i], now) + entries[i..]
      {
        var key, entry := entries[i].0, entries[i].1;
        if now - entry.timestamp > CACHE_DURATION {
          SweepDrops(entries, i, now);
          cache := Remove(cache, key);
        } else {
          SweepKeeps(entries, i, now);
        }
        i := i + 1;
      }
      assert entries[..i] == entries && entries[i..] == [];
    }

    method Get(text: string, fromLang: string, toLang: string, now: int, persistOk: bool)
      returns (r: Option<string>)
      requires Valid()
      modifies this
      ensures Valid()
      ensures r == Fetched(old(cache), CacheKey(text, fromLang, toLang), now)
      ensures cache == AfterGet(old(cache), CacheKey(text, fromLang, toLang), now)
      ensures slot == if Lookup(old(cache), CacheKey(text, fromLang, toLang)).Some? && persistOk
                      then Saved(cache) else old(slot)
    {
      var key := GetCacheKey(text, fromLang, toLang);
      var entry := Lookup(cache, key);
      if entry.None? {
        return None;
      }
      if now - entry.value.timestamp > CACHE_DURATION {
        cache := Remove(cache, key);
        SaveToLocalStorage(persistOk);
        return None;
      }
      var refreshed := entry.value.(timestamp := now);
      cache := Put(cache, key, refreshed);
      SaveToLocalStorage(persistOk);
      return Some(refreshed.translation);
    }

    method Set(text: string, fromLang: string, toLang: string, translation: string,
               now: int, persistOk: bool)
      requires Valid()
      modifies this
      ensures Valid()
      ensures cache == AfterSet(old(cache), CacheKey(text, fromLang, toLang),
                                Entry(translation, now, fromLang, toLang, Base36(TextHash(text))), now)
      ensures slot == if persistOk then Saved(cache) else old(slot)
    {
      var key := GetCacheKey(text, fromLang, toLang);
      var hash := GenerateHash(text);
      cache := Put(cache, key, Entry(translation, now, fromLang, toLang, hash));
      if |cache| > MAX_CACHE_SIZE {
        Cleanup(now, persistOk);
      } else {
        SaveToLocalStorage(persistOk);
      }
    }

    /** Empties the map and removes the item from local storage. */
    method Clear()
      modifies this
      ensures Valid()
      ensures cache == [] && slot == Absent
    {
      cache := [];
      slot := Absent;
    }
  }

  /** The store-lookup-expire-clear scenario, as a caller sees it through the
      contracts above. */
  method Scenario(t0: int)
  {
    var c := new TranslationCache(Absent, t0, true);
    c.Set("hello", "en", "es", "hola", t0, true);
    var key := CacheKey("hello", "en", "es");
    assert c.cache == [(key, Entry("hola", t0, "en", "es", Base36(TextHash("hello"))))];
    var r := c.Get("hello", "en", "es", t0 + CACHE_DURATION, true);
    assert r == Some("hola");
    r := c.Get("hello", "en", "es", t0 + 2 * CACHE_DURATION + 1, true);
    assert r == None;
    assert c.cache == [];
    c.Clear();
    assert c.slot == Absent;
  }
}
