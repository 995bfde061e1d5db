/** Insertion-ordered dictionaries keyed by strings: the shape of a JavaScript
    `Map` and of a web `Storage` area. A dictionary is the sequence of its
    (key, value) pairs in insertion order; `Put` on a present key replaces the
    value where it stands, as `Map.prototype.set` does. */
module OrderedMaps {

  datatype Option<T> = None | Some(value: T)

  /** No key occurs twice: the invariant of every dictionary built by `Put`. */
  predicate DistinctKeys<V>(m: seq<(string, V)>) {
    forall i, j :: 0 <= i < j < |m| ==> m[i].0 != m[j].0
  }

  ghost function Keys<V>(m: seq<(string, V)>): set<string> {
    set p | p in m :: p.0
  }

  lemma KeysIndex<V>(m: seq<(string, V)>, k: string)
    ensures k in Keys(m) <==> exists i :: 0 <= i < |m| && m[i].0 == k
  {
    if k in Keys(m) {
      var p :| p in m && p.0 == k;
      var i :| 0 <= i < |m| && m[i] == p;
    }
  }

  lemma KeysCons<V>(x: (string, V), m: seq<(string, V)>)
    ensures Keys([x] + m) == {x.0} + Keys(m)
    ensures DistinctKeys([x] + m) <==> x.0 !in Keys(m) && DistinctKeys(m)
  {
    var xm := [x] + m;
    assert forall p :: p in xm <==> p == x || p in m;
    KeysIndex(m, x.0);
    if DistinctKeys(xm) {
      forall i | 0 <= i < |m| ensures m[i].0 != x.0 {
        assert xm[i + 1] == m[i];
        assert xm[0].0 != xm[i + 1].0;
      }
      forall i, j | 0 <= i < j < |m| ensures m[i].0 != m[j].0 {
        assert xm[i + 1] == m[i] && xm[j + 1] == m[j];
      }
    }
    if x.0 !in Keys(m) && DistinctKeys(m) {
      forall i, j | 0 <= i < j < |xm| ensures xm[i].0 != xm[j].0 {
        assert xm[j] == m[j - 1];
        if i > 0 {
          assert xm[i] == m[i - 1];
        }
      }
    }
  }

  lemma KeysSnoc<V>(m: seq<(string, V)>, x: (string, V))
    ensures Keys(m + [x]) == Keys(m) + {x.0}
    ensures DistinctKeys(m + [x]) <==> DistinctKeys(m) && x.0 !in Keys(m)
  {
    var mx := m + [x];
    assert forall p :: p in mx <==> p == x || p in m;
    KeysIndex(m, x.0);
    if DistinctKeys(mx) {
      forall i | 0 <= i < |m| ensures m[i].0 != x.0 {
        assert mx[i] == m[i];
        assert mx[i].0 != mx[|m|].0;
      }
      forall i, j | 0 <= i < j < |m| ensures m[i].0 != m[j].0 {
        assert mx[i] == m[i] && mx[j] == m[j];
      }
    }
    if x.0 !in Keys(m) && DistinctKeys(m) {
      forall i, j | 0 <= i < j < |mx| ensures mx[i].0 != mx[j].0 {
        assert mx[i] == m[i];
        if j < |m| {
          assert mx[j] == m[j];
        }
      }
    }
  }

  /** `map.get(k)`: the value stored under `k`, if any. */
  function Lookup<V>(m: seq<(string, V)>, k: string): (r: Option<V>)
    ensures r.Some? <==> k in Keys(m)
    ensures r.Some? ==> (k, r.value) in m
  {
    if m == [] then None
    else if m[0].0 == k then Some(m[0].1)
    else Lookup(m[1..], k)
  }

  /** `map.set(k, v)`: overwrite in place, or append a new key at the end. */
  function Put<V>(m: seq<(string, V)>, k: string, v: V): (r: seq<(string, V)>)
    ensures Keys(r) == Keys(m) + {k}
    ensures |r| == if k in Keys(m) then |m| else |m| + 1
    ensures DistinctKeys(m) ==> DistinctKeys(r)
  {
    if m == [] then [(k, v)]
    else
      KeysCons(m[0], m[1..]);
      assert m == [m[0]] + m[1..];
      if m[0].0 == k then KeysCons((k, v), m[1..]); [(k, v)] + m[1..]
      else KeysCons(m[0], Put(m[1..], k, v)); [m[0]] + Put(m[1..], k, v)
  }

  /** `map.delete(k)`: drop the key, keep the order of the others. */
  function Remove<V>(m: seq<(string, V)>, k: string): (r: seq<(string, V)>)
    ensures Keys(r) == Keys(m) - {k}
    ensures DistinctKeys(m) ==> DistinctKeys(r)
    ensures DistinctKeys(m) ==> |r| == if k in Keys(m) then |m| - 1 else |m|
    ensures forall p :: p in r ==> p in m
  {
    if m == [] then []
    else
      KeysCons(m[0], m[1..]);
      assert m == [m[0]] + m[1..];
      if m[0].0 == k then Remove(m[1..], k)
      else KeysCons(m[0], Remove(m[1..], k)); [m[0]] + Remove(m[1..], k)
  }

  /** `new Map(pairs)`: put the pairs one after the other, so a later
      duplicate overwrites an earlier one in the earlier one's place. */
  function FromPairs<V>(ps: seq<(string, V)>): (r: seq<(string, V)>)
    ensures DistinctKeys(r)
    ensures Keys(r) == Keys(ps)
  {
    if ps == [] then []
    else
      var last := ps[|ps| - 1];
      assert Keys(ps) == Keys(ps[..|ps| - 1]) + {last.0} by {
        assert ps == ps[..|ps| - 1] + [last];
      }
      Put(FromPairs(ps[..|ps| - 1]), last.0, last.1)
  }

  lemma {:induction false} LookupPut<V>(m: seq<(string, V)>, k: string, v: V, k': string)
    ensures Lookup(Put(m, k, v), k') == if k' == k then Some(v) else Lookup(m, k')
  {
    if m != [] && m[0].0 != k {
      LookupPut(m[1..], k, v, k');
    }
  }

  lemma {:induction false} LookupRemove<V>(m: seq<(string, V)>, k: string, k': string)
    ensures Lookup(Remove(m, k), k') == if k' == k then None else Lookup(m, k')
  {
    if m != [] {
      LookupRemove(m[1..], k, k');
    }
  }

  /** In a dictionary without duplicates, every stored pair is what `get` finds. */
  lemma {:induction false} LookupAt<V>(m: seq<(string, V)>, i: nat)
    requires DistinctKeys(m) && i < |m|
    ensures Lookup(m, m[i].0) == Some(m[i].1)
  {
    if i > 0 {
      assert m[0].0 != m[i].0;
      assert m[1..][i - 1] == m[i];
      LookupAt(m[1..], i - 1);
    }
  }

  lemma LookupMember<V>(m: seq<(string, V)>, p: (string, V))
    requires DistinctKeys(m) && p in m
    ensures Lookup(m, p.0) == Some(p.1)
  {
    var i :| 0 <= i < |m| && m[i] == p;
    LookupAt(m, i);
  }

  /** Putting a new key appends it. */
  lemma {:induction false} PutAbsent<V>(m: seq<(string, V)>, k: string, v: V)
    requires k !in Keys(m)
    ensures Put(m, k, v) == m + [(k, v)]
  {
    if m != [] {
      assert m == [m[0]] + m[1..];
      KeysCons(m[0], m[1..]);
      PutAbsent(m[1..], k, v);
    }
  }

  /** Deleting a key that is not there changes nothing. */
  lemma {:induction false} RemoveAbsent<V>(m: seq<(string, V)>, k: string)
    requires k !in Keys(m)
    ensures Remove(m, k) == m
  {
    if m != [] {
      assert m == [m[0]] + m[1..];
      KeysCons(m[0], m[1..]);
      RemoveAbsent(m[1..], k);
    }
  }

  lemma {:induction false} RemoveConcat<V>(a: seq<(string, V)>, b: seq<(string, V)>, k: string)
    ensures Remove(a + b, k) == Remove(a, k) + Remove(b, k)
  {
    if a != [] {
      assert (a + b)[1..] == a[1..] + b;
      RemoveConcat(a[1..], b, k);
    } else {
      assert a + b == b;
    }
  }

  /** Deleting the key of the middle pair of `a + [x] + b` drops just that
      pair when the key occurs nowhere else. */
  lemma RemoveMiddle<V>(a: seq<(string, V)>, x: (string, V), b: seq<(string, V)>)
    requires x.0 !in Keys(a) && x.0 !in Keys(b)
    ensures Remove(a + [x] + b, x.0) == a + b
  {
    assert a + [x] + b == a + ([x] + b);
    RemoveConcat(a, [x] + b, x.0);
    RemoveAbsent(a, x.0);
    assert ([x] + b)[1..] == b;
    RemoveAbsent(b, x.0);
  }

  /** In a dictionary without duplicates, the key at index i occurs neither
      before nor after it. */
  lemma KeyOnlyAt<V>(m: seq<(string, V)>, i: nat)
    requires DistinctKeys(m) && i < |m|
    ensures m[i].0 !in Keys(m[..i]) && m[i].0 !in Keys(m[i + 1..])
  {
    KeysIndex(m[..i], m[i].0);
    KeysIndex(m[i + 1..], m[i].0);
    var after := m[i + 1..];
    forall k | 0 <= k < |after| ensures after[k].0 != m[i].0 {
      assert after[k] == m[i + 1 + k];
    }
  }

  /** Rebuilding a dictionary from its own pairs gives it back unchanged. */
  lemma {:induction false} FromDistinctPairs<V>(ps: seq<(string, V)>)
    requires DistinctKeys(ps)
    ensures FromPairs(ps) == ps
  {
    if ps != [] {
      var init, last := ps[..|ps| - 1], ps[|ps| - 1];
      assert ps == init + [last];
      FromDistinctPairs(init);
      assert forall i :: 0 <= i < |init| ==> init[i].0 != last.0 by {
        forall i | 0 <= i < |init| ensures init[i].0 != last.0 {
          assert init[i] == ps[i];
        }
      }
      PutAbsent(init, last.0, last.1);
    }
  }

  // ---------------------------------------------------------------------------
  // Two-pass deletion: collect the keys of the pairs to drop, then delete them

  /** The keys of the pairs that `drop` selects, in order. */
  function KeysWhere<V>(m: seq<(string, V)>, drop: ((string, V)) -> bool): seq<string> {
    if m == [] then []
    else
      var last := m[|m| - 1];
      KeysWhere(m[..|m| - 1], drop) + (if drop(last) then [last.0] else [])
  }

  /** The pairs that `drop` does not select, in order. */
  function Without<V>(m: seq<(string, V)>, drop: ((string, V)) -> bool): seq<(string, V)> {
    if m == [] then []
    else
      var last := m[|m| - 1];
      Without(m[..|m| - 1], drop) + (if drop(last) then [] else [last])
  }

  /** Deletes the keys `ks` one after the other. */
  function RemoveAll<V>(m: seq<(string, V)>, ks: seq<string>): seq<(string, V)> {
    if ks == [] then m else Remove(RemoveAll(m, ks[..|ks| - 1]), ks[|ks| - 1])
  }

  lemma {:induction false} KeysWhereIn<V>(m: seq<(string, V)>, drop: ((string, V)) -> bool)
    ensures forall k :: k in KeysWhere(m, drop) ==> k in Keys(m)
  {
    if m != [] {
      var init, last := m[..|m| - 1], m[|m| - 1];
      assert m == init + [last];
      KeysWhereIn(init, drop);
      KeysSnoc(init, last);
    }
  }

  /** `Without` keeps exactly the unselected pairs, and no key twice. */
  lemma {:induction false} WithoutMembers<V>(m: seq<(string, V)>, drop: ((string, V)) -> bool)
    ensures forall p :: p in Without(m, drop) <==> p in m && !drop(p)
    ensures DistinctKeys(m) ==> DistinctKeys(Without(m, drop))
  {
    if m != [] {
      var init, last := m[..|m| - 1], m[|m| - 1];
      assert m == init + [last];
      WithoutMembers(init, drop);
      var r := Without(init, drop);
      KeysSnoc(init, last);
      KeysSnoc(r, last);
      assert Keys(r) <= Keys(init) by {
        forall k | k in Keys(r) ensures k in Keys(init) {
          var p :| p in r && p.0 == k;
        }
      }
    }
  }

  lemma {:induction false} RemoveAllSnoc<V>(m: seq<(string, V)>, x: (string, V), ks: seq<string>)
    requires x.0 !in ks
    ensures RemoveAll(m + [x], ks) == RemoveAll(m, ks) + [x]
  {
    if ks != [] {
      var init, k := ks[..|ks| - 1], ks[|ks| - 1];
      assert x.0 !in init by {
        assert forall j :: 0 <= j < |init| ==> init[j] == ks[j];
      }
      RemoveAllSnoc(m, x, init);
      RemoveConcat(RemoveAll(m, init), [x], k);
      assert Remove([x], k) == [x] by {
        assert [x][1..] == [];
      }
    }
  }

  /** Deleting the key of a pair appended to a filtered dictionary, the key
      occurring nowhere in the original, drops just that pair. */
  lemma RemoveAppended<V>(init: seq<(string, V)>, drop: ((string, V)) -> bool, x: (string, V))
    requires x.0 !in Keys(init)
    ensures Remove(Without(init, drop) + [x], x.0) == Without(init, drop)
  {
    WithoutMembers(init, drop);
    var r := Without(init, drop);
    assert Keys(r) <= Keys(init);
    RemoveConcat(r, [x], x.0);
    RemoveAbsent(r, x.0);
  }

  lemma RemoveAllAppend<V>(m: seq<(string, V)>, ks: seq<string>, k: string)
    ensures RemoveAll(m, ks + [k]) == Remove(RemoveAll(m, ks), k)
  {
    assert (ks + [k])[..|ks|] == ks;
  }

  /** Collecting the keys of the selected pairs and then deleting them leaves
      exactly the unselected pairs. */
  lemma {:induction false} RemoveAllWhere<V>(m: seq<(string, V)>, drop: ((string, V)) -> bool)
    requires DistinctKeys(m)
    ensures RemoveAll(m, KeysWhere(m, drop)) == Without(m, drop)
  {
    if m != [] {
      var init, last := m[..|m| - 1], m[|m| - 1];
      assert m == init + [last];
      KeysSnoc(init, last);
      RemoveAllWhere(init, drop);
      KeysWhereIn(init, drop);
      var ks := KeysWhere(init, drop);
      var kept := Without(init, drop);
      assert KeysWhere(m, drop) == ks + (if drop(last) then [last.0] else []);
      assert Without(m, drop) == kept + (if drop(last) then [] else [last]);
      RemoveAllSnoc(init, last, ks);
      assert RemoveAll(m, ks) == kept + [last];
      if drop(last) {
        RemoveAllAppend(m, ks, last.0);
        RemoveAppended(init, drop, last);
      } else {
        assert ks + [] == ks;
      }
    }
  }

  /** A key all of whose pairs are selected is gone after `Without`. */
  lemma WithoutDropsKey<V>(m: seq<(string, V)>, drop: ((string, V)) -> bool, k: string)
    requires forall p :: p in m && p.0 == k ==> drop(p)
    ensures k !in Keys(Without(m, drop))
  {
    WithoutMembers(m, drop);
  }

  /** What `get` finds after `Without`: the old pair unless it was selected. */
  lemma WithoutLookup<V>(m: seq<(string, V)>, drop: ((string, V)) -> bool, k: string)
    requires DistinctKeys(m)
    ensures Lookup(Without(m, drop), k)
            == match Lookup(m, k)
               case Some(v) => if drop((k, v)) then None else Some(v)
               case None => None
  {
    WithoutMembers(m, drop);
    var found := Lookup(m, k);
    if found.Some? && !drop((k, found.value)) {
      LookupMember(Without(m, drop), (k, found.value));
    } else {
      forall p | p in m && p.0 == k ensures drop(p) {
        LookupMember(m, p);
      }
      WithoutDropsKey(m, drop, k);
    }
  }
}
