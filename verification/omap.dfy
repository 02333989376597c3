/** Insertion-ordered maps: a JavaScript `Map`, or a Java map whose iteration
    order the model fixes. A map is a sequence of key/value pairs with
    pairwise-distinct keys; `Put` on a present key overwrites in place. */
module OrderedMaps {
  import opened Wrappers

  type OMap<K, V> = seq<(K, V)>

  predicate UniqueKeys<K(==), V>(m: OMap<K, V>) {
    forall i, j :: 0 <= i < j < |m| ==> m[i].0 != m[j].0
  }

  function Keys<K, V>(m: OMap<K, V>): (r: seq<K>)
    ensures |r| == |m|
    ensures forall i :: 0 <= i < |m| ==> r[i] == m[i].0
  {
    if m == [] then [] else [m[0].0] + Keys(m[1..])
  }

  predicate HasKey<K(==), V>(m: OMap<K, V>, k: K) {
    exists i :: 0 <= i < |m| && m[i].0 == k
  }

  /** The value stored under `k` (the first pair with that key). */
  function Get<K(==), V>(m: OMap<K, V>, k: K): (r: Option<V>)
    ensures r.None? <==> !HasKey(m, k)
    ensures r.Some? ==> exists i :: 0 <= i < |m| && m[i] == (k, r.value)
  {
    if m == [] then None
    else if m[0].0 == k then Some(m[0].1)
    else
      var r := Get(m[1..], k);
      assert r.Some? ==> exists i :: 0 <= i < |m[1..]| && m[1..][i] == (k, r.value);
      assert r.Some? ==> exists i :: 0 <= i < |m| && m[i] == (k, r.value) by {
        if r.Some? {
          var i :| 0 <= i < |m[1..]| && m[1..][i] == (k, r.value);
          assert m[i + 1] == (k, r.value);
        }
      }
      r
  }

  /** `Map.set` / `HashMap.put`. */
  function Put<K(==), V>(m: OMap<K, V>, k: K, v: V): (r: OMap<K, V>)
    ensures HasKey(m, k) ==> |r| == |m|
    ensures !HasKey(m, k) ==> r == m + [(k, v)]
    ensures |m| <= |r| && forall i :: 0 <= i < |m| ==> r[i].0 == m[i].0
    ensures forall i :: 0 <= i < |r| ==> r[i] in m || r[i] == (k, v)
  {
    if m == [] then [(k, v)]
    else if m[0].0 == k then [(k, v)] + m[1..]
    else [m[0]] + Put(m[1..], k, v)
  }

  /** `Map.delete` / `HashMap.remove`. */
  function Remove<K(==), V>(m: OMap<K, V>, k: K): (r: OMap<K, V>)
    ensures |r| <= |m|
    ensures !HasKey(m, k) ==> r == m
  {
    if m == [] then []
    else if m[0].0 == k then Remove(m[1..], k)
    else [m[0]] + Remove(m[1..], k)
  }

  /** `Map.putAll`: the pairs of `other` put one after another. */
  function PutAll<K(==), V>(m: OMap<K, V>, other: OMap<K, V>): OMap<K, V>
    decreases |other|
  {
    if other == [] then m else PutAll(Put(m, other[0].0, other[0].1), other[1..])
  }

  lemma {:induction false} GetPut<K, V>(m: OMap<K, V>, k: K, v: V, k': K)
    ensures Get(Put(m, k, v), k') == if k' == k then Some(v) else Get(m, k')
  {
    if m != [] && m[0].0 != k {
      GetPut(m[1..], k, v, k');
      assert Put(m, k, v)[1..] == Put(m[1..], k, v);
    }
  }

  lemma {:induction false} PutKeepsUnique<K, V>(m: OMap<K, V>, k: K, v: V)
    requires UniqueKeys(m)
    ensures UniqueKeys(Put(m, k, v))
  {
    if m != [] && m[0].0 != k {
      PutKeepsUnique(m[1..], k, v);
      var r := Put(m, k, v);
      forall j | 1 <= j < |r| ensures r[0].0 != r[j].0 {
        HasKeyPut(m[1..], k, v, r[j].0);
        assert r[j] == Put(m[1..], k, v)[j - 1];
        assert HasKey(Put(m[1..], k, v), r[j].0);
      }
    }
  }

  lemma {:induction false} HasKeyPut<K, V>(m: OMap<K, V>, k: K, v: V, k': K)
    ensures HasKey(Put(m, k, v), k') <==> k' == k || HasKey(m, k')
  {
    GetPut(m, k, v, k');
  }

  lemma {:induction false} GetPutAll<K, V>(m: OMap<K, V>, other: OMap<K, V>, k: K)
    ensures Get(PutAll(m, other), k) == if HasKey(other, k) then LastGet(other, k) else Get(m, k)
    decreases |other|
  {
    if other != [] {
      var m' := Put(m, other[0].0, other[0].1);
      GetPutAll(m', other[1..], k);
      GetPut(m, other[0].0, other[0].1, k);
      if HasKey(other[1..], k) {
        assert HasKey(other, k) by {
          var i :| 0 <= i < |other[1..]| && other[1..][i].0 == k;
          assert other[i + 1].0 == k;
        }
      }
    }
  }

  /** The value of the last pair of `m` with key `k`: the one that wins when
      the pairs are put one after another. */
  function LastGet<K(==), V>(m: OMap<K, V>, k: K): (r: Option<V>)
    ensures r.None? <==> !HasKey(m, k)
    decreases |m|
  {
    if m == [] then None
    else
      var rest := LastGet(m[1..], k);
      if rest.Some? then rest
      else if m[0].0 == k then Some(m[0].1)
      else
        assert !HasKey(m, k) by {
          forall i | 1 <= i < |m| ensures m[i].0 != k {
            assert m[i] == m[1..][i - 1];
          }
        }
        None
  }

  lemma {:induction false} LastGetUnique<K, V>(m: OMap<K, V>, k: K)
    requires UniqueKeys(m)
    ensures LastGet(m, k) == Get(m, k)
  {
    if m != [] {
      LastGetUnique(m[1..], k);
      if m[0].0 == k {
        assert !HasKey(m[1..], k) by {
          forall i | 0 <= i < |m[1..]| ensures m[1..][i].0 != k {
            assert m[1..][i] == m[i + 1];
          }
        }
      }
    }
  }

  /** Copying a map into an empty one yields the same lookups. */
  lemma PutAllIntoEmpty<K, V>(m: OMap<K, V>, k: K)
    requires UniqueKeys(m)
    ensures Get(PutAll([], m), k) == Get(m, k)
  {
    GetPutAll([], m, k);
    LastGetUnique(m, k);
  }

  lemma {:induction false} PutAllKeepsUnique<K, V>(m: OMap<K, V>, other: OMap<K, V>)
    requires UniqueKeys(m)
    ensures UniqueKeys(PutAll(m, other))
    decreases |other|
  {
    if other != [] {
      PutKeepsUnique(m, other[0].0, other[0].1);
      PutAllKeepsUnique(Put(m, other[0].0, other[0].1), other[1..]);
    }
  }

  lemma {:induction false} GetRemove<K, V>(m: OMap<K, V>, k: K, k': K)
    requires UniqueKeys(m)
    ensures Get(Remove(m, k), k') == if k' == k then None else Get(m, k')
  {
    if m != [] {
      GetRemove(m[1..], k, k');
    }
  }

  /** Copying pairs whose keys are all new appends them as they are. */
  lemma {:induction false} PutAllFresh<K, V>(m: OMap<K, V>, other: OMap<K, V>)
    requires UniqueKeys(m + other)
    ensures PutAll(m, other) == m + other
    decreases |other|
  {
    if other != [] {
      var (k, v) := other[0];
      forall i | 0 <= i < |m| ensures m[i].0 != k {
        assert (m + other)[i] == m[i] && (m + other)[|m|] == other[0];
      }
      assert Put(m, k, v) == m + [(k, v)];
      assert (m + [(k, v)]) + other[1..] == m + other;
      PutAllFresh(m + [(k, v)], other[1..]);
    }
  }
}
