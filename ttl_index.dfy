/**
 * What the two TTL-backed stores of Cache.java (Ttl and TtlPrefix) share: a
 * TreeMap from key to engine node, kept in step with the engine's ring. The
 * map names a node for each key, the node carries a value whose key is that
 * key, and the ring holds exactly the nodes the map names. The expire
 * handler of either store takes the expired value's key out of the map.
 */
module TtlIndexes {
  import opened Ordering
  import opened SortedMaps
  import opened TtlEngines

  /**
   * The map M from key to node and the ring agree: each ring node is named
   * by M under the key of its value, and each node M names is in the ring.
   */
  ghost predicate Indexes<K, V>(M: map<K, nat>, ring: seq<nat>, values: seq<V>, keyOf: V -> K) {
    && (forall i :: 0 <= i < |ring| ==> ring[i] < |values| && keyOf(values[ring[i]]) in M && M[keyOf(values[ring[i]])] == ring[i])
    && (forall k :: k in M ==> M[k] in ring && M[k] < |values| && keyOf(values[M[k]]) == k)
  }

  /** The values the nodes of M hold, by key. */
  ghost function View<K, V>(M: map<K, nat>, values: seq<V>): (v: map<K, V>)
    ensures v.Keys <= M.Keys
    ensures (forall k :: k in M ==> M[k] < |values|) ==> v.Keys == M.Keys
  {
    map k | k in M && M[k] < |values| :: values[M[k]]
  }

  /** The keys of a sequence of values. */
  ghost function KeysOf<K, V>(vs: seq<V>, keyOf: V -> K): (s: set<K>)
    ensures forall i :: 0 <= i < |vs| ==> keyOf(vs[i]) in s
    ensures forall k :: k in s ==> exists i :: 0 <= i < |vs| && keyOf(vs[i]) == k
  {
    set i | 0 <= i < |vs| :: keyOf(vs[i])
  }

  lemma KeysOfAppend<K, V>(vs: seq<V>, v: V, keyOf: V -> K)
    ensures KeysOf(vs + [v], keyOf) == KeysOf(vs, keyOf) + {keyOf(v)}
  {
    var a, b := KeysOf(vs + [v], keyOf), KeysOf(vs, keyOf) + {keyOf(v)};
    forall k | k in a ensures k in b {
      var i :| 0 <= i < |vs + [v]| && keyOf((vs + [v])[i]) == k;
      if i < |vs| { assert (vs + [v])[i] == vs[i]; }
    }
    forall k | k in b ensures k in a {
      if k != keyOf(v) {
        var i :| 0 <= i < |vs| && keyOf(vs[i]) == k;
        assert (vs + [v])[i] == vs[i];
      } else {
        assert (vs + [v])[|vs|] == v;
      }
    }
  }

  /** An empty map indexes an empty ring. */
  lemma EmptyIndexes<K, V>(values: seq<V>, keyOf: V -> K)
    ensures Indexes(map[], [], values, keyOf)
  {
  }

  /** add: a new node for a value under a new key joins both the ring (at its head) and the map. */
  lemma AddKeepsIndexes<K, V>(M: map<K, nat>, ring: seq<nat>, values: seq<V>, keyOf: V -> K, v: V)
    requires Indexes(M, ring, values, keyOf) && keyOf(v) !in M
    ensures Indexes(M[keyOf(v) := |values|], [|values|] + ring, values + [v], keyOf)
  {
    var k, n := keyOf(v), |values|;
    var M', ring', values' := M[k := n], [n] + ring, values + [v];
    forall i | 0 <= i < |ring'|
      ensures ring'[i] < |values'| && keyOf(values'[ring'[i]]) in M' && M'[keyOf(values'[ring'[i]])] == ring'[i]
    {
      if i > 0 {
        assert ring'[i] == ring[i - 1];
        assert values'[ring[i - 1]] == values[ring[i - 1]];
      }
    }
    forall x | x in M' ensures M'[x] in ring' && M'[x] < |values'| && keyOf(values'[M'[x]]) == x {
      if x != k {
        assert M'[x] == M[x] && M[x] in ring;
        assert values'[M[x]] == values[M[x]];
      } else {
        assert ring'[0] == n;
      }
    }
  }

  /** The view after add gains the new value under its key. */
  lemma AddView<K, V>(M: map<K, nat>, values: seq<V>, k: K, v: V)
    requires forall x :: x in M ==> M[x] < |values|
    ensures View(M[k := |values|], values + [v]) == View(M, values)[k := v]
  {
    var a, b := View(M[k := |values|], values + [v]), View(M, values)[k := v];
    assert a.Keys == b.Keys;
    forall x | x in a ensures a[x] == b[x] {
      if x != k { assert (values + [v])[M[x]] == values[M[x]]; }
    }
  }

  /** remove: the node under k leaves both the ring and the map. */
  lemma RemoveKeepsIndexes<K, V>(M: map<K, nat>, ring: seq<nat>, values: seq<V>, keyOf: V -> K, k: K)
    requires Indexes(M, ring, values, keyOf) && k in M
    ensures Indexes(M - {k}, Without(ring, M[k]), values, keyOf)
  {
    var n := M[k];
    var M', ring' := M - {k}, Without(ring, n);
    WithoutMembers(ring, n);
    forall i | 0 <= i < |ring'|
      ensures ring'[i] < |values| && keyOf(values[ring'[i]]) in M' && M'[keyOf(values[ring'[i]])] == ring'[i]
    {
      assert ring'[i] in ring;
      var j :| 0 <= j < |ring| && ring[j] == ring'[i];
    }
    forall x | x in M' ensures M'[x] in ring' {
      assert keyOf(values[M[x]]) != k;
    }
  }

  /** The view after removing k loses exactly k. */
  lemma RemoveView<K, V>(M: map<K, nat>, values: seq<V>, s: set<K>)
    ensures View(M - s, values) == View(M, values) - s
  {
  }

  /** A ring with the same members and the same values is indexed by the same map (touch). */
  lemma ReorderKeepsIndexes<K, V>(M: map<K, nat>, ring: seq<nat>, ring': seq<nat>, values: seq<V>, keyOf: V -> K)
    requires Indexes(M, ring, values, keyOf)
    requires forall x :: x in ring' <==> x in ring
    ensures Indexes(M, ring', values, keyOf)
  {
    forall i | 0 <= i < |ring'|
      ensures ring'[i] < |values| && keyOf(values[ring'[i]]) in M && M[keyOf(values[ring'[i]])] == ring'[i]
    {
      assert ring'[i] in ring;
      var j :| 0 <= j < |ring| && ring[j] == ring'[i];
    }
  }

  /** The node under a key is the one the view's value sits in, and v's key is k. */
  lemma IndexedKey<K, V>(M: map<K, nat>, ring: seq<nat>, values: seq<V>, keyOf: V -> K, k: K)
    requires Indexes(M, ring, values, keyOf) && k in M
    ensures k in View(M, values) && View(M, values)[k] == values[M[k]] && keyOf(values[M[k]]) == k
  {
  }

  /**
   * expire with the handler: when the ring keeps its first c nodes and the
   * handler takes the keys of the other nodes' values out of the map, map
   * and ring agree again. The ring must not repeat a node.
   */
  lemma EvictKeepsIndexes<K, V>(M: map<K, nat>, ring: seq<nat>, values: seq<V>, keyOf: V -> K, c: nat, expired: seq<V>)
    requires Indexes(M, ring, values, keyOf) && Distinct(ring) && Tail(expired, ring, c, values)
    ensures Indexes(M - KeysOf(expired, keyOf), ring[..c], values, keyOf)
    ensures forall k :: k in M ==> (k in KeysOf(expired, keyOf) <==> M[k] !in ring[..c])
  {
    var gone := KeysOf(expired, keyOf);
    var M', ring' := M - gone, ring[..c];
    forall i | 0 <= i < |ring'|
      ensures ring'[i] < |values| && keyOf(values[ring'[i]]) in M' && M'[keyOf(values[ring'[i]])] == ring'[i]
    {
      var k := keyOf(values[ring[i]]);
      if k in gone {
        var j :| 0 <= j < |expired| && keyOf(expired[j]) == k;
        var i' := |ring| - 1 - j;
        assert M[k] == ring[i'];
        Apart(ring, i, i');
      }
    }
    forall x | x in M' ensures M'[x] in ring' {
      var i :| 0 <= i < |ring| && ring[i] == M[x];
      forall i' | c <= i' < |ring| ensures keyOf(values[ring[i']]) != x {
        assert expired[|ring| - 1 - i'] == values[ring[i']];
      }
    }
    assert forall k :: k in M && k !in gone ==> k in M' && M[k] == M'[k];
    forall k | k in M && M[k] in ring' ensures k !in gone {
      var i :| 0 <= i < c && ring'[i] == M[k];
      forall j | 0 <= j < |expired| ensures keyOf(expired[j]) != k {
        Apart(ring, i, |ring| - 1 - j);
      }
    }
  }

  /**
   * The expire handler applied to each expired value in turn: the map loses
   * the key of each (store.remove on the key the handler computes).
   */
  method Evict<K(==,!new), V>(o: KeyOrder<K>, store: seq<(K, nat)>, expired: seq<V>, keyOf: V -> K) returns (s: seq<(K, nat)>)
    requires Valid(o) && Sorted(o, store)
    ensures Sorted(o, s)
    ensures AsMap(s) == AsMap(store) - KeysOf(expired, keyOf)
  {
    s := store;
    var j := 0;
    while j < |expired|
      invariant 0 <= j <= |expired|
      invariant Sorted(o, s)
      invariant AsMap(s) == AsMap(store) - KeysOf(expired[..j], keyOf)
    {
      KeysOfAppend(expired[..j], expired[j], keyOf);
      assert expired[..j + 1] == expired[..j] + [expired[j]];
      s := Remove(o, s, keyOf(expired[j]));
      j := j + 1;
    }
    assert expired[..j] == expired;
  }

  /** What a TTL-backed store's engine knows: the ring (head first), the access times, and the node of each key. */
  datatype TierState<K> = TierState(ring: seq<nat>, accessTime: seq<int>, nodes: map<K, nat>)

  /**
   * engine.add stored under key: the new node, numbered after every
   * existing one, heads the ring stamped now, and every other key keeps
   * its node and every other node its stamp.
   */
  function Entered<K>(t: TierState<K>, key: K, now: int): (e: TierState<K>)
    ensures key in e.nodes && |e.ring| > 0 && e.ring[0] == e.nodes[key] && e.nodes[key] == |t.accessTime|
    ensures |e.accessTime| == |t.accessTime| + 1 && e.accessTime[e.nodes[key]] == now
    ensures forall n :: 0 <= n < |t.accessTime| ==> e.accessTime[n] == t.accessTime[n]
    ensures forall k :: k in t.nodes && k != key ==> k in e.nodes && e.nodes[k] == t.nodes[k]
  {
    TierState([|t.accessTime|] + t.ring, t.accessTime + [now], t.nodes[key := |t.accessTime|])
  }

  /**
   * store.remove(key) and engine.remove of its node: the node leaves the
   * ring, the key loses it, and every stamp stays; a key without a node
   * changes nothing.
   */
  function Left<K>(t: TierState<K>, key: K): (e: TierState<K>)
    ensures e.accessTime == t.accessTime && key !in e.nodes
    ensures forall k :: k in t.nodes && k != key ==> k in e.nodes && e.nodes[k] == t.nodes[k]
    ensures key in t.nodes ==> e.ring == Without(t.ring, t.nodes[key])
    ensures key !in t.nodes ==> e == t
  {
    if key in t.nodes then TierState(Without(t.ring, t.nodes[key]), t.accessTime, t.nodes - {key}) else t
  }

  /**
   * switchExpiring seen from the expiring tier's engine: a key entering
   * the tier (into, and it was not there) gets a new head node stamped now,
   * a key leaving it (it was there, and not into) loses its node, and
   * otherwise nothing changes.
   */
  function Moved<K>(t: TierState<K>, key: K, into: bool, was: bool, now: int): (e: TierState<K>)
    ensures into && !was ==> e == Entered(t, key, now)
    ensures !into && was ==> e == Left(t, key)
    ensures into == was ==> e == t
  {
    if into && !was then Entered(t, key, now) else if !into && was then Left(t, key) else t
  }
}
