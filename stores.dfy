/**
 * The two tiers of a cache group (Cache.Manual and Cache.Ttl in
 * core/src/main/java/org/canoegame/entity/Cache.java). Both map keys to
 * holders through a TreeMap; the TTL tier keeps its holders in the nodes of
 * a TtlEngine and forgets a key when its node expires.
 */
module Stores {
  import opened Wrappers
  import opened Ordering
  import opened SortedMaps
  import opened TtlEngines
  import opened TtlIndexes
  import opened Holders

  /** The accessor EntityHolder.getKey, passed to the indexes as the key of each stored value. */
  function KeyOf<K, V>(h: Holder<K, V>): (k: K)
    ensures k == h.key
  {
    h.GetKey()
  }

  /**
   * The eviction handler as line 256 writes it. It takes the key from the
   * holder's value, an entity, through getKey. A holder without a value
   * therefore makes it throw NullPointerException.
   */
  function EvictedKeyAsWritten<K, V>(value: Option<V>, getKey: V -> K): (r: Result<K>)
    ensures r.Err? <==> value.None?
    ensures r.Err? ==> r.fault == NullPointer
  {
    match value
    case None => Err(NullPointer)
    case Some(e) => Ok(getKey(e))
  }

  /**
   * engine.expire with the handler as line 256 writes it, on the ring r
   * (head first) where node n holds a holder whose value is vals[n]. The
   * loop of TtlEngine.java lines 85-97 walks the stale tail run from the
   * tail and calls the handler on each node. The handler throws on the
   * first holder without a value. By then the sweep has cleared the list
   * flag of every node it visited (line 86) and the handler has removed the
   * keys of the stale nodes behind that holder, but the ring has not been
   * closed (lines 99-102): head and head.prev are unchanged, so the links
   * stay as they were and the next expire walks the same ring from the same
   * tail. Ok(k) means the sweep finished and kept r[..k].
   */
  function SweepAsWritten<K, V>(r: seq<nat>, accessTime: seq<int>, vals: seq<Option<V>>, getKey: V -> K, now: int, ttl: int): (res: Result<nat>)
    requires forall i :: 0 <= i < |r| ==> r[i] < |accessTime| && r[i] < |vals|
    ensures res.Ok? ==> res.value <= |r|
    ensures res.Err? ==> res.fault == NullPointer
  {
    if |r| == 0 then Ok(0)
    else
      var t := r[|r| - 1];
      if now - accessTime[t] > ttl then
        if EvictedKeyAsWritten(vals[t], getKey).Err? then Err(NullPointer)
        else SweepAsWritten(r[..|r| - 1], accessTime, vals, getKey, now, ttl)
      else Ok(|r|)
  }

  /**
   * The sweep as written fails exactly when the stale tail run holds a
   * holder without a value. When it does not fail, it keeps what the
   * corrected sweep keeps.
   */
  lemma {:induction false} SweepAsWrittenFails<K, V>(r: seq<nat>, accessTime: seq<int>, vals: seq<Option<V>>, getKey: V -> K, now: int, ttl: int)
    requires forall i :: 0 <= i < |r| ==> r[i] < |accessTime| && r[i] < |vals|
    ensures var res := SweepAsWritten(r, accessTime, vals, getKey, now, ttl);
      && (res.Err? <==> exists j :: Kept(r, accessTime, now, ttl) <= j < |r| && vals[r[j]].None?)
      && (res.Ok? ==> res.value == Kept(r, accessTime, now, ttl))
  {
    if |r| > 0 {
      var t, r' := r[|r| - 1], r[..|r| - 1];
      if now - accessTime[t] > ttl && vals[t].Some? {
        SweepAsWrittenFails(r', accessTime, vals, getKey, now, ttl);
        var k := Kept(r, accessTime, now, ttl);
        assert k == Kept(r', accessTime, now, ttl);
        if exists j :: k <= j < |r| && vals[r[j]].None? {
          var j :| k <= j < |r| && vals[r[j]].None?;
          assert j < |r'| && r'[j] == r[j];
        }
        if exists j :: k <= j < |r'| && vals[r'[j]].None? {
          var j :| k <= j < |r'| && vals[r'[j]].None?;
          assert r'[j] == r[j];
        }
      }
    }
  }

  /** A sweep at a later time keeps no more of the same ring. */
  lemma {:induction false} KeptLater(r: seq<nat>, accessTime: seq<int>, now: int, later: int, ttl: int)
    requires forall i :: 0 <= i < |r| ==> r[i] < |accessTime|
    requires now <= later
    ensures Kept(r, accessTime, later, ttl) <= Kept(r, accessTime, now, ttl)
  {
    if |r| > 0 {
      KeptLater(r[..|r| - 1], accessTime, now, later, ttl);
    }
  }

  /**
   * putOnDelete leaves a holder with no value in the expiring tier (see
   * Groups.Group.PutOnDelete). Once its node n has been idle longer than
   * ttl, the sweep as written fails, and since a failed sweep leaves the
   * ring as it was, so does every sweep after it: a ring in recency order
   * that still holds n can only drop n by a sweep that gets past it.
   * This holds for every ring that still holds n, so nodes added at the
   * head in between do not help. Every get without peek and every
   * getAllWithPrefix of that tier begins with such a sweep.
   */
  lemma StuckAfterEmptiedHolder<K, V>(r: seq<nat>, accessTime: seq<int>, vals: seq<Option<V>>, getKey: V -> K,
                                      n: nat, now: int, later: int, ttl: int)
    requires forall i :: 0 <= i < |r| ==> r[i] < |accessTime| && r[i] < |vals|
    requires Recency(r, accessTime)
    requires n in r && vals[n] == None && now - accessTime[n] > ttl && now <= later
    ensures SweepAsWritten(r, accessTime, vals, getKey, later, ttl) == Err(NullPointer)
  {
    var j :| 0 <= j < |r| && r[j] == n;
    SweepSplitsByAge(r, accessTime, later, ttl);
    SweepAsWrittenFails(r, accessTime, vals, getKey, later, ttl);
    assert Kept(r, accessTime, later, ttl) <= j;
  }

  /** Manual: the permanent tier, a TreeMap from key to holder. */
  class Manual<K(==,!new), V> {
    const o: KeyOrder<K>
    var store: seq<(K, Holder<K, V>)>

    ghost predicate Valid()
      reads this
    {
      Ordering.Valid(o) && Sorted(o, store) && (forall k :: k in AsMap(store) ==> AsMap(store)[k].key == k)
    }

    /** The holders of the tier by key. */
    ghost function Map(): map<K, Holder<K, V>>
      reads this
    {
      AsMap(store)
    }

    /** The holder under key, as a frame: empty when key is absent. */
    ghost function Cell(key: K): set<Holder<K, V>>
      reads this
    {
      if key in Map() then {Map()[key]} else {}
    }

    constructor (o: KeyOrder<K>)
      requires Ordering.Valid(o)
      ensures Valid() && this.o == o && Map() == map[]
    {
      this.o := o;
      store := [];
    }

    /** get: the holder under key, if any. */
    function Get(key: K): (r: Option<Holder<K, V>>)
      reads this
      ensures r == if key in Map() then Some(Map()[key]) else None
    {
      SortedMaps.Get(store, key)
    }

    /**
     * put(key, value): a present key keeps its holder, which takes the new
     * value; an absent key gets a new holder in state MANUAL.
     */
    method Put(key: K, value: Option<V>) returns (h: Holder<K, V>)
      requires Valid()
      modifies this, Cell(key)
      ensures Valid() && h.key == key && h.value == value
      ensures old(key in Map()) ==> h == old(Map()[key]) && Map() == old(Map())
      ensures old(key !in Map()) ==> fresh(h) && h.state == MANUAL && Map() == old(Map())[key := h]
    {
      var found := Get(key);
      if found.Some? {
        h := found.value;
        h.Set(value);
      } else {
        h := new Holder(key, value);
        h.SetExpiring(false);
        store := SortedMaps.Put(o, store, key, h);
      }
    }

    /** put(key, holder): the holder is stored under key, replacing any other. */
    method PutHolder(key: K, h: Holder<K, V>)
      requires Valid() && h.key == key
      modifies this
      ensures Valid() && Map() == old(Map())[key := h]
    {
      store := SortedMaps.Put(o, store, key, h);
    }

    /** remove: the holder under key, if any, is taken out and returned. */
    method Remove(key: K) returns (r: Option<Holder<K, V>>)
      requires Valid()
      modifies this
      ensures Valid() && Map() == old(Map()) - {key}
      ensures r == old(Get(key))
    {
      r := Get(key);
      store := SortedMaps.Remove(o, store, key);
    }

    /** size: the number of keys in the tier. */
    function Size(): (r: nat)
      reads this
      requires Valid()
      ensures r == |Map()|
    {
      SortedSize(o, store);
      |store|
    }

    /**
     * getAllWithPrefix: iterates tailMap(prefix, true) and stops at the first
     * key that prefix does not prefix; the holders collected are those of every
     * key prefix prefixes, in key order.
     */
    method GetAllWithPrefix(prefix: K) returns (all: seq<Holder<K, V>>)
      requires Valid()
      ensures all == Prefixed(prefix)
    {
      all := PrefixValues(o, store, prefix);
    }

    /** The holders of the keys prefix prefixes, in key order. */
    ghost function Prefixed(prefix: K): (hs: seq<Holder<K, V>>)
      reads this
      requires Valid()
      ensures |hs| == |Matching(o, store, prefix)|
      ensures forall i :: 0 <= i < |hs| ==> var k := Matching(o, store, prefix)[i].0;
        o.isPrefixOf(prefix, k) && k in Map() && hs[i] == Map()[k]
    {
      var run := Matching(o, store, prefix);
      forall t | 0 <= t < |run| ensures run[t].0 in Map() && Map()[run[t].0] == run[t].1 {
        var j :| 0 <= j < |store| && store[j] == run[t];
        AsMapAt(o, store, j);
      }
      Values(run)
    }
  }

  /** Ttl: the expiring tier, a TreeMap from key to a node of a TtlEngine that holds the holder. */
  class Ttl<K(==,!new), V> {
    const o: KeyOrder<K>
    var store: seq<(K, nat)>
    const engine: TtlEngine<Holder<K, V>>

    ghost predicate Valid()
      reads this, engine
    {
      && Ordering.Valid(o) && Sorted(o, store) && engine.Valid()
      && Indexes(AsMap(store), engine.ring, engine.values, KeyOf)
    }

    /** The engine node of each key. */
    ghost function Nodes(): map<K, nat>
      reads this
    {
      AsMap(store)
    }

    /** The holders of the tier by key. */
    ghost function Map(): map<K, Holder<K, V>>
      reads this, engine
    {
      View(AsMap(store), engine.values)
    }

    /** The state of the engine, with the node of each key. */
    ghost function State(): TierState<K>
      reads this, engine
    {
      TierState(engine.ring, engine.accessTime, Nodes())
    }

    /** Each holder of the tier carries the key it is stored under. */
    lemma MapKeys()
      requires Valid()
      ensures forall k :: k in Map() ==> Map()[k].key == k
    {
      forall k | k in Map() ensures Map()[k].key == k {
        IndexedKey(AsMap(store), engine.ring, engine.values, KeyOf, k);
      }
    }

    /** The holder under key, as a frame: empty when key is absent. */
    ghost function Cell(key: K): set<Holder<K, V>>
      reads this, engine
    {
      if key in Map() then {Map()[key]} else {}
    }

    constructor (o: KeyOrder<K>, ttl: int)
      requires Ordering.Valid(o)
      ensures Valid() && this.o == o && engine.ttl == ttl && Map() == map[]
      ensures fresh(engine)
    {
      this.o := o;
      store := [];
      engine := new TtlEngine(ttl);
      new;
      EmptyIndexes(engine.values, KeyOf);
    }

    /**
     * engine.expire with the handler of line 256: the engine sweeps its stale
     * tail run, and the key of each expired holder leaves the map. A key
     * stays exactly when its node stays in the ring, with the same holder.
     */
    method Expire(now: int)
      requires Valid()
      modifies this, engine
      ensures Valid()
      ensures engine.ring == old(engine.ring)[..Kept(old(engine.ring), old(engine.accessTime), now, engine.ttl)]
      ensures engine.values == old(engine.values) && engine.accessTime == old(engine.accessTime)
      ensures forall k :: k in Map() ==> k in old(Map()) && Map()[k] == old(Map()[k])
      ensures forall k :: k in old(Map()) ==> (k in Map() <==> old(Nodes()[k]) in engine.ring)
      ensures forall k :: k in Nodes() ==> k in old(Nodes()) && Nodes()[k] == old(Nodes()[k])
    {
      ghost var ring0, m0, n0 := engine.ring, Map(), Nodes();
      assert Distinct(ring0) && Indexes(AsMap(store), ring0, engine.values, KeyOf);
      var expired := engine.Expire(now);
      ghost var ring1 := engine.ring;
      assert Map() == m0 && Nodes() == n0;
      Forget(ring0, expired);
      assert engine.ring == ring1;
    }

    /**
     * The handler of line 256 applied to the values the engine expired:
     * ring0 is the ring before the sweep, which kept a prefix of it.
     */
    method Forget(ghost ring0: seq<nat>, expired: seq<Holder<K, V>>)
      requires Ordering.Valid(o) && Sorted(o, store) && engine.Valid()
      requires Indexes(AsMap(store), ring0, engine.values, KeyOf) && Distinct(ring0)
      requires Tail(expired, ring0, |engine.ring|, engine.values) && engine.ring == ring0[..|engine.ring|]
      modifies this
      ensures Valid()
      ensures forall k :: k in Map() ==> k in old(Map()) && Map()[k] == old(Map()[k])
      ensures forall k :: k in old(Map()) ==> (k in Map() <==> old(Nodes()[k]) in engine.ring)
      ensures forall k :: k in Nodes() ==> k in old(Nodes()) && Nodes()[k] == old(Nodes()[k])
    {
      ghost var M := AsMap(store);
      EvictKeepsIndexes(M, ring0, engine.values, KeyOf, |engine.ring|, expired);
      store := Evict(o, store, expired, KeyOf);
      RemoveView(M, engine.values, KeysOf(expired, KeyOf));
    }

    /**
     * get(key, peek): without peek, the tier is swept first and the node
     * found is touched; with peek, nothing changes. Either way the result is
     * the holder the tier then has under key.
     */
    method Get(key: K, peek: bool, now: int) returns (r: Option<Holder<K, V>>)
      requires Valid()
      modifies this, engine
      ensures Valid()
      ensures r == if key in Map() then Some(Map()[key]) else None
      ensures engine.values == old(engine.values)
      ensures forall k :: k in Map() ==> k in old(Map()) && Map()[k] == old(Map()[k])
      ensures peek ==> unchanged(this) && unchanged(engine)
      ensures !peek ==> forall k :: k in old(Map()) ==>
        (k in Map() <==> old(Nodes()[k]) in old(engine.ring)[..Kept(old(engine.ring), old(engine.accessTime), now, engine.ttl)])
      ensures !peek && r.Some? ==> engine.ring[0] == Nodes()[key] && engine.accessTime[Nodes()[key]] == now
      ensures forall k :: k in Nodes() ==> k in old(Nodes()) && Nodes()[k] == old(Nodes()[k])
      ensures engine.accessTime == if !peek && r.Some? then old(engine.accessTime)[Nodes()[key] := now] else old(engine.accessTime)
      ensures !peek ==> var swept := old(engine.ring)[..Kept(old(engine.ring), old(engine.accessTime), now, engine.ttl)];
        engine.ring == if r.Some? then [Nodes()[key]] + Without(swept, Nodes()[key]) else swept
    {
      if !peek {
        Expire(now);
      }
      var node := SortedMaps.Get(store, key);
      if node.None? {
        return None;
      }
      IndexedKey(AsMap(store), engine.ring, engine.values, KeyOf, key);
      if !peek {
        ghost var ring := engine.ring;
        engine.Touch(node.value, now);
        WithoutMembers(ring, node.value);
        ReorderKeepsIndexes(AsMap(store), ring, engine.ring, engine.values, KeyOf);
      }
      r := Some(engine.values[node.value]);
    }

    /**
     * put(key, value): a present key keeps its holder, which takes the new
     * value (and is not touched); an absent key gets a new EXPIRING holder
     * in a new node at the head of the ring.
     */
    method Put(key: K, value: Option<V>, now: int) returns (h: Holder<K, V>)
      requires Valid()
      modifies this, engine, Cell(key)
      ensures Valid() && h.key == key && h.value == value
      ensures old(key in Map()) ==> h == old(Map()[key]) && Map() == old(Map()) && State() == old(State())
      ensures old(key !in Map()) ==> fresh(h) && h.state == EXPIRING && Map() == old(Map())[key := h]
      ensures old(key !in Map()) ==> State() == Entered(old(State()), key, now)
    {
      var node := SortedMaps.Get(store, key);
      if node.Some? {
        IndexedKey(AsMap(store), engine.ring, engine.values, KeyOf, key);
        h := engine.values[node.value];
        h.Set(value);
      } else {
        h := new Holder(key, value);
        h.SetExpiring(true);
        PutHolder(key, h, now);
      }
    }

    /**
     * put(key, holder): the holder goes into a new node at the head of the
     * ring, stored under key. The key must be absent: on a present key the
     * old node would stay in the ring with no key naming it.
     */
    method PutHolder(key: K, h: Holder<K, V>, now: int)
      requires Valid() && h.key == key && key !in Map()
      modifies this, engine
      ensures Valid() && Map() == old(Map())[key := h]
      ensures State() == Entered(old(State()), key, now)
    {
      AddKeepsIndexes(AsMap(store), engine.ring, engine.values, KeyOf, h);
      AddView(AsMap(store), engine.values, key, h);
      var node := engine.Add(h, now);
      store := SortedMaps.Put(o, store, key, node);
    }

    /** remove: the key leaves the map and its node leaves the ring; its holder is returned. */
    method Remove(key: K) returns (r: Option<Holder<K, V>>)
      requires Valid()
      modifies this, engine
      ensures Valid() && Map() == old(Map()) - {key}
      ensures r == if key in old(Map()) then Some(old(Map()[key])) else None
      ensures key in old(Nodes()) ==> engine.ring == Without(old(engine.ring), old(Nodes()[key]))
      ensures key !in old(Nodes()) ==> engine.ring == old(engine.ring)
      ensures State() == Left(old(State()), key)
    {
      var node := SortedMaps.Get(store, key);
      if node.None? {
        return None;
      }
      IndexedKey(AsMap(store), engine.ring, engine.values, KeyOf, key);
      RemoveKeepsIndexes(AsMap(store), engine.ring, engine.values, KeyOf, key);
      RemoveView(AsMap(store), engine.values, {key});
      store := SortedMaps.Remove(o, store, key);
      engine.Remove(node.value);
      r := Some(engine.values[node.value]);
    }

    /** size: the number of keys in the tier. */
    function Size(): (r: nat)
      reads this, engine
      requires Valid()
      ensures r == |Map()|
    {
      SortedSize(o, store);
      |store|
    }

    /**
     * getAllWithPrefix: the tier is swept, then tailMap(prefix, true) is
     * scanned up to the first key that prefix does not prefix, and the node
     * of each entry scanned is touched and its holder collected. The holders
     * returned are those of every key left that prefix prefixes, in key
     * order, and each of their nodes is stamped now.
     */
    method GetAllWithPrefix(prefix: K, now: int) returns (all: seq<Holder<K, V>>)
      requires Valid()
      modifies this, engine
      ensures Valid() && engine.values == old(engine.values)
      ensures forall k :: k in Map() ==> k in old(Map()) && Map()[k] == old(Map()[k])
      ensures forall k :: k in old(Map()) ==>
        (k in Map() <==> old(Nodes()[k]) in old(engine.ring)[..Kept(old(engine.ring), old(engine.accessTime), now, engine.ttl)])
      ensures all == Prefixed(prefix)
      ensures forall i :: 0 <= i < |Matching(o, store, prefix)| ==> engine.accessTime[Nodes()[Matching(o, store, prefix)[i].0]] == now
      ensures forall k :: k in Nodes() ==> k in old(Nodes()) && Nodes()[k] == old(Nodes()[k])
      ensures engine.ring == TouchedRing(old(engine.ring)[..Kept(old(engine.ring), old(engine.accessTime), now, engine.ttl)], Values(Matching(o, store, prefix)))
      ensures |engine.accessTime| == |old(engine.accessTime)|
      ensures forall n :: 0 <= n < |engine.accessTime| && n !in Values(Matching(o, store, prefix)) ==> engine.accessTime[n] == old(engine.accessTime)[n]
    {
      Expire(now);
      all := Collect(prefix, now);
    }

    /** The holders of the keys prefix prefixes, in key order. */
    ghost function Prefixed(prefix: K): (hs: seq<Holder<K, V>>)
      reads this, engine
      requires Valid()
      ensures |hs| == |Matching(o, store, prefix)|
      ensures forall i :: 0 <= i < |hs| ==> var k := Matching(o, store, prefix)[i].0;
        o.isPrefixOf(prefix, k) && k in Map() && hs[i] == Map()[k]
    {
      RunIndexed(prefix);
      var run, m := Matching(o, store, prefix), Map();
      seq(|run|, i requires 0 <= i < |run| && run[i].0 in m => m[run[i].0])
    }

    /** getAllWithPrefix, lines 311-321, on the swept tier: the map does not change. */
    method Collect(prefix: K, now: int) returns (all: seq<Holder<K, V>>)
      requires Valid()
      modifies engine
      ensures Valid() && engine.values == old(engine.values)
      ensures all == Prefixed(prefix)
      ensures forall i :: 0 <= i < |Matching(o, store, prefix)| ==> engine.accessTime[Nodes()[Matching(o, store, prefix)[i].0]] == now
      ensures engine.ring == TouchedRing(old(engine.ring), Values(Matching(o, store, prefix)))
      ensures |engine.accessTime| == |old(engine.accessTime)|
      ensures forall n :: 0 <= n < |engine.accessTime| && n !in Values(Matching(o, store, prefix)) ==> engine.accessTime[n] == old(engine.accessTime)[n]
    {
      var nodes := Scan(prefix);
      RunIndexed(prefix);
      all := TouchAll(nodes, now);
    }

    /**
     * The scan of tailMap(prefix, true) up to the first key that prefix
     * does not prefix: the nodes of exactly the keys prefix prefixes, in key
     * order, each in the ring.
     */
    function Scan(prefix: K): (nodes: seq<nat>)
      reads this, engine
      requires Valid()
      ensures |nodes| == |Matching(o, store, prefix)|
      ensures forall t :: 0 <= t < |nodes| ==> var k := Matching(o, store, prefix)[t].0;
        k in Nodes() && nodes[t] == Nodes()[k] && nodes[t] in engine.ring && k in Map() && engine.values[nodes[t]] == Map()[k]
    {
      RunIndexed(prefix);
      Values(TakeWhilePrefixed(o, store[LowerBound(o, store, prefix)..], prefix))
    }

    /** The nodes of the keys prefix prefixes are in the ring and hold the holders of those keys. */
    lemma RunIndexed(prefix: K)
      requires Valid()
      ensures var run := Matching(o, store, prefix);
        && TakeWhilePrefixed(o, store[LowerBound(o, store, prefix)..], prefix) == run
        && (forall t :: 0 <= t < |run| ==> run[t].0 in Nodes() && Nodes()[run[t].0] == run[t].1)
        && (forall t :: 0 <= t < |run| ==> run[t].1 in engine.ring && run[t].0 in Map() && engine.values[run[t].1] == Map()[run[t].0])
    {
      var run := Matching(o, store, prefix);
      PrefixScanIsMatching(o, store, prefix);
      forall t | 0 <= t < |run| ensures run[t].0 in Nodes() && Nodes()[run[t].0] == run[t].1 {
        var j :| 0 <= j < |store| && store[j] == run[t];
        AsMapAt(o, store, j);
      }
    }

    /** The loop of lines 313-321: each node is touched in turn and its holder collected. */
    method TouchAll(nodes: seq<nat>, now: int) returns (all: seq<Holder<K, V>>)
      requires Valid() && forall j :: 0 <= j < |nodes| ==> nodes[j] in engine.ring
      modifies engine
      ensures Valid() && engine.values == old(engine.values)
      ensures |all| == |nodes|
      ensures forall j :: 0 <= j < |nodes| ==> all[j] == engine.values[nodes[j]] && engine.accessTime[nodes[j]] == now
      ensures engine.ring == TouchedRing(old(engine.ring), nodes)
      ensures engine.accessTime == Stamped(old(engine.accessTime), nodes, now)
      ensures |engine.accessTime| == |old(engine.accessTime)|
      ensures forall n :: 0 <= n < |engine.accessTime| && n !in nodes ==> engine.accessTime[n] == old(engine.accessTime)[n]
    {
      ghost var ring0, time0 := engine.ring, engine.accessTime;
      var i := 0;
      all := [];
      while i < |nodes|
        invariant Collected(nodes, i, now, ring0, time0, all)
        invariant engine.values == old(engine.values)
      {
        all := TouchNext(nodes, i, now, ring0, time0, all);
        i := i + 1;
      }
      assert nodes[..i] == nodes;
      StampedAt(time0, nodes, now);
    }

    /**
     * The state after the first i turns of the loop of lines 313-321, which
     * started from ring0 and time0: the first i nodes are touched, in turn,
     * and all holds their holders.
     */
    ghost predicate Collected(nodes: seq<nat>, i: int, now: int, ring0: seq<nat>, time0: seq<int>, all: seq<Holder<K, V>>)
      reads this, engine
    {
      && Valid() && 0 <= i <= |nodes|
      && (forall j :: 0 <= j < |nodes| ==> nodes[j] in ring0 && nodes[j] < |engine.values|)
      && all == Gather(engine.values, nodes[..i])
      && engine.ring == TouchedRing(ring0, nodes[..i]) && engine.accessTime == Stamped(time0, nodes[..i], now)
    }

    /** One turn of the loop of lines 313-321: the next node is touched and its holder collected. */
    method TouchNext(nodes: seq<nat>, i: int, now: int, ghost ring0: seq<nat>, ghost time0: seq<int>, all: seq<Holder<K, V>>)
      returns (all': seq<Holder<K, V>>)
      requires Collected(nodes, i, now, ring0, time0, all) && i < |nodes|
      modifies engine
      ensures Collected(nodes, i + 1, now, ring0, time0, all') && engine.values == old(engine.values)
    {
      TouchedRingKeeps(ring0, nodes[..i], nodes[i]);
      TouchNode(nodes[i], now);
      TouchedRingStep(ring0, nodes, i);
      StampedStep(time0, nodes, i, now);
      GatherStep(engine.values, nodes, i);
      all' := all + [engine.values[nodes[i]]];
    }

    /** touch on a node of the ring: it is stamped now, and the map still agrees with the ring. */
    method TouchNode(node: nat, now: int)
      requires Valid() && node in engine.ring
      modifies engine
      ensures Valid() && engine.values == old(engine.values)
      ensures engine.accessTime == old(engine.accessTime)[node := now]
      ensures engine.ring == [node] + Without(old(engine.ring), node)
    {
      ghost var ring := engine.ring;
      engine.Touch(node, now);
      WithoutMembers(ring, node);
      ReorderKeepsIndexes(AsMap(store), ring, engine.ring, engine.values, KeyOf);
    }
  }
}
