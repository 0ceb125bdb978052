/**
 * The prefix indexes of Cache.java (ManualPrefix and TtlPrefix): sets of keys
 * that record which key ranges are known. An index keeps no two entries in a
 * prefix relation; add(key) is refused when a stored key already prefixes
 * key, and otherwise the entries key prefixes give way to key. exists(key)
 * asks whether some stored key prefixes key, by looking at the greatest
 * stored key not above key (the floor entry).
 */
module Prefixes {
  import opened Wrappers
  import opened Ordering
  import opened SortedMaps
  import opened TtlEngines
  import opened TtlIndexes

  /** a is b or is not a prefix of it. */
  ghost predicate Unrelated<K>(o: KeyOrder<K>, a: K, b: K) {
    a == b || !o.isPrefixOf(a, b)
  }

  /** No key of s is a prefix of another key of s. The pairwise law is only instantiated through Subsumed. */
  ghost predicate Antichain<K>(o: KeyOrder<K>, s: set<K>) {
    forall a, b {:trigger Unrelated(o, a, b)} :: a in s && b in s ==> Unrelated(o, a, b)
  }

  lemma Subsumed<K>(o: KeyOrder<K>, s: set<K>, a: K, b: K)
    requires Antichain(o, s) && a in s && b in s && o.isPrefixOf(a, b)
    ensures a == b
  {
    assert Unrelated(o, a, b);
  }

  /** Some key of s is a prefix of key. */
  ghost predicate Covered<K>(o: KeyOrder<K>, s: set<K>, key: K) {
    exists p :: p in s && o.isPrefixOf(p, key)
  }

  /** The keys of s that key is not a prefix of: what add(key) keeps. */
  ghost function Outside<K>(o: KeyOrder<K>, s: set<K>, key: K): set<K> {
    set k | k in s && !o.isPrefixOf(key, k)
  }

  /** A set with fewer keys keeps the antichain. */
  lemma AntichainSubset<K>(o: KeyOrder<K>, s: set<K>, t: set<K>)
    requires Antichain(o, s) && t <= s
    ensures Antichain(o, t)
  {
    forall a, b | a in t && b in t ensures Unrelated(o, a, b) {
      assert Unrelated(o, a, b);
    }
  }

  /**
   * add keeps the antichain: when no key of s prefixes key, the keys that
   * key does not prefix, together with key, are free of prefix relations.
   */
  lemma AddKeepsAntichain<K>(o: KeyOrder<K>, s: set<K>, key: K)
    requires Antichain(o, s) && !Covered(o, s, key)
    ensures Antichain(o, Outside(o, s, key) + {key})
  {
    var t := Outside(o, s, key) + {key};
    forall a, b | a in t && b in t ensures Unrelated(o, a, b) {
      if a in s && b in s {
        assert Unrelated(o, a, b);
      }
    }
  }

  /**
   * What add(key) does to coverage: a key is covered afterwards exactly
   * when it was covered before or key is a prefix of it. Nothing that was
   * covered stops being covered.
   */
  lemma {:induction false} AddCoverage<K(!new)>(o: KeyOrder<K>, s: set<K>, key: K, x: K)
    requires Ordering.Valid(o)
    ensures Covered(o, Outside(o, s, key) + {key}, x) <==> Covered(o, s, x) || o.isPrefixOf(key, x)
  {
    var t := Outside(o, s, key) + {key};
    if Covered(o, s, x) {
      var p :| p in s && o.isPrefixOf(p, x);
      if p !in t {
        PrefixTransitive(o, key, p, x);
      }
      assert Covered(o, t, x) by {
        if p in t { assert p in t && o.isPrefixOf(p, x); }
        else { assert key in t && o.isPrefixOf(key, x); }
      }
    }
    if o.isPrefixOf(key, x) {
      assert key in t;
    }
    if Covered(o, t, x) {
      var p :| p in t && o.isPrefixOf(p, x);
      if p != key {
        assert p in s;
      }
    }
  }

  /**
   * The floor lookup of exists(key): headMap(key, true) is the first
   * UpperBound entries; when it is not empty and its last key is a prefix
   * of key, that entry is the answer. On a sorted antichain the floor entry
   * answers exactly when some stored key prefixes key.
   */
  function Floor<K(!new), V>(o: KeyOrder<K>, m: seq<(K, V)>, key: K): (r: Option<(K, V)>)
    ensures r.Some? ==> r.value in m && o.isPrefixOf(r.value.0, key)
    ensures Ordering.Valid(o) && Sorted(o, m) && Antichain(o, AsMap(m).Keys) ==>
      (r.Some? <==> Covered(o, AsMap(m).Keys, key))
  {
    FloorCovers(o, m, key);
    var ub := UpperBound(o, m, key);
    if ub == 0 then None
    else if o.isPrefixOf(m[ub - 1].0, key) then Some(m[ub - 1])
    else None
  }

  lemma FloorCovers<K(!new), V>(o: KeyOrder<K>, m: seq<(K, V)>, key: K)
    ensures var ub := UpperBound(o, m, key);
      Ordering.Valid(o) && Sorted(o, m) && Antichain(o, AsMap(m).Keys) ==>
      (ub > 0 && o.isPrefixOf(m[ub - 1].0, key) <==> Covered(o, AsMap(m).Keys, key))
  {
    var ub := UpperBound(o, m, key);
    if Ordering.Valid(o) && Sorted(o, m) && Antichain(o, AsMap(m).Keys) {
      if ub > 0 && o.isPrefixOf(m[ub - 1].0, key) {
        AsMapKeys(m, m[ub - 1].0);
      }
      if Covered(o, AsMap(m).Keys, key) {
        var p :| p in AsMap(m).Keys && o.isPrefixOf(p, key);
        FloorOfCover(o, m, key, p);
      }
    }
  }

  /** A stored key p that prefixes key is the floor entry of key. */
  lemma FloorOfCover<K(!new), V>(o: KeyOrder<K>, m: seq<(K, V)>, key: K, p: K)
    requires Ordering.Valid(o) && Sorted(o, m) && Antichain(o, AsMap(m).Keys)
    requires p in AsMap(m) && o.isPrefixOf(p, key)
    ensures UpperBound(o, m, key) > 0 && m[UpperBound(o, m, key) - 1].0 == p
  {
    var ub := UpperBound(o, m, key);
    AsMapKeys(m, p);
    var i :| 0 <= i < |m| && m[i].0 == p;
    if i > ub {
      Before(o, m, ub, i);
      Transitive(o, key, m[ub].0, p);
    }
    assert i < ub;
    var f := m[ub - 1].0;
    if i < ub - 1 {
      Before(o, m, i, ub - 1);
    }
    Contiguous(o, p, f, key);
    AsMapKeys(m, f);
    Subsumed(o, AsMap(m).Keys, p, f);
  }

  /**
   * The list after the loop of add: the leading run of tailSet(key, true)
   * that key prefixes, n entries from the lower bound lb, has been taken
   * out. Its keys are the stored keys that key does not prefix.
   */
  lemma CutKeys<K(!new), V>(o: KeyOrder<K>, m: seq<(K, V)>, key: K, lb: nat, n: nat)
    requires Ordering.Valid(o) && Sorted(o, m) && lb == LowerBound(o, m, key) && lb + n <= |m|
    requires forall j :: lb <= j < lb + n ==> o.isPrefixOf(key, m[j].0)
    requires lb + n < |m| ==> !o.isPrefixOf(key, m[lb + n].0)
    ensures AsMap(m[..lb] + m[lb + n..]).Keys == Outside(o, AsMap(m).Keys, key)
  {
    var c := m[..lb] + m[lb + n..];
    forall i | 0 <= i < |m| ensures o.isPrefixOf(key, m[i].0) <==> lb <= i < lb + n {
      CutIndex(o, m, key, lb, n, i);
    }
    forall x ensures x in AsMap(c) <==> x in AsMap(m) && !o.isPrefixOf(key, x) {
      CutKey(o, m, key, lb, n, x);
    }
  }

  /** The run the loop of add cuts is the scan of tailMap(key, true) up to the first key that key does not prefix. */
  lemma CutRun<K, V>(o: KeyOrder<K>, m: seq<(K, V)>, key: K, lb: nat, n: nat)
    requires lb + n <= |m|
    requires forall j :: lb <= j < lb + n ==> o.isPrefixOf(key, m[j].0)
    requires lb + n < |m| ==> !o.isPrefixOf(key, m[lb + n].0)
    ensures Values(TakeWhilePrefixed(o, m[lb..], key)) == Values(m[lb..lb + n])
  {
    TakeWhileEndsAt(o, m[lb..], key, n);
    assert m[lb..][..n] == m[lb..lb + n];
  }

  /**
   * One turn of the loop of add on the lists: s is s0 with the n entries
   * from lb cut, and ring is ring0 without their nodes; cutting the entry
   * at lb as well cuts n + 1 entries of s0 and their nodes.
   */
  lemma CutOne<K>(o: KeyOrder<K>, key: K, s0: seq<(K, nat)>, s: seq<(K, nat)>, lb: nat, n: nat, ring0: seq<nat>, ring: seq<nat>)
    requires lb + n <= |s0| && s == s0[..lb] + s0[lb + n..] && lb < |s| && o.isPrefixOf(key, s[lb].0)
    requires forall j :: lb <= j < lb + n ==> o.isPrefixOf(key, s0[j].0)
    requires ring == WithoutAll(ring0, Values(s0[lb..lb + n]))
    ensures RemoveAt(s, lb) == s0[..lb] + s0[lb + n + 1..]
    ensures forall j :: lb <= j < lb + n + 1 ==> o.isPrefixOf(key, s0[j].0)
    ensures Without(ring, s[lb].1) == WithoutAll(ring0, Values(s0[lb..lb + n + 1]))
  {
    CutStep(s0, s, lb, n);
    assert s0[lb..lb + n + 1] == s0[lb..lb + n] + [s[lb]];
    WithoutAllStep(ring0, Values(s0[lb..lb + n]), s[lb].1);
    assert Values(s0[lb..lb + n + 1]) == Values(s0[lb..lb + n]) + [s[lb].1];
    assert RemoveAt(s, lb) == s[..lb] + s[lb + 1..];
  }

  /** One key at a time: x survives the cut exactly when it is stored and key does not prefix it. */
  lemma CutKey<K, V>(o: KeyOrder<K>, m: seq<(K, V)>, key: K, lb: nat, n: nat, x: K)
    requires lb + n <= |m|
    requires forall i :: 0 <= i < |m| ==> (o.isPrefixOf(key, m[i].0) <==> lb <= i < lb + n)
    ensures x in AsMap(m[..lb] + m[lb + n..]) <==> x in AsMap(m) && !o.isPrefixOf(key, x)
  {
    AsMapKeys(m[..lb] + m[lb + n..], x);
    AsMapKeys(m, x);
    if x in AsMap(m[..lb] + m[lb + n..]) {
      CutKeyKept(o, m, m[..lb] + m[lb + n..], key, lb, n, x);
    }
    if x in AsMap(m) && !o.isPrefixOf(key, x) {
      CutKeyFound(o, m, m[..lb] + m[lb + n..], key, lb, n, x);
    }
  }

  lemma CutKeyKept<K, V>(o: KeyOrder<K>, m: seq<(K, V)>, c: seq<(K, V)>, key: K, lb: nat, n: nat, x: K)
    requires lb + n <= |m| && c == m[..lb] + m[lb + n..]
    requires forall i :: 0 <= i < |m| ==> (o.isPrefixOf(key, m[i].0) <==> lb <= i < lb + n)
    requires exists i :: 0 <= i < |c| && c[i].0 == x
    ensures (exists i :: 0 <= i < |m| && m[i].0 == x) && !o.isPrefixOf(key, x)
  {
    var i :| 0 <= i < |c| && c[i].0 == x;
    var i' := if i < lb then i else i + n;
    assert c[i] == m[i'];
  }

  lemma CutKeyFound<K, V>(o: KeyOrder<K>, m: seq<(K, V)>, c: seq<(K, V)>, key: K, lb: nat, n: nat, x: K)
    requires lb + n <= |m| && c == m[..lb] + m[lb + n..]
    requires forall i :: 0 <= i < |m| ==> (o.isPrefixOf(key, m[i].0) <==> lb <= i < lb + n)
    requires (exists i :: 0 <= i < |m| && m[i].0 == x) && !o.isPrefixOf(key, x)
    ensures exists i :: 0 <= i < |c| && c[i].0 == x
  {
    var i :| 0 <= i < |m| && m[i].0 == x;
    var i' := if i < lb then i else i - n;
    assert c[i'] == m[i];
  }

  /** One step of the loop of add: the entry at lb is the next entry of the run, and removing it cuts one more. */
  lemma CutStep<E>(s0: seq<E>, s: seq<E>, lb: nat, n: nat)
    requires lb + n <= |s0| && s == s0[..lb] + s0[lb + n..] && lb < |s|
    ensures s[lb] == s0[lb + n] && s[..lb] + s[lb + 1..] == s0[..lb] + s0[lb + n + 1..]
  {
    assert s[..lb] == s0[..lb];
    assert s[lb + 1..] == s0[lb + n + 1..];
  }

  /** In a sorted list, key prefixes exactly the entries of the run after its lower bound. */
  lemma CutIndex<K(!new), V>(o: KeyOrder<K>, m: seq<(K, V)>, key: K, lb: nat, n: nat, i: nat)
    requires Ordering.Valid(o) && Sorted(o, m) && lb == LowerBound(o, m, key) && lb + n <= |m|
    requires forall j :: lb <= j < lb + n ==> o.isPrefixOf(key, m[j].0)
    requires lb + n < |m| ==> !o.isPrefixOf(key, m[lb + n].0)
    requires i < |m|
    ensures o.isPrefixOf(key, m[i].0) <==> lb <= i < lb + n
  {
    if i > lb + n && o.isPrefixOf(key, m[i].0) {
      var b := m[lb + n].0;
      NotBelowAfterLowerBound(o, m, key);
      assert b != key;
      Before(o, m, lb + n, i);
      Contiguous(o, key, b, m[i].0);
    }
  }

  /** ManualPrefix: a TreeSet of keys (a sorted list of keys with no payload). */
  class ManualPrefix<K(==,!new)> {
    const o: KeyOrder<K>
    var store: seq<(K, ())>

    ghost predicate Valid()
      reads this
    {
      Ordering.Valid(o) && Sorted(o, store) && Antichain(o, Keys())
    }

    /** The keys of the set. */
    ghost function Keys(): set<K>
      reads this
    {
      AsMap(store).Keys
    }

    constructor (o: KeyOrder<K>)
      requires Ordering.Valid(o)
      ensures Valid() && this.o == o && Keys() == {}
    {
      this.o := o;
      store := [];
    }

    /** exists: the floor entry of key is a prefix of key. This index never touches. */
    function Exists(key: K, touch: bool): (r: bool)
      reads this
      requires Valid()
      ensures r <==> Covered(o, Keys(), key)
    {
      Floor(o, store, key).Some?
    }

    /**
     * add: refused, with no change, when a stored key prefixes key;
     * otherwise every stored key that key prefixes is removed and key is
     * inserted.
     */
    method Add(key: K) returns (added: bool)
      requires Valid()
      modifies this
      ensures Valid()
      ensures added <==> !old(Covered(o, Keys(), key))
      ensures Keys() == if added then Outside(o, old(Keys()), key) + {key} else old(Keys())
    {
      if Exists(key, false) {
        return false;
      }
      ghost var s := Keys();
      CutPrefixed(key);
      AddKeepsAntichain(o, s, key);
      store := SortedMaps.Put(o, store, key, ());
      added := true;
    }

    /** The loop of add: iterating tailSet(key, true), each entry key prefixes is removed, up to the first it does not. */
    method CutPrefixed(key: K)
      requires Valid()
      modifies this
      ensures Valid() && Keys() == Outside(o, old(Keys()), key)
    {
      var lb := LowerBound(o, store, key);
      ghost var s0 := store;
      ghost var n := 0;
      while lb < |store| && o.isPrefixOf(key, store[lb].0)
        invariant Sorted(o, store) && lb + n <= |s0|
        invariant store == s0[..lb] + s0[lb + n..]
        invariant forall j :: lb <= j < lb + n ==> o.isPrefixOf(key, s0[j].0)
        decreases |store|
      {
        CutStep(s0, store, lb, n);
        RemoveAtSorted(o, store, lb);
        store := RemoveAt(store, lb);
        n := n + 1;
      }
      assert lb + n < |s0| ==> s0[lb + n] == store[lb];
      CutKeys(o, s0, key, lb, n);
      AntichainSubset(o, AsMap(s0).Keys, Keys());
    }

    /** size: the number of keys. */
    function Size(): (r: nat)
      reads this
      requires Valid()
      ensures r == |Keys()|
    {
      SortedSize(o, store);
      |store|
    }
  }

  /** The engine of a TtlPrefix holds the keys themselves. */
  function Id<K>(k: K): (r: K)
    ensures r == k
  {
    k
  }

  /**
   * TtlPrefix: a TreeMap from key to a node of a TtlEngine that holds the
   * key; its expire handler removes the expired key from the map.
   */
  class TtlPrefix<K(==,!new)> {
    const o: KeyOrder<K>
    var store: seq<(K, nat)>
    const engine: TtlEngine<K>

    ghost predicate Valid()
      reads this, engine
    {
      && Ordering.Valid(o) && Sorted(o, store) && engine.Valid()
      && Indexes(AsMap(store), engine.ring, engine.values, Id) && Antichain(o, Keys())
    }

    /** The keys of the index. */
    ghost function Keys(): set<K>
      reads this
    {
      AsMap(store).Keys
    }

    /** The engine node of each key. */
    ghost function Nodes(): map<K, nat>
      reads this
    {
      AsMap(store)
    }

    /** The state of the engine, with the node of each key. */
    ghost function State(): TierState<K>
      reads this, engine
    {
      TierState(engine.ring, engine.accessTime, Nodes())
    }

    /** The keys whose node a sweep at now keeps. */
    ghost function Live(now: int): set<K>
      reads this, engine
      requires Valid()
    {
      set k | k in Nodes() && Nodes()[k] in engine.ring[..Kept(engine.ring, engine.accessTime, now, engine.ttl)]
    }

    constructor (o: KeyOrder<K>, ttl: int)
      requires Ordering.Valid(o)
      ensures Valid() && this.o == o && engine.ttl == ttl && Keys() == {}
    {
      this.o := o;
      store := [];
      engine := new TtlEngine(ttl);
      new;
      EmptyIndexes(engine.values, Id);
    }

    /** engine.expire with the handler store::remove: exactly the keys whose node is stale leave. */
    method Expire(now: int)
      requires Valid()
      modifies this, engine
      ensures Valid() && Keys() == old(Live(now))
      ensures engine.ring == old(engine.ring)[..Kept(old(engine.ring), old(engine.accessTime), now, engine.ttl)]
      ensures engine.values == old(engine.values) && engine.accessTime == old(engine.accessTime)
      ensures forall k :: k in Nodes() ==> k in old(Nodes()) && Nodes()[k] == old(Nodes()[k])
    {
      var expired := engine.Expire(now);
      Forget(old(engine.ring), expired);
    }

    /** The handler applied to the keys the engine expired; ring0 is the ring before the sweep. */
    method Forget(ghost ring0: seq<nat>, expired: seq<K>)
      requires Ordering.Valid(o) && Sorted(o, store) && engine.Valid() && Antichain(o, Keys())
      requires Indexes(AsMap(store), ring0, engine.values, Id) && Distinct(ring0)
      requires Tail(expired, ring0, |engine.ring|, engine.values) && engine.ring == ring0[..|engine.ring|]
      modifies this
      ensures Valid()
      ensures Keys() == set k | k in old(Nodes()) && old(Nodes())[k] in engine.ring
      ensures forall k :: k in Nodes() ==> k in old(Nodes()) && Nodes()[k] == old(Nodes()[k])
    {
      ghost var M := AsMap(store);
      EvictKeepsIndexes(M, ring0, engine.values, Id, |engine.ring|, expired);
      store := Evict(o, store, expired, Id);
      AntichainSubset(o, M.Keys, Keys());
    }

    /**
     * exists: the index is swept, then the floor entry of key answers; only
     * when touch is set is the covering key's node touched.
     */
    method Exists(key: K, touch: bool, now: int) returns (r: bool)
      requires Valid()
      modifies this, engine
      ensures Valid() && Keys() == old(Live(now)) && engine.values == old(engine.values)
      ensures r <==> Covered(o, Keys(), key)
      ensures !(r && touch) ==>
        engine.ring == old(engine.ring)[..Kept(old(engine.ring), old(engine.accessTime), now, engine.ttl)]
        && engine.accessTime == old(engine.accessTime)
      ensures r && touch ==> exists p :: (p in Nodes() && o.isPrefixOf(p, key)
        && engine.ring == [Nodes()[p]] + Without(old(engine.ring)[..Kept(old(engine.ring), old(engine.accessTime), now, engine.ttl)], Nodes()[p])
        && engine.accessTime == old(engine.accessTime)[Nodes()[p] := now])
    {
      Expire(now);
      r := Lookup(key, touch, now);
    }

    /** The floor lookup of exists on the swept index, touching the covering key's node when asked to. */
    method Lookup(key: K, touch: bool, now: int) returns (r: bool)
      requires Valid()
      modifies engine
      ensures Valid() && engine.values == old(engine.values)
      ensures r <==> Covered(o, Keys(), key)
      ensures !(r && touch) ==> unchanged(engine)
      ensures r && touch ==> exists p :: (p in Nodes() && o.isPrefixOf(p, key)
        && engine.ring == [Nodes()[p]] + Without(old(engine.ring), Nodes()[p])
        && engine.accessTime == old(engine.accessTime)[Nodes()[p] := now])
    {
      var f := Floor(o, store, key);
      r := f.Some?;
      if r && touch {
        AsMapAt(o, store, UpperBound(o, store, key) - 1);
        TouchNode(f.value.1, now);
      }
    }

    /** touch on a node of the ring: it is stamped now and moved to the head. */
    method TouchNode(node: nat, now: int)
      requires Valid() && node in AsMap(store).Values
      modifies engine
      ensures Valid() && engine.values == old(engine.values)
      ensures engine.accessTime == old(engine.accessTime)[node := now]
      ensures engine.ring == [node] + Without(old(engine.ring), node)
    {
      ghost var ring := engine.ring;
      engine.Touch(node, now);
      WithoutMembers(ring, node);
      ReorderKeepsIndexes(AsMap(store), ring, engine.ring, engine.values, Id);
    }

    /**
     * add: the index is swept; add is refused, with no further change, when
     * a live key prefixes key; otherwise every live key that key prefixes
     * is removed with its node, and key gets a new node at the head.
     */
    method Add(key: K, now: int) returns (added: bool)
      requires Valid()
      modifies this, engine
      ensures Valid()
      ensures added <==> !Covered(o, old(Live(now)), key)
      ensures Keys() == if added then Outside(o, old(Live(now)), key) + {key} else old(Live(now))
      ensures added ==> engine.ring[0] == Nodes()[key] && engine.accessTime[Nodes()[key]] == now
      ensures !added ==> engine.ring == old(engine.ring)[..Kept(old(engine.ring), old(engine.accessTime), now, engine.ttl)]
      ensures !added ==> engine.accessTime == old(engine.accessTime)
      ensures added ==> engine.accessTime == old(engine.accessTime) + [now] && Nodes()[key] == |old(engine.accessTime)|
      ensures forall k :: k in Nodes() && (k != key || !added) ==> k in old(Nodes()) && Nodes()[k] == old(Nodes()[k])
    {
      var covered := Exists(key, false, now);
      if covered {
        return false;
      }
      ghost var s := Keys();
      CutPrefixed(key);
      Insert(key, now);
      AddKeepsAntichain(o, s, key);
      added := true;
    }

    /** store.put(key, engine.add(key)) on a key the index does not hold. */
    method Insert(key: K, now: int)
      requires Ordering.Valid(o) && Sorted(o, store) && engine.Valid() && Indexes(AsMap(store), engine.ring, engine.values, Id)
      requires key !in Keys()
      modifies this, engine
      ensures Sorted(o, store) && engine.Valid() && Indexes(AsMap(store), engine.ring, engine.values, Id)
      ensures Keys() == old(Keys()) + {key}
      ensures engine.ring[0] == Nodes()[key] && engine.accessTime[Nodes()[key]] == now
      ensures State() == Entered(old(State()), key, now)
    {
      AddKeepsIndexes(AsMap(store), engine.ring, engine.values, Id, key);
      var node := engine.Add(key, now);
      store := SortedMaps.Put(o, store, key, node);
    }

    /**
     * The loop of add: iterating tailMap(key, true), each entry key
     * prefixes has its node removed from the engine and is removed itself,
     * up to the first entry key does not prefix.
     */
    method CutPrefixed(key: K)
      requires Valid()
      modifies this, engine
      ensures Valid() && Keys() == Outside(o, old(Keys()), key)
      ensures engine.ring == WithoutAll(old(engine.ring), Values(TakeWhilePrefixed(o, old(store)[LowerBound(o, old(store), key)..], key)))
      ensures engine.accessTime == old(engine.accessTime) && engine.values == old(engine.values)
      ensures forall k :: k in Nodes() ==> k in old(Nodes()) && Nodes()[k] == old(Nodes()[k])
    {
      var lb := LowerBound(o, store, key);
      ghost var s0, ring0, nodes0 := store, engine.ring, Nodes();
      ghost var n := 0;
      ghost var cut: set<K> := {};
      assert Values(s0[lb..lb]) == [] && Nodes() == nodes0 - cut;
      while lb < |store| && o.isPrefixOf(key, store[lb].0)
        invariant Cutting(key, s0, ring0, nodes0, lb, n, cut)
        invariant engine.accessTime == old(engine.accessTime) && engine.values == old(engine.values)
        decreases |store|
      {
        ghost var k := store[lb].0;
        CutNext(key, s0, ring0, nodes0, lb, n, cut);
        cut := cut + {k};
        n := n + 1;
      }
      assert lb + n < |s0| ==> s0[lb + n] == store[lb];
      CutKeys(o, s0, key, lb, n);
      CutRun(o, s0, key, lb, n);
    }

    /**
     * The loop of add after cutting the n entries of s0 from lb, each one
     * that key prefixes: the ring is ring0 without their nodes, and the
     * map is nodes0 without their keys (cut).
     */
    ghost predicate Cutting(key: K, s0: seq<(K, nat)>, ring0: seq<nat>, nodes0: map<K, nat>, lb: nat, n: nat, cut: set<K>)
      reads this, engine
    {
      && Valid() && lb + n <= |s0| && store == s0[..lb] + s0[lb + n..]
      && (forall j :: lb <= j < lb + n ==> o.isPrefixOf(key, s0[j].0))
      && engine.ring == WithoutAll(ring0, Values(s0[lb..lb + n]))
      && Nodes() == nodes0 - cut
    }

    /** One turn of the loop of add: the entry at lb, which key prefixes, is cut with its node. */
    method CutNext(key: K, ghost s0: seq<(K, nat)>, ghost ring0: seq<nat>, ghost nodes0: map<K, nat>, lb: nat, ghost n: nat, ghost cut: set<K>)
      requires Cutting(key, s0, ring0, nodes0, lb, n, cut) && lb < |store| && o.isPrefixOf(key, store[lb].0)
      modifies this, engine
      ensures Cutting(key, s0, ring0, nodes0, lb, n + 1, cut + {old(store[lb].0)})
      ensures engine.accessTime == old(engine.accessTime) && engine.values == old(engine.values)
    {
      ghost var e := store[lb];
      CutOne(o, key, s0, store, lb, n, ring0, engine.ring);
      AsMapAt(o, store, lb);
      RemoveEntry(lb);
      assert nodes0 - cut - {e.0} == nodes0 - (cut + {e.0});
    }

    /** engine.remove on the node of the entry at i, then the iterator's remove of that entry. */
    method RemoveEntry(i: nat)
      requires Valid() && i < |store|
      modifies this, engine
      ensures Valid() && store == RemoveAt(old(store), i)
      ensures State() == Left(old(State()), old(store[i].0))
      ensures engine.ring == Without(old(engine.ring), old(store[i].1)) && engine.values == old(engine.values)
    {
      var k := store[i].0;
      AsMapAt(o, store, i);
      RemoveKeepsIndexes(AsMap(store), engine.ring, engine.values, Id, k);
      RemoveAtMap(o, store, i);
      RemoveAtSorted(o, store, i);
      engine.Remove(store[i].1);
      store := RemoveAt(store, i);
      AntichainSubset(o, old(Keys()), Keys());
    }

    /** size: the number of keys. */
    function Size(): (r: nat)
      reads this, engine
      requires Valid()
      ensures r == |Keys()|
    {
      SortedSize(o, store);
      |store|
    }
  }
}
