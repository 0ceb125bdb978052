/**
 * Cache.Group (core/src/main/java/org/canoegame/entity/Cache.java, lines
 * 65-203): one shard of the cache, a permanent tier and an expiring tier
 * over the same key order. A key has a holder in at most one tier, and the
 * holder's state names the tier it sits in. The read/write lock is left out;
 * every operation runs to completion on its own.
 */
module Groups {
  import opened Wrappers
  import opened Ordering
  import opened SortedMaps
  import opened Holders
  import opened Stores
  import opened TtlEngines
  import opened TtlIndexes

  /** Moving the entry of k from the second of two disjoint maps to the first leaves their union. */
  lemma MoveToFirst<K, H>(a: map<K, H>, b: map<K, H>, k: K)
    requires a.Keys !! b.Keys && k in b
    ensures a[k := b[k]].Keys !! (b - {k}).Keys
    ensures a[k := b[k]] + (b - {k}) == a + b
  {
  }

  /** Moving the entry of k from the first of two disjoint maps to the second leaves their union. */
  lemma MoveToSecond<K, H>(a: map<K, H>, b: map<K, H>, k: K)
    requires a.Keys !! b.Keys && k in a
    ensures (a - {k}).Keys !! b[k := a[k]].Keys
    ensures (a - {k}) + b[k := a[k]] == a + b
  {
  }

  /** Shrinking the second of two maps (a sweep of the expiring tier) shrinks their union the same way. */
  lemma ShrinkSecond<K, H>(a: map<K, H>, b: map<K, H>, b': map<K, H>)
    requires forall k :: k in b' ==> k in b && b'[k] == b[k]
    requires a.Keys !! b.Keys
    ensures a.Keys !! b'.Keys
    ensures forall k :: k in a + b' ==> k in a + b && (a + b')[k] == (a + b)[k]
  {
  }

  /** A new key in the first of two disjoint maps is a new key of their union. */
  lemma AddToFirst<K, H>(a: map<K, H>, b: map<K, H>, k: K, h: H)
    requires a.Keys !! b.Keys && k !in a && k !in b
    ensures a[k := h].Keys !! b.Keys && a[k := h] + b == (a + b)[k := h]
  {
  }

  /** A new key in the second of two disjoint maps is a new key of their union. */
  lemma AddToSecond<K, H>(a: map<K, H>, b: map<K, H>, k: K, h: H)
    requires a.Keys !! b.Keys && k !in a && k !in b
    ensures a.Keys !! b[k := h].Keys && a + b[k := h] == (a + b)[k := h]
  {
  }

  /**
   * What get(key) at now did to group g, answering r: r is the holder of
   * key, no holder was added, the permanent tier is as it was,
   * and unless the permanent tier had key, the expiring tier was swept at
   * now (a key stays exactly when its node was in the part of the ring the
   * sweep keeps) and the node of a key found there was touched.
   */
  twostate predicate Got<K(!new), V>(g: Group<K, V>, key: K, now: int, new r: Option<Holder<K, V>>)
    reads g.manual, g.ttl, g.ttl.engine
  {
    && old(g.ttl.Valid()) && g.ttl.Valid()
    && r == (if key in g.Map() then Some(g.Map()[key]) else None)
    && (forall k :: k in g.Map() ==> k in old(g.Map()) && g.Map()[k] == old(g.Map()[k]))
    && g.manual.Map() == old(g.manual.Map())
    && (forall k :: k in old(g.manual.Map()) ==> k in g.Map())
    && (key !in old(g.manual.Map()) ==> forall k :: k in old(g.ttl.Map()) ==>
          (k in g.ttl.Map() <==> old(g.ttl.Nodes()[k]) in old(g.ttl.engine.ring)[..Kept(old(g.ttl.engine.ring), old(g.ttl.engine.accessTime), now, g.ttl.engine.ttl)]))
    && (key !in old(g.manual.Map()) && r.Some? ==>
          key in g.ttl.Nodes() && |g.ttl.engine.ring| > 0 && g.ttl.engine.ring[0] == g.ttl.Nodes()[key]
          && g.ttl.engine.accessTime[g.ttl.Nodes()[key]] == now)
    && (key in old(g.manual.Map()) ==> g.ttl.State() == old(g.ttl.State()))
    && (key !in old(g.manual.Map()) ==> Swept(old(g.ttl.State()), g.ttl.State(), g.ttl.engine.ttl, key, r.Some?, now))
  }

  /**
   * The expiring tier's engine after get(key) at now there, from t: the
   * ring is the part of t's ring the sweep keeps, with the node of key
   * moved to the head and stamped now when the key was found, no other
   * stamp changes, and every key left keeps its node.
   */
  ghost predicate Swept<K>(t: TierState<K>, e: TierState<K>, ttl: int, key: K, found: bool, now: int) {
    && (forall i :: 0 <= i < |t.ring| ==> t.ring[i] < |t.accessTime|)
    && (forall k :: k in e.nodes ==> k in t.nodes && e.nodes[k] == t.nodes[k])
    && (found ==> key in e.nodes && e.nodes[key] < |t.accessTime|)
    && e.accessTime == (if found then t.accessTime[e.nodes[key] := now] else t.accessTime)
    && var swept := t.ring[..Kept(t.ring, t.accessTime, now, ttl)];
      e.ring == (if found then [e.nodes[key]] + Without(swept, e.nodes[key]) else swept)
  }

  /**
   * The expiring tier's engine after getAllWithPrefix at now, from t, with
   * run the nodes of the keys returned: the ring is the part of t's ring
   * the sweep keeps with the run touched in turn, no stamp outside the run
   * changes, and every key left keeps its node.
   */
  ghost predicate SweptRun<K>(t: TierState<K>, e: TierState<K>, ttl: int, run: seq<nat>, now: int) {
    && (forall i :: 0 <= i < |t.ring| ==> t.ring[i] < |t.accessTime|)
    && (forall k :: k in e.nodes ==> k in t.nodes && e.nodes[k] == t.nodes[k])
    && |e.accessTime| == |t.accessTime|
    && (forall n :: 0 <= n < |e.accessTime| && n !in run ==> e.accessTime[n] == t.accessTime[n])
    && e.ring == TouchedRing(t.ring[..Kept(t.ring, t.accessTime, now, ttl)], run)
  }

  class Group<K(==,!new), V> {
    const manual: Manual<K, V>
    const ttl: Ttl<K, V>

    /** Every holder either tier has under some key. */
    ghost function Cells(): set<Holder<K, V>>
      reads manual, ttl, ttl.engine
    {
      manual.Map().Values + ttl.Map().Values
    }

    /**
     * Both tiers are well formed over one key order, their key sets are
     * disjoint, and each holder's state is the tier it is in.
     */
    ghost predicate Valid()
      reads manual, ttl, ttl.engine, Cells()
    {
      && manual.Valid() && ttl.Valid() && manual.o == ttl.o
      && manual.Map().Keys !! ttl.Map().Keys
      && (forall k :: k in manual.Map() ==> manual.Map()[k].state == MANUAL)
      && (forall k :: k in ttl.Map() ==> ttl.Map()[k].state == EXPIRING)
    }

    /** The holder of each key the group caches, from whichever tier has it. */
    ghost function Map(): map<K, Holder<K, V>>
      reads manual, ttl, ttl.engine
    {
      manual.Map() + ttl.Map()
    }

    /** The keys of the expiring tier. */
    ghost function Expiring(): set<K>
      reads manual, ttl, ttl.engine
    {
      ttl.Map().Keys
    }

    /** The value of the holder under key. */
    ghost function ValueOf(key: K): Option<V>
      reads manual, ttl, ttl.engine, Cells()
      requires key in Map()
    {
      Map()[key].value
    }

    /** The state of the holder under key. */
    ghost function StateOf(key: K): State
      reads manual, ttl, ttl.engine, Cells()
      requires key in Map()
    {
      Map()[key].state
    }

    /** The holder under key, as a frame: empty when key is absent. */
    ghost function Cell(key: K): set<Holder<K, V>>
      reads manual, ttl, ttl.engine
    {
      if key in Map() then {Map()[key]} else {}
    }

    /** Group(ttl): two empty tiers; the expiring one uses the given ttl. */
    constructor (o: KeyOrder<K>, ttlMillis: int)
      requires Ordering.Valid(o)
      ensures Valid() && Map() == map[] && manual.o == o && ttl.engine.ttl == ttlMillis
      ensures fresh(manual) && fresh(ttl) && fresh(ttl.engine)
    {
      manual := new Manual(o);
      ttl := new Ttl(o, ttlMillis);
    }

    /**
     * peek: the holder of key from the permanent tier, else from the
     * expiring tier without sweeping or touching it.
     */
    method Peek(key: K) returns (r: Option<Holder<K, V>>)
      requires Valid()
      modifies ttl, ttl.engine
      ensures Valid() && unchanged(ttl) && unchanged(ttl.engine) && Map() == old(Map())
      ensures r == if key in Map() then Some(Map()[key]) else None
    {
      ManualStored();
      r := manual.Get(key);
      if r.Some? {
        return;
      }
      r := ttl.Get(key, true, 0);  // a peek does not read the clock
    }

    /**
     * get: a lookup in the permanent tier, then a get without peek in the
     * expiring tier, which sweeps it and touches the node found. No holder
     * is created or changed, and the permanent tier stays as it was.
     */
    method Get(key: K, now: int) returns (r: Option<Holder<K, V>>)
      requires Valid()
      modifies ttl, ttl.engine
      ensures Valid() && unchanged(manual)
      ensures r == if key in Map() then Some(Map()[key]) else None
      ensures forall k :: k in Map() ==> k in old(Map()) && Map()[k] == old(Map()[k])
      ensures forall k :: k in old(manual.Map()) ==> k in Map()
      ensures key in old(manual.Map()) ==> unchanged(ttl) && unchanged(ttl.engine)
      ensures key !in old(manual.Map()) ==> forall k :: k in old(ttl.Map()) ==>
        (k in ttl.Map() <==> old(ttl.Nodes()[k]) in old(ttl.engine.ring)[..Kept(old(ttl.engine.ring), old(ttl.engine.accessTime), now, ttl.engine.ttl)])
      ensures key !in old(manual.Map()) && r.Some? ==> ttl.engine.ring[0] == ttl.Nodes()[key] && ttl.engine.accessTime[ttl.Nodes()[key]] == now
      ensures key !in old(manual.Map()) ==> Swept(old(ttl.State()), ttl.State(), ttl.engine.ttl, key, r.Some?, now)
    {
      r := manual.Get(key);
      if r.Some? {
        return;
      }
      r := GetExpiring(key, now);
    }

    /** The expiring-tier half of get, for a key the permanent tier does not have. */
    method GetExpiring(key: K, now: int) returns (r: Option<Holder<K, V>>)
      requires Valid() && key !in manual.Map()
      modifies ttl, ttl.engine
      ensures Valid() && unchanged(manual)
      ensures r == if key in Map() then Some(Map()[key]) else None
      ensures forall k :: k in Map() ==> k in old(Map()) && Map()[k] == old(Map()[k])
      ensures manual.Map().Keys <= Map().Keys
      ensures forall k :: k in old(ttl.Map()) ==>
        (k in ttl.Map() <==> old(ttl.Nodes()[k]) in old(ttl.engine.ring)[..Kept(old(ttl.engine.ring), old(ttl.engine.accessTime), now, ttl.engine.ttl)])
      ensures r.Some? ==> ttl.engine.ring[0] == ttl.Nodes()[key] && ttl.engine.accessTime[ttl.Nodes()[key]] == now
      ensures Swept(old(ttl.State()), ttl.State(), ttl.engine.ttl, key, r.Some?, now)
    {
      ManualStored();
      ghost var fixed, expiring0 := manual.Map(), ttl.Map();
      r := ttl.Get(key, false, now);
      ShrinkSecond(fixed, expiring0, ttl.Map());
    }

    /**
     * getAll(prefixKey, canonical): the permanent tier's holders of the keys
     * prefixKey prefixes, in key order; unless canonical, followed by those
     * of the expiring tier, which is swept first and whose returned nodes
     * are touched.
     */
    method GetAll(prefix: K, canonical: bool, now: int) returns (all: seq<Holder<K, V>>)
      requires Valid()
      modifies ttl, ttl.engine
      ensures Valid() && unchanged(manual)
      ensures forall k :: k in Map() ==> k in old(Map()) && Map()[k] == old(Map()[k])
      ensures canonical ==> all == manual.Prefixed(prefix) && unchanged(ttl) && unchanged(ttl.engine)
      ensures !canonical ==> all == manual.Prefixed(prefix) + ttl.Prefixed(prefix)
      ensures !canonical ==>
        (forall k :: k in old(ttl.Map()) ==>
          (k in ttl.Map() <==> old(ttl.Nodes()[k]) in old(ttl.engine.ring)[..Kept(old(ttl.engine.ring), old(ttl.engine.accessTime), now, ttl.engine.ttl)]))
        && (forall i :: 0 <= i < |Matching(ttl.o, ttl.store, prefix)| ==>
          ttl.engine.accessTime[ttl.Nodes()[Matching(ttl.o, ttl.store, prefix)[i].0]] == now)
      ensures !canonical ==> SweptRun(old(ttl.State()), ttl.State(), ttl.engine.ttl, Values(Matching(ttl.o, ttl.store, prefix)), now)
    {
      ManualStored();
      all := manual.GetAllWithPrefix(prefix);
      if canonical {
        return;
      }
      var expiring := SweepPrefixed(prefix, now);
      all := all + expiring;
    }

    /** getAll's second half: the expiring tier's holders of the keys prefix prefixes, after its sweep. */
    method SweepPrefixed(prefix: K, now: int) returns (expiring: seq<Holder<K, V>>)
      requires Valid()
      modifies ttl, ttl.engine
      ensures Valid() && unchanged(manual)
      ensures forall k :: k in Map() ==> k in old(Map()) && Map()[k] == old(Map()[k])
      ensures expiring == ttl.Prefixed(prefix)
      ensures forall k :: k in old(ttl.Map()) ==>
        (k in ttl.Map() <==> old(ttl.Nodes()[k]) in old(ttl.engine.ring)[..Kept(old(ttl.engine.ring), old(ttl.engine.accessTime), now, ttl.engine.ttl)])
      ensures forall i :: 0 <= i < |Matching(ttl.o, ttl.store, prefix)| ==>
        ttl.engine.accessTime[ttl.Nodes()[Matching(ttl.o, ttl.store, prefix)[i].0]] == now
      ensures SweptRun(old(ttl.State()), ttl.State(), ttl.engine.ttl, Values(Matching(ttl.o, ttl.store, prefix)), now)
    {
      ManualStored();
      ghost var fixed, expiring0 := manual.Map(), ttl.Map();
      expiring := ttl.GetAllWithPrefix(prefix, now);
      ShrinkSecond(fixed, expiring0, ttl.Map());
    }

    /**
     * switchExpiring: the holder of key moves to the tier expiring names,
     * and its state follows; when it is already there nothing happens. A
     * holder moved into the expiring tier gets a new node stamped now.
     */
    method SwitchExpiring(key: K, h: Holder<K, V>, expiring: bool, now: int)
      requires Valid() && key in Map() && h == Map()[key]
      modifies manual, ttl, ttl.engine, h
      ensures Valid() && Map() == old(Map()) && h.value == old(h.value)
      ensures Expiring() == if expiring then old(Expiring()) + {key} else old(Expiring()) - {key}
      ensures (key in old(Expiring())) == expiring ==> unchanged(manual, ttl, ttl.engine, h)
      ensures expiring && key !in old(Expiring()) ==> ttl.engine.accessTime[ttl.Nodes()[key]] == now
      ensures ttl.State() == Moved(old(ttl.State()), key, expiring, key in old(Expiring()), now)
    {
      if expiring {
        if h.IsExpiring() {
          return;
        }
        ToExpiring(key, h, now);
      } else {
        if !h.IsExpiring() {
          return;
        }
        ToManual(key, h);
      }
    }

    /** switchExpiring(key, holder, true), lines 182-184, on a holder of the permanent tier. */
    method ToExpiring(key: K, h: Holder<K, V>, now: int)
      requires Valid() && key in manual.Map() && h == manual.Map()[key]
      modifies manual, ttl, ttl.engine, h
      ensures Valid() && Map() == old(Map()) && h.value == old(h.value)
      ensures Expiring() == old(Expiring()) + {key}
      ensures ttl.engine.accessTime[ttl.Nodes()[key]] == now
      ensures ttl.State() == Entered(old(ttl.State()), key, now)
    {
      MoveToSecond(manual.Map(), ttl.Map(), key);
      LeaveManual(key, h);
      JoinTtl(key, h, now);
    }

    /** Line 184: a holder marked EXPIRING joins the expiring tier under its key, in a new node stamped now. */
    method JoinTtl(key: K, h: Holder<K, V>, now: int)
      requires Valid() && key !in Map() && h.key == key && h.state == EXPIRING
      modifies ttl, ttl.engine
      ensures Valid() && ttl.Map() == old(ttl.Map())[key := h]
      ensures ttl.engine.accessTime[ttl.Nodes()[key]] == now
      ensures ttl.State() == Entered(old(ttl.State()), key, now)
    {
      ManualStored();
      ttl.PutHolder(key, h, now);
    }

    /** Lines 182-183: the holder of key leaves the permanent tier and is marked EXPIRING. */
    method LeaveManual(key: K, h: Holder<K, V>)
      requires Valid() && key in manual.Map() && h == manual.Map()[key]
      modifies manual, h
      ensures Valid() && h.key == key && h.state == EXPIRING && h.value == old(h.value)
      ensures manual.Map() == old(manual.Map()) - {key}
    {
      ManualStored();
      ttl.MapKeys();
      var _ := manual.Remove(key);
      h.SetExpiring(true);
    }

    /** switchExpiring(key, holder, false), lines 190-192, on a holder of the expiring tier. */
    method ToManual(key: K, h: Holder<K, V>)
      requires Valid() && key in ttl.Map() && h == ttl.Map()[key]
      modifies manual, ttl, ttl.engine, h
      ensures Valid() && Map() == old(Map()) && h.value == old(h.value)
      ensures Expiring() == old(Expiring()) - {key}
      ensures ttl.State() == Left(old(ttl.State()), key)
    {
      ManualStored();
      MoveToFirst(manual.Map(), ttl.Map(), key);
      LeaveTtl(key, h);
      JoinManual(key, h);
    }

    /** Line 192: a holder marked MANUAL joins the permanent tier under its key. */
    method JoinManual(key: K, h: Holder<K, V>)
      requires Valid() && key !in Map() && h.key == key && h.state == MANUAL
      modifies manual
      ensures Valid() && manual.Map() == old(manual.Map())[key := h]
    {
      ManualStored();
      manual.PutHolder(key, h);
    }

    /** Lines 190-191: the holder of key leaves the expiring tier and is marked MANUAL. */
    method LeaveTtl(key: K, h: Holder<K, V>)
      requires Valid() && key in ttl.Map() && h == ttl.Map()[key]
      modifies ttl, ttl.engine, h
      ensures Valid() && h.key == key && h.state == MANUAL && h.value == old(h.value)
      ensures ttl.Map() == old(ttl.Map()) - {key}
      ensures ttl.State() == Left(old(ttl.State()), key)
    {
      ManualStored();
      ttl.MapKeys();
      var _ := ttl.Remove(key);
      ghost var m, st := ttl.Map(), ttl.State();
      h.SetExpiring(false);
      assert ttl.Map() == m && ttl.State() == st;
    }

    /**
     * put: a key cached nowhere gets a new holder in the tier expiring
     * names (a new node stamped now in the expiring tier).
     */
    method Put(key: K, value: Option<V>, expiring: bool, now: int) returns (h: Holder<K, V>)
      requires Valid() && key !in Map()
      modifies manual, ttl, ttl.engine
      ensures Valid() && fresh(h) && h.key == key && h.value == value
      ensures Map() == old(Map())[key := h]
      ensures Expiring() == if expiring then old(Expiring()) + {key} else old(Expiring()) - {key}
      ensures ttl.State() == Moved(old(ttl.State()), key, expiring, false, now)
    {
      if expiring {
        h := PutExpiring(key, value, now);
      } else {
        h := PutManual(key, value);
      }
    }

    /** put with expiring, line 198: a new EXPIRING holder in a new node of the expiring tier. */
    method PutExpiring(key: K, value: Option<V>, now: int) returns (h: Holder<K, V>)
      requires Valid() && key !in Map()
      modifies ttl, ttl.engine
      ensures Valid() && fresh(h) && h.key == key && h.value == value
      ensures Map() == old(Map())[key := h] && Expiring() == old(Expiring()) + {key}
      ensures ttl.State() == Entered(old(ttl.State()), key, now)
    {
      ManualStored();
      ghost var fixed, expiring := manual.Map(), ttl.Map();
      h := ttl.Put(key, value, now);
      AddToSecond(fixed, expiring, key, h);
    }

    /** put without expiring, line 200: a new MANUAL holder in the permanent tier. */
    method PutManual(key: K, value: Option<V>) returns (h: Holder<K, V>)
      requires Valid() && key !in Map()
      modifies manual
      ensures Valid() && fresh(h) && h.key == key && h.value == value
      ensures Map() == old(Map())[key := h] && Expiring() == old(Expiring()) - {key}
      ensures unchanged(ttl, ttl.engine)
    {
      ManualStored();
      ghost var fixed, expiring := manual.Map(), ttl.Map();
      h := manual.Put(key, value);
      AddToFirst(fixed, expiring, key, h);
      assert expiring.Keys - {key} == expiring.Keys;
    }

    /**
     * putOnFetch: an entity read from storage. A key cached nowhere gets a
     * new holder with the value; a cached key keeps its holder and its
     * value. Either way the holder ends up in the tier expiring names.
     */
    method PutOnFetch(key: K, value: Option<V>, expiring: bool, now: int) returns (h: Holder<K, V>)
      requires Valid()
      modifies manual, ttl, ttl.engine, Cell(key)
      ensures Valid() && key in Map() && h == Map()[key]
      ensures old(key in Map()) ==> h == old(Map()[key]) && Map() == old(Map()) && h.value == old(ValueOf(key))
      ensures old(key !in Map()) ==> fresh(h) && h.value == value && Map() == old(Map())[key := h]
      ensures Expiring() == if expiring then old(Expiring()) + {key} else old(Expiring()) - {key}
      ensures ttl.State() == Moved(old(ttl.State()), key, expiring, key in old(Expiring()), now)
    {
      ManualStored();
      var orig := Peek(key);
      if orig.None? {
        h := Put(key, value, expiring, now);
        return;
      }
      h := orig.value;
      assert h.value == old(ValueOf(key));
      SwitchExpiring(key, h, expiring, now);
    }

    /**
     * putOnStore: an entity written to storage. The key's holder, old or
     * new, carries the value and ends up in the tier expiring names.
     */
    method PutOnStore(key: K, value: Option<V>, expiring: bool, now: int) returns (h: Holder<K, V>)
      requires Valid()
      modifies manual, ttl, ttl.engine, Cell(key)
      ensures Valid() && key in Map() && h == Map()[key] && h.value == value
      ensures old(key in Map()) ==> h == old(Map()[key]) && Map() == old(Map())
      ensures old(key !in Map()) ==> fresh(h) && Map() == old(Map())[key := h]
      ensures Expiring() == if expiring then old(Expiring()) + {key} else old(Expiring()) - {key}
      ensures ttl.State() == Moved(old(ttl.State()), key, expiring, key in old(Expiring()), now)
    {
      var orig := Peek(key);
      if orig.None? {
        assert key !in Expiring();
        h := Put(key, value, expiring, now);
        return;
      }
      h := orig.value;
      ghost var st := ttl.State();
      Assign(key, h, value);
      assert ttl.State() == st;
      SwitchExpiring(key, h, expiring, now);
    }

    /**
     * putOnDelete: an entity deleted from storage. A cached key keeps its
     * holder, which now carries no value and sits in the expiring tier; an
     * uncached key changes nothing.
     */
    method PutOnDelete(key: K, now: int)
      requires Valid()
      modifies manual, ttl, ttl.engine, Cell(key)
      ensures Valid()
      ensures old(key in Map()) ==> Map() == old(Map()) && Map()[key].value == None && Expiring() == old(Expiring()) + {key}
      ensures old(key !in Map()) ==> unchanged(manual, ttl, ttl.engine)
      ensures old(key in Map()) ==> ttl.State() == Moved(old(ttl.State()), key, true, key in old(Expiring()), now)
    {
      var orig := Peek(key);
      if orig.None? {
        return;
      }
      var h := orig.value;
      ghost var st := ttl.State();
      Assign(key, h, None);
      assert ttl.State() == st;
      SwitchExpiring(key, h, true, now);
    }

    /** orig.set(value) on the holder of a cached key: its tier and state stay as they were. */
    method Assign(key: K, h: Holder<K, V>, value: Option<V>)
      requires Valid() && key in Map() && h == Map()[key]
      modifies h
      ensures Valid() && h.value == value && h.state == old(h.state)
      ensures Map() == old(Map()) && Expiring() == old(Expiring())
    {
      ManualStored();
      h.Set(value);
    }

    /**
     * Each holder of the permanent tier is an entry of its store (so it was
     * allocated before any operation that leaves the holder alone).
     */
    lemma ManualStored()
      ensures forall k :: k in manual.Map() ==> exists i :: 0 <= i < |manual.store| && manual.store[i].1 == manual.Map()[k]
    {
      forall k | k in manual.Map() ensures exists i :: 0 <= i < |manual.store| && manual.store[i].1 == manual.Map()[k] {
        AsMapValue(manual.store, k);
      }
    }

    /** Each holder of the group carries the key it is cached under, so holders of different keys differ. */
    lemma HoldersKeyed()
      requires Valid()
      ensures forall k :: k in Map() ==> Map()[k].key == k
    {
      ttl.MapKeys();
    }

    /** The holders of the group are the values of its map. */
    lemma CellsAreValues()
      requires Valid()
      ensures Cells() == Map().Values
    {
      var a, b := manual.Map(), ttl.Map();
      forall h | h in a.Values ensures h in (a + b).Values {
        var k :| k in a && a[k] == h;
        assert k !in b;
      }
      forall h | h in b.Values ensures h in (a + b).Values {
        var k :| k in b && b[k] == h;
      }
    }

    /** An empty group has no holders. */
    lemma EmptyCells()
      requires Map() == map[]
      ensures Cells() == {}
    {
      assert manual.Map().Keys <= Map().Keys;
    }
  }
}
