/**
 * The Cache façade of Cache.java: CONCURRENCY_LEVEL groups, a key routed to
 * the group its groupCode names, and a prefix index chosen at construction.
 * Each group owns its own objects, so an operation on one group leaves the
 * other groups as they were.
 */
module Caches {
  import opened Wrappers
  import opened Ordering
  import opened Holders
  import opened Groups
  import opened Prefixes
  import opened Stores
  import opened TtlIndexes

  /** CONCURRENCY_LEVEL: the number of groups. */
  const ConcurrencyLevel: nat := 10

  /** The ttl of the TtlPrefix index the façade builds when not told to use the manual one. */
  const PrefixTtl: int := 1000

  /** The prefix field: one of the two index kinds. */
  datatype PrefixIndex<K(==,!new)> = ManualIndex(manual: ManualPrefix<K>) | TtlIndex(ttl: TtlPrefix<K>)

  /**
   * getGroup over an array of group slots (null modelled as None): a
   * negative groupCode has no group; otherwise the slot groupCode % 10.
   */
  function GroupIn<G>(slots: seq<Option<G>>, groupCode: int): (r: Option<G>)
    requires |slots| == ConcurrencyLevel
    ensures groupCode < 0 ==> r == None
    ensures groupCode >= 0 ==> r == slots[groupCode % ConcurrencyLevel]
  {
    if groupCode < 0 then None else slots[groupCode % ConcurrencyLevel]
  }

  /** The group array as Cache's constructor leaves it: new Group[10] fills every slot with null. */
  function SlotsAsWritten<G>(): (s: seq<Option<G>>)
    ensures |s| == ConcurrencyLevel && forall i :: 0 <= i < |s| ==> s[i] == None
  {
    seq(ConcurrencyLevel, _ => None)
  }

  /** As written, getGroup finds no group for any key, so every get and put dereferences null. */
  lemma {:induction false} NoGroupAsWritten<G>(groupCode: int)
    ensures GroupIn(SlotsAsWritten<G>(), groupCode) == None
  {
    if groupCode >= 0 {
      assert SlotsAsWritten<G>()[groupCode % ConcurrencyLevel] == None;
    }
  }

  /** The slot a non-negative groupCode routes to. */
  function Slot(groupCode: int): (i: nat)
    requires groupCode >= 0
    ensures i < ConcurrencyLevel
    ensures (groupCode - i) % ConcurrencyLevel == 0
  {
    groupCode % ConcurrencyLevel
  }

  /** The two tiers and the engine of a group. */
  function Heads<K(!new), V>(g: Group<K, V>): (s: set<object>)
    ensures s == {g.manual, g.ttl, g.ttl.engine}
  {
    {g.manual, g.ttl, g.ttl.engine}
  }

  /**
   * The objects of part p include every object of group g, and g is well
   * formed over the key order o. It reads only p, so a change outside p
   * cannot affect it.
   */
  ghost predicate Owned<K(!new), V>(g: Group<K, V>, p: set<object>, o: KeyOrder<K>)
    reads p
  {
    Heads(g) <= p && g.Cells() <= p && g.Valid() && g.manual.o == o
  }

  /** Group g, with its objects in p, caches nothing and expires after ttl. */
  ghost predicate Empty<K(!new), V>(g: Group<K, V>, p: set<object>, ttl: int)
    reads p
  {
    Heads(g) <= p && g.Map() == map[] && g.ttl.engine.ttl == ttl
  }

  /** The parts i and j are disjoint. */
  ghost predicate ApartAt(parts: seq<set<object>>, i: int, j: int) {
    0 <= i < |parts| && 0 <= j < |parts| && i != j ==> parts[i] !! parts[j]
  }

  class Cache<K(==,!new), V> {
    const o: KeyOrder<K>
    const groups: seq<Group<K, V>>
    const prefix: PrefixIndex<K>
    /** The objects of each group, one set per group. */
    ghost var parts: seq<set<object>>
    /** All the objects of all the groups. */
    ghost var Repr: set<object>

    /**
     * Ten groups over the cache's key order, each well formed and each
     * owning a separate set of objects.
     */
    ghost predicate Valid()
      reads this, Repr
    {
      Fits(parts, Repr)
    }

    /**
     * The groups with objects ps, all within R: each group is well formed
     * and owns its part, and the parts are pairwise disjoint.
     */
    ghost predicate Fits(ps: seq<set<object>>, R: set<object>)
      reads R
    {
      && |groups| == ConcurrencyLevel && |ps| == ConcurrencyLevel && this !in R
      && (forall i :: 0 <= i < |ps| ==> ps[i] <= R)
      && (forall i {:trigger Owned(groups[i], ps[i], o)} :: 0 <= i < |groups| ==> Owned(groups[i], ps[i], o))
      && (forall i, j {:trigger ApartAt(ps, i, j)} :: ApartAt(ps, i, j))
    }

    /** getGroup: the group of key, none for a negative groupCode. */
    function GetGroup(key: K): (r: Option<Group<K, V>>)
      requires |groups| == ConcurrencyLevel
      ensures r.None? <==> o.groupCode(key) < 0
      ensures r.Some? ==> r.value == groups[Slot(o.groupCode(key))]
    {
      GroupIn(seq(ConcurrencyLevel, i requires 0 <= i < ConcurrencyLevel => Some(groups[i])), o.groupCode(key))
    }

    /**
     * Cache(useManualCache), with the ten groups created (each with ttl
     * groupTtl): the prefix index is a ManualPrefix when useManualCache
     * holds, otherwise a TtlPrefix with ttl 1000; all groups start empty.
     */
    constructor (o: KeyOrder<K>, useManualCache: bool, groupTtl: int)
      requires Ordering.Valid(o)
      ensures Valid() && this.o == o
      ensures forall i :: 0 <= i < ConcurrencyLevel ==> Empty(groups[i], parts[i], groupTtl)
      ensures prefix.ManualIndex? <==> useManualCache
      ensures prefix.ManualIndex? ==> prefix.manual.Valid() && prefix.manual.Keys() == {}
      ensures prefix.TtlIndex? ==> prefix.ttl.Valid() && prefix.ttl.Keys() == {} && prefix.ttl.engine.ttl == PrefixTtl
    {
      this.o := o;
      var p := NewPrefix(o, useManualCache);
      prefix := p;
      var gs, ps := MakeGroups(o, groupTtl);
      groups := gs;
      parts := ps;
      Repr := Union(ps);
      new;
      NotInUnion(ps, this);
    }

    /** The group of key, when it has one, and its objects. */
    lemma Routed(key: K)
      requires Valid() && o.groupCode(key) >= 0
      ensures var c := Slot(o.groupCode(key));
        GetGroup(key) == Some(groups[c]) && Owned(groups[c], parts[c], o) && parts[c] <= Repr
    {
      var c := Slot(o.groupCode(key));
      assert Owned(groups[c], parts[c], o);
    }

    /**
     * The holder of a key cached in the group that key routes to is one
     * of that group's objects, other than its tiers and its engine, and
     * differs from the holder of any other key.
     */
    lemma HolderOwned(key: K, k: K)
      requires Valid() && o.groupCode(key) >= 0
      requires k in groups[Slot(o.groupCode(key))].Map()
      ensures var c := Slot(o.groupCode(key)); var g := groups[c];
        && g.Map()[k] in parts[c] - {g.manual, g.ttl, g.ttl.engine}
        && forall k' :: k' in g.Map() && k' != k ==> g.Map()[k'] != g.Map()[k]
    {
      var c := Slot(o.groupCode(key));
      var g := groups[c];
      assert Owned(g, parts[c], o);
      g.CellsAreValues();
      g.HoldersKeyed();
    }

    /**
     * get: a key with a negative groupCode has no group, and the call fails
     * with a NullPointerException; otherwise the group's get answers,
     * sweeping that group's expiring tier and touching the node it finds
     * there.
     */
    method Get(key: K, now: int) returns (r: Result<Option<Holder<K, V>>>)
      requires Valid()
      modifies Repr
      ensures Valid() && parts == old(parts)
      ensures o.groupCode(key) < 0 ==> r == Err(NullPointer)
      ensures o.groupCode(key) >= 0 ==> var g := groups[Slot(o.groupCode(key))];
        r.Ok? && Got(g, key, now, r.value) && unchanged(old(parts[Slot(o.groupCode(key))]) - {g.ttl, g.ttl.engine})
      ensures forall j :: 0 <= j < ConcurrencyLevel && (o.groupCode(key) < 0 || j != Slot(o.groupCode(key))) ==> unchanged(old(parts[j]))
    {
      var group := GetGroup(key);
      if group.None? {
        return Err(NullPointer);
      }
      var c := Slot(o.groupCode(key));
      Routed(key);
      var g := group.value;
      g.CellsAreValues();
      ghost var m0 := g.Map();
      var h := g.Get(key, now);
      g.CellsAreValues();
      SubmapValues(m0, g.Map());
      r := Ok(h);
      Kept(c);
    }

    /**
     * putOnFetch: no group for a negative groupCode (a NullPointerException);
     * otherwise the group's putOnFetch: a cached key keeps its holder and
     * value and moves to the tier expiring asks for, a new key gets a new
     * holder with value in that tier.
     */
    method PutOnFetch(key: K, value: Option<V>, expiring: bool, now: int) returns (r: Result<Holder<K, V>>)
      requires Valid()
      modifies this, Repr
      ensures Valid() && |parts| == ConcurrencyLevel
      ensures o.groupCode(key) < 0 ==> r == Err(NullPointer) && parts == old(parts)
      ensures o.groupCode(key) >= 0 ==> r.Ok? && var g := groups[Slot(o.groupCode(key))];
        && Fetched(g, old(SnapshotOf(g)), old(if key in g.Map() then g.ValueOf(key) else None), key, value, expiring, r.value)
        && (old(key !in g.Map()) ==> fresh(r.value))
        && unchanged(old(parts[Slot(o.groupCode(key))]) - {g.manual, g.ttl, g.ttl.engine, r.value})
      ensures forall j :: 0 <= j < ConcurrencyLevel && (o.groupCode(key) < 0 || j != Slot(o.groupCode(key))) ==>
        parts[j] == old(parts[j]) && unchanged(old(parts[j]))
    {
      var group := GetGroup(key);
      if group.None? {
        return Err(NullPointer);
      }
      var c := Slot(o.groupCode(key));
      Routed(key);
      var g := group.value;
      var h := FetchIn(g, parts[c], o, key, value, expiring, now);
      Grown(c, h);
      Adopt(c, h);
      r := Ok(h);
    }

    /**
     * putOnStore: no group for a negative groupCode (a NullPointerException);
     * otherwise the group's putOnStore: the key's holder (the cached one, or
     * a new one) takes value and sits in the tier expiring asks for.
     */
    method PutOnStore(key: K, value: Option<V>, expiring: bool, now: int) returns (r: Result<Holder<K, V>>)
      requires Valid()
      modifies this, Repr
      ensures Valid() && |parts| == ConcurrencyLevel
      ensures o.groupCode(key) < 0 ==> r == Err(NullPointer) && parts == old(parts)
      ensures o.groupCode(key) >= 0 ==> r.Ok? && var g := groups[Slot(o.groupCode(key))];
        && Stored(g, old(SnapshotOf(g)), key, value, expiring, r.value)
        && (old(key !in g.Map()) ==> fresh(r.value))
        && unchanged(old(parts[Slot(o.groupCode(key))]) - {g.manual, g.ttl, g.ttl.engine, r.value})
      ensures forall j :: 0 <= j < ConcurrencyLevel && (o.groupCode(key) < 0 || j != Slot(o.groupCode(key))) ==>
        parts[j] == old(parts[j]) && unchanged(old(parts[j]))
    {
      var group := GetGroup(key);
      if group.None? {
        return Err(NullPointer);
      }
      var c := Slot(o.groupCode(key));
      Routed(key);
      var g := group.value;
      var h := StoreIn(g, parts[c], o, key, value, expiring, now);
      Grown(c, h);
      Adopt(c, h);
      r := Ok(h);
    }

    /**
     * putOnDelete: no group for a negative groupCode (a NullPointerException);
     * otherwise the group's putOnDelete: a cached key's holder is emptied
     * and sits in the expiring tier; an uncached key changes nothing.
     */
    method PutOnDelete(key: K, now: int) returns (r: Outcome)
      requires Valid()
      modifies Repr
      ensures Valid() && parts == old(parts)
      ensures o.groupCode(key) < 0 ==> r == Fail(NullPointer)
      ensures o.groupCode(key) >= 0 ==> r == Pass && var g := groups[Slot(o.groupCode(key))];
        Deleted(g, key, now) && unchanged(old(parts[Slot(o.groupCode(key))]) - {g.manual, g.ttl, g.ttl.engine} - old(g.Cell(key)))
      ensures forall j :: 0 <= j < ConcurrencyLevel && (o.groupCode(key) < 0 || j != Slot(o.groupCode(key))) ==>
        unchanged(old(parts[j]))
    {
      var group := GetGroup(key);
      if group.None? {
        return Fail(NullPointer);
      }
      var c := Slot(o.groupCode(key));
      Routed(key);
      var g := group.value;
      DeleteIn(g, parts[c], o, key, now);
      Kept(c);
      r := Pass;
    }

    /**
     * After a put confined to the objects of group c, which may have made
     * the holder h: with h among the objects of group c, the groups fit
     * again, and the other groups are as they were.
     */
    twostate lemma Grown(c: nat, new h: object)
      requires old(Valid()) && c < ConcurrencyLevel
      requires parts == old(parts) && Repr == old(Repr)
      requires Owned(groups[c], parts[c] + {h}, o) && h != this
      requires !old(allocated(h)) || h in old(parts[c])
      requires unchanged(old(Repr) - old(parts[c]))
      ensures Fits(parts[c := parts[c] + {h}], Repr + {h})
      ensures forall j :: 0 <= j < ConcurrencyLevel && j != c ==> unchanged(old(parts[j]))
    {
      forall j | 0 <= j < ConcurrencyLevel && j != c
        ensures unchanged(old(parts[j])) && h !in old(parts[j]) && Owned(groups[j], parts[j], o)
      {
        assert old(ApartAt(parts, c, j));
        assert old(Owned(groups[j], parts[j], o));
      }
      GrowApart(old(parts), c, h);
    }

    /** The holder h joins the objects of group c; nothing else changes. */
    ghost method Adopt(c: nat, h: object)
      requires c < ConcurrencyLevel == |parts| && Fits(parts[c := parts[c] + {h}], Repr + {h})
      modifies this
      ensures parts == old(parts)[c := old(parts[c]) + {h}] && Repr == old(Repr) + {h} && Valid()
    {
      parts, Repr := parts[c := parts[c] + {h}], Repr + {h};
    }

    /**
     * After an operation confined to the objects of group c that keeps that
     * group well formed within parts[c], the other groups are as they were
     * and the cache is valid again.
     */
    twostate lemma Kept(c: nat)
      requires old(Valid()) && c < ConcurrencyLevel
      requires parts == old(parts) && Repr == old(Repr)
      requires Owned(groups[c], parts[c], o)
      requires unchanged(old(Repr) - old(parts[c]))
      ensures Valid()
      ensures forall j :: 0 <= j < ConcurrencyLevel && j != c ==> unchanged(old(parts[j]))
    {
      forall j | 0 <= j < ConcurrencyLevel && j != c ensures unchanged(old(parts[j])) && Owned(groups[j], parts[j], o) {
        assert old(ApartAt(parts, c, j));
        assert old(Owned(groups[j], parts[j], o));
      }
    }

    /** The prefix index of the constructor: a ManualPrefix, or a TtlPrefix with ttl 1000. */
    static method NewPrefix(o: KeyOrder<K>, useManualCache: bool) returns (p: PrefixIndex<K>)
      requires Ordering.Valid(o)
      ensures p.ManualIndex? <==> useManualCache
      ensures p.ManualIndex? ==> p.manual.Valid() && p.manual.Keys() == {}
      ensures p.TtlIndex? ==> p.ttl.Valid() && p.ttl.Keys() == {} && p.ttl.engine.ttl == PrefixTtl
    {
      if useManualCache {
        var m := new ManualPrefix(o);
        p := ManualIndex(m);
      } else {
        var t := new TtlPrefix(o, PrefixTtl);
        p := TtlIndex(t);
      }
    }

    /**
     * Not a loop of the source: the ten groups a working constructor would
     * create, each with its own fresh objects.
     */
    static method MakeGroups(o: KeyOrder<K>, groupTtl: int) returns (gs: seq<Group<K, V>>, ghost ps: seq<set<object>>)
      requires Ordering.Valid(o)
      ensures |gs| == ConcurrencyLevel && |ps| == ConcurrencyLevel && AllEmpty(gs, ps, o, groupTtl)
      ensures forall i :: 0 <= i < |ps| ==> ps[i] == Heads(gs[i])
      ensures forall i, j {:trigger ApartAt(ps, i, j)} :: ApartAt(ps, i, j)
    {
      gs, ps := [], [];
      while |gs| < ConcurrencyLevel
        invariant |gs| == |ps| <= ConcurrencyLevel && AllEmpty(gs, ps, o, groupTtl)
        invariant forall i :: 0 <= i < |ps| ==> ps[i] == Heads(gs[i])
        invariant forall i, j {:trigger ApartAt(ps, i, j)} :: ApartAt(ps, i, j)
      {
        var g := NewGroup(o, groupTtl);
        ApartAppend(ps, Heads(g));
        AllEmptyAppend(gs, ps, o, groupTtl, g);
        gs, ps := gs + [g], ps + [Heads(g)];
      }
    }
  }

  /**
   * A caller's view of get: every holder of the routed group keeps its
   * value and state.
   */
  method GetKeepsHolders<K(==,!new), V>(c: Cache<K, V>, key: K, other: K, now: int) returns (r: Result<Option<Holder<K, V>>>)
    requires c.Valid() && c.o.groupCode(key) >= 0
    requires other in c.groups[Slot(c.o.groupCode(key))].Map()
    modifies c.Repr
    ensures var g := c.groups[Slot(c.o.groupCode(key))];
      other in g.Map() ==> g.ValueOf(other) == old(g.ValueOf(other)) && g.StateOf(other) == old(g.StateOf(other))
  {
    c.HolderOwned(key, other);
    r := c.Get(key, now);
  }

  /**
   * A caller's view of putOnFetch: the holder of every other key of the
   * routed group keeps its value and state.
   */
  method FetchKeepsOthers<K(==,!new), V>(c: Cache<K, V>, key: K, other: K, value: Option<V>, expiring: bool, now: int)
    returns (r: Result<Holder<K, V>>)
    requires c.Valid() && c.o.groupCode(key) >= 0 && other != key
    requires other in c.groups[Slot(c.o.groupCode(key))].Map()
    modifies c, c.Repr
    ensures var g := c.groups[Slot(c.o.groupCode(key))];
      other in g.Map() && g.ValueOf(other) == old(g.ValueOf(other)) && g.StateOf(other) == old(g.StateOf(other))
  {
    c.HolderOwned(key, other);
    r := c.PutOnFetch(key, value, expiring, now);
  }

  /**
   * A caller's view of putOnStore: the holder of every other key of the
   * routed group keeps its value and state.
   */
  method StoreKeepsOthers<K(==,!new), V>(c: Cache<K, V>, key: K, other: K, value: Option<V>, expiring: bool, now: int)
    returns (r: Result<Holder<K, V>>)
    requires c.Valid() && c.o.groupCode(key) >= 0 && other != key
    requires other in c.groups[Slot(c.o.groupCode(key))].Map()
    modifies c, c.Repr
    ensures var g := c.groups[Slot(c.o.groupCode(key))];
      other in g.Map() && g.ValueOf(other) == old(g.ValueOf(other)) && g.StateOf(other) == old(g.StateOf(other))
  {
    c.HolderOwned(key, other);
    r := c.PutOnStore(key, value, expiring, now);
  }

  /**
   * A caller's view of putOnDelete: the holder of every other key of the
   * routed group keeps its value and state.
   */
  method DeleteKeepsOthers<K(==,!new), V>(c: Cache<K, V>, key: K, other: K, now: int) returns (r: Outcome)
    requires c.Valid() && c.o.groupCode(key) >= 0 && other != key
    requires other in c.groups[Slot(c.o.groupCode(key))].Map()
    modifies c.Repr
    ensures var g := c.groups[Slot(c.o.groupCode(key))];
      other in g.Map() && g.ValueOf(other) == old(g.ValueOf(other)) && g.StateOf(other) == old(g.StateOf(other))
  {
    c.HolderOwned(key, other);
    r := c.PutOnDelete(key, now);
  }

  /** All the objects of the parts. */
  ghost function Union(ps: seq<set<object>>): (u: set<object>)
    ensures forall i :: 0 <= i < |ps| ==> ps[i] <= u
  {
    if |ps| == 0 then {} else Union(ps[..|ps| - 1]) + ps[|ps| - 1]
  }

  /** An object in none of the parts is not in their union. */
  lemma {:induction false} NotInUnion(ps: seq<set<object>>, x: object)
    requires forall i :: 0 <= i < |ps| ==> x !in ps[i]
    ensures x !in Union(ps)
  {
    if |ps| > 0 {
      NotInUnion(ps[..|ps| - 1], x);
    }
  }

  /** Each group gs[i] owns the objects ps[i], is well formed over o and is empty. */
  ghost predicate AllEmpty<K(!new), V>(gs: seq<Group<K, V>>, ps: seq<set<object>>, o: KeyOrder<K>, ttl: int)
    reads Union(ps)
  {
    && |gs| == |ps|
    && forall i {:trigger Owned(gs[i], ps[i], o)} {:trigger Empty(gs[i], ps[i], ttl)} :: 0 <= i < |gs| ==>
         Owned(gs[i], ps[i], o) && Empty(gs[i], ps[i], ttl)
  }

  lemma AllEmptyAppend<K(!new), V>(gs: seq<Group<K, V>>, ps: seq<set<object>>, o: KeyOrder<K>, ttl: int, g: Group<K, V>)
    requires AllEmpty(gs, ps, o, ttl) && Owned(g, Heads(g), o) && Empty(g, Heads(g), ttl)
    ensures AllEmpty(gs + [g], ps + [Heads(g)], o, ttl)
  {
    var gs', ps' := gs + [g], ps + [Heads(g)];
    forall i | 0 <= i < |gs'| ensures Owned(gs'[i], ps'[i], o) && Empty(gs'[i], ps'[i], ttl) {
      if i < |gs| {
        assert gs'[i] == gs[i] && ps'[i] == ps[i];
      }
    }
  }

  /**
   * What a put needs to remember of a group: its holders by key and its
   * expiring keys.
   */
  datatype Snapshot<K, V> = Snapshot(holders: map<K, Holder<K, V>>, expiring: set<K>)

  /** The snapshot of group g now. */
  ghost function SnapshotOf<K(!new), V>(g: Group<K, V>): (s: Snapshot<K, V>)
    reads g.manual, g.ttl, g.ttl.engine
    ensures s.holders == g.Map() && s.expiring == g.Expiring()
  {
    Snapshot(g.Map(), g.Expiring())
  }

  /**
   * What putOnFetch does to a group whose snapshot was s and whose holder
   * of key (if any) held was: a cached key keeps its holder h and its value
   * and moves to the tier expiring asks for; a new key gets the holder h
   * with value in that tier.
   */
  ghost predicate Fetched<K(!new), V>(g: Group<K, V>, s: Snapshot<K, V>, was: Option<V>, key: K, value: Option<V>, expiring: bool, h: Holder<K, V>)
    reads g.manual, g.ttl, g.ttl.engine, h
  {
    && key in g.Map() && h == g.Map()[key]
    && (key in s.holders ==> h == s.holders[key] && g.Map() == s.holders && h.value == was)
    && (key !in s.holders ==> h.value == value && g.Map() == s.holders[key := h])
    && g.Expiring() == (if expiring then s.expiring + {key} else s.expiring - {key})
  }

  /**
   * What putOnStore does to a group whose snapshot was s: the holder h of
   * key, the cached one or a new one, carries value and sits in the tier
   * expiring asks for.
   */
  ghost predicate Stored<K(!new), V>(g: Group<K, V>, s: Snapshot<K, V>, key: K, value: Option<V>, expiring: bool, h: Holder<K, V>)
    reads g.manual, g.ttl, g.ttl.engine, h
  {
    && key in g.Map() && h == g.Map()[key] && h.value == value
    && (key in s.holders ==> h == s.holders[key] && g.Map() == s.holders)
    && (key !in s.holders ==> g.Map() == s.holders[key := h])
    && g.Expiring() == (if expiring then s.expiring + {key} else s.expiring - {key})
  }

  /**
   * What putOnDelete does to a group: a cached key keeps its holder, which
   * carries no value and sits in the expiring tier (entering its engine at
   * now if it was permanent); an uncached key changes nothing.
   */
  twostate predicate Deleted<K(!new), V>(g: Group<K, V>, key: K, now: int)
    reads g.manual, g.ttl, g.ttl.engine, g.Cells()
  {
    && (old(key in g.Map()) ==> g.Map() == old(g.Map()) && g.Map()[key].value == None && g.Expiring() == old(g.Expiring()) + {key})
    && (old(key in g.Map()) ==> g.ttl.State() == Moved(old(g.ttl.State()), key, true, old(key in g.Expiring()), now))
    && (old(key !in g.Map()) ==> unchanged(g.manual, g.ttl, g.ttl.engine))
  }

  /**
   * The group's putOnFetch on a group that owns the objects p: afterwards
   * it owns p and the holder of key, which is new or was in p already.
   */
  method FetchIn<K(==,!new), V>(g: Group<K, V>, ghost p: set<object>, ghost o: KeyOrder<K>, key: K, value: Option<V>, expiring: bool, now: int)
    returns (h: Holder<K, V>)
    requires Owned(g, p, o)
    modifies p
    ensures Owned(g, p + {h}, o) && (fresh(h) || h in p)
    ensures Fetched(g, old(SnapshotOf(g)), old(if key in g.Map() then g.ValueOf(key) else None), key, value, expiring, h)
    ensures old(key !in g.Map()) ==> fresh(h)
    ensures unchanged(p - {g.manual, g.ttl, g.ttl.engine, h})
  {
    g.CellsAreValues();
    ghost var m0 := g.Map();
    h := g.PutOnFetch(key, value, expiring, now);
    g.CellsAreValues();
    PutValues(m0, key, h);
  }

  /**
   * The group's putOnStore on a group that owns the objects p: afterwards
   * it owns p and the holder of key, which is new or was in p already.
   */
  method StoreIn<K(==,!new), V>(g: Group<K, V>, ghost p: set<object>, ghost o: KeyOrder<K>, key: K, value: Option<V>, expiring: bool, now: int)
    returns (h: Holder<K, V>)
    requires Owned(g, p, o)
    modifies p
    ensures Owned(g, p + {h}, o) && (fresh(h) || h in p)
    ensures Stored(g, old(SnapshotOf(g)), key, value, expiring, h)
    ensures old(key !in g.Map()) ==> fresh(h)
    ensures unchanged(p - {g.manual, g.ttl, g.ttl.engine, h})
  {
    g.CellsAreValues();
    ghost var m0 := g.Map();
    h := g.PutOnStore(key, value, expiring, now);
    g.CellsAreValues();
    PutValues(m0, key, h);
  }

  /** The group's putOnDelete on a group that owns the objects p: it still owns them. */
  method DeleteIn<K(==,!new), V>(g: Group<K, V>, ghost p: set<object>, ghost o: KeyOrder<K>, key: K, now: int)
    requires Owned(g, p, o)
    modifies p
    ensures Owned(g, p, o) && Deleted(g, key, now)
    ensures unchanged(p - {g.manual, g.ttl, g.ttl.engine} - old(g.Cell(key)))
  {
    g.CellsAreValues();
    g.PutOnDelete(key, now);
    g.CellsAreValues();
  }

  /** new Group(ttl): an empty group whose objects are all new. */
  method NewGroup<K(==,!new), V>(o: KeyOrder<K>, groupTtl: int) returns (g: Group<K, V>)
    requires Ordering.Valid(o)
    ensures Owned(g, Heads(g), o) && Empty(g, Heads(g), groupTtl) && fresh(Heads(g))
  {
    g := new Group(o, groupTtl);
    g.EmptyCells();
  }

  /** Adding to part c an object no other part holds keeps the parts pairwise disjoint. */
  lemma GrowApart(ps: seq<set<object>>, c: nat, h: object)
    requires forall i, j {:trigger ApartAt(ps, i, j)} :: ApartAt(ps, i, j)
    requires c < |ps| && forall j :: 0 <= j < |ps| && j != c ==> h !in ps[j]
    ensures forall i, j {:trigger ApartAt(ps[c := ps[c] + {h}], i, j)} :: ApartAt(ps[c := ps[c] + {h}], i, j)
  {
    var ps' := ps[c := ps[c] + {h}];
    forall i, j ensures ApartAt(ps', i, j) {
      assert ApartAt(ps, i, j);
    }
  }

  /** The holders of m after putting h under k are those of m and h. */
  lemma PutValues<K, H>(m: map<K, H>, k: K, h: H)
    ensures m[k := h].Values <= m.Values + {h}
  {
    forall x | x in m[k := h].Values ensures x in m.Values + {h} {
      var k' :| k' in m[k := h] && m[k := h][k'] == x;
      if k' != k { assert m[k'] == x; }
    }
  }

  /** A map whose entries are entries of m has no other values. */
  lemma SubmapValues<K, H>(m: map<K, H>, m': map<K, H>)
    requires forall k :: k in m' ==> k in m && m'[k] == m[k]
    ensures m'.Values <= m.Values
  {
    forall h | h in m'.Values ensures h in m.Values {
      var k :| k in m' && m'[k] == h;
      assert m[k] == h;
    }
  }

  /** A part disjoint from every earlier part keeps the parts pairwise disjoint. */
  lemma ApartAppend(ps: seq<set<object>>, p: set<object>)
    requires forall i, j {:trigger ApartAt(ps, i, j)} :: ApartAt(ps, i, j)
    requires forall i :: 0 <= i < |ps| ==> ps[i] !! p
    ensures forall i, j {:trigger ApartAt(ps + [p], i, j)} :: ApartAt(ps + [p], i, j)
  {
    var qs := ps + [p];
    forall i, j ensures ApartAt(qs, i, j) {
      if 0 <= i < |qs| && 0 <= j < |qs| && i != j {
        if i < |ps| && j < |ps| {
          assert ApartAt(ps, i, j);
        }
      }
    }
  }
}
