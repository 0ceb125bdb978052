/**
 * java.util.TreeMap and java.util.TreeSet as the cache core uses them: the
 * abstract state of an ordered map is the list of its entries sorted strictly
 * by key (a TreeSet is a TreeMap whose values carry nothing). get, put,
 * remove, tailMap(k, true) and headMap(k, true) become functions on that list.
 */
module SortedMaps {
  import opened Wrappers
  import opened Ordering

  /** The entry at i sorts before the entry at j. */
  ghost predicate OrderedAt<K, V>(o: KeyOrder<K>, m: seq<(K, V)>, i: int, j: int) {
    0 <= i < j < |m| ==> o.compare(m[i].0, m[j].0) < 0
  }

  /**
   * Entries in strictly ascending key order. The pairwise law is only
   * instantiated through Before.
   */
  ghost predicate Sorted<K, V>(o: KeyOrder<K>, m: seq<(K, V)>) {
    forall i, j {:trigger OrderedAt(o, m, i, j)} :: OrderedAt(o, m, i, j)
  }

  lemma Before<K, V>(o: KeyOrder<K>, m: seq<(K, V)>, i: nat, j: nat)
    requires Sorted(o, m) && i < j < |m|
    ensures o.compare(m[i].0, m[j].0) < 0
  {
    assert OrderedAt(o, m, i, j);
  }

  /** The map the entry list stands for. */
  ghost function AsMap<K, V>(m: seq<(K, V)>): map<K, V> {
    if |m| == 0 then map[] else AsMap(m[1..])[m[0].0 := m[0].1]
  }

  /** The keys of the map are the keys of its entries. */
  lemma {:induction false} AsMapKeys<K, V>(m: seq<(K, V)>, x: K)
    ensures x in AsMap(m) <==> exists i :: 0 <= i < |m| && m[i].0 == x
  {
    if |m| > 0 {
      AsMapKeys(m[1..], x);
      if x in AsMap(m[1..]) {
        var i :| 0 <= i < |m[1..]| && m[1..][i].0 == x;
        assert m[i + 1].0 == x;
      }
      if exists i :: 0 <= i < |m| && m[i].0 == x {
        var i :| 0 <= i < |m| && m[i].0 == x;
        if i > 0 { assert m[1..][i - 1].0 == x; }
      }
    }
  }

  /** The value the map holds under a key is the value of an entry. */
  lemma {:induction false} AsMapValue<K, V>(m: seq<(K, V)>, x: K)
    requires x in AsMap(m)
    ensures exists i :: 0 <= i < |m| && m[i] == (x, AsMap(m)[x])
  {
    if m[0].0 != x {
      AsMapValue(m[1..], x);
      var i :| 0 <= i < |m[1..]| && m[1..][i] == (x, AsMap(m[1..])[x]);
      assert m[i + 1] == m[1..][i];
    }
  }

  /** A key that sorts before every entry is not in the map. */
  lemma KeyBeforeAllAbsent<K(!new), V>(o: KeyOrder<K>, m: seq<(K, V)>, x: K)
    requires Valid(o)
    requires forall i :: 0 <= i < |m| ==> o.compare(x, m[i].0) < 0
    ensures x !in AsMap(m)
  {
    AsMapKeys(m, x);
  }

  /** Every key of the map sorts after x when every entry does. */
  lemma KeysAfter<K(!new), V>(o: KeyOrder<K>, m: seq<(K, V)>, x: K, y: K)
    requires forall i :: 0 <= i < |m| ==> o.compare(x, m[i].0) < 0
    requires y in AsMap(m)
    ensures o.compare(x, y) < 0
  {
    AsMapKeys(m, y);
  }

  /** In a sorted list the map holds each entry's value under its key. */
  lemma {:induction false} AsMapAt<K(!new), V>(o: KeyOrder<K>, m: seq<(K, V)>, i: nat)
    requires Valid(o) && Sorted(o, m) && i < |m|
    ensures m[i].0 in AsMap(m) && AsMap(m)[m[i].0] == m[i].1
  {
    if i > 0 {
      Before(o, m, 0, i);
      assert m[1..][i - 1] == m[i];
      SuffixSorted(o, m, 1);
      AsMapAt(o, m[1..], i - 1);
    }
  }

  /** The first key of a sorted list does not occur again. */
  lemma HeadNotInTail<K(!new), V>(o: KeyOrder<K>, m: seq<(K, V)>)
    requires Valid(o) && Sorted(o, m) && |m| > 0
    ensures m[0].0 !in AsMap(m[1..])
  {
    forall i | 0 <= i < |m[1..]| ensures o.compare(m[0].0, m[1..][i].0) < 0 {
      assert m[1..][i] == m[i + 1];
      Before(o, m, 0, i + 1);
    }
    KeyBeforeAllAbsent(o, m[1..], m[0].0);
  }

  /** TreeMap.get: the value under k, if any. */
  function Get<K(==), V>(m: seq<(K, V)>, k: K): (r: Option<V>)
    ensures r == if k in AsMap(m) then Some(AsMap(m)[k]) else None
  {
    if |m| == 0 then None
    else if m[0].0 == k then Some(m[0].1)
    else Get(m[1..], k)
  }

  /** Putting e in front of a sorted list that sorts entirely after e keeps it sorted. */
  lemma ConsSorted<K(!new), V>(o: KeyOrder<K>, e: (K, V), m: seq<(K, V)>)
    requires Sorted(o, m)
    requires forall i :: 0 <= i < |m| ==> o.compare(e.0, m[i].0) < 0
    ensures Sorted(o, [e] + m)
  {
    var r := [e] + m;
    forall a, b ensures OrderedAt(o, r, a, b) {
      if 0 <= a < b < |r| {
        assert r[b] == m[b - 1];
        if a > 0 {
          assert r[a] == m[a - 1];
          Before(o, m, a - 1, b - 1);
        }
      }
    }
  }

  lemma AsMapCons<K, V>(e: (K, V), m: seq<(K, V)>)
    ensures AsMap([e] + m) == AsMap(m)[e.0 := e.1]
  {
    assert ([e] + m)[1..] == m;
  }

  /** Every key of the tail of a sorted list sorts after its first key. */
  lemma TailKeysAfterHead<K(!new), V>(o: KeyOrder<K>, m: seq<(K, V)>)
    requires Sorted(o, m) && |m| > 0
    ensures forall y :: y in AsMap(m[1..]) ==> o.compare(m[0].0, y) < 0
  {
    forall y | y in AsMap(m[1..]) ensures o.compare(m[0].0, y) < 0 {
      AsMapKeys(m[1..], y);
      var i :| 0 <= i < |m[1..]| && m[1..][i].0 == y;
      assert m[1..][i] == m[i + 1];
      Before(o, m, 0, i + 1);
    }
  }

  /** A sorted list whose map keys all sort after x can take an entry under x in front. */
  lemma ConsSortedByKeys<K(!new), V>(o: KeyOrder<K>, e: (K, V), r: seq<(K, V)>)
    requires Sorted(o, r)
    requires forall y :: y in AsMap(r) ==> o.compare(e.0, y) < 0
    ensures Sorted(o, [e] + r)
  {
    forall i | 0 <= i < |r| ensures o.compare(e.0, r[i].0) < 0 {
      AsMapKeys(r, r[i].0);
    }
    ConsSorted(o, e, r);
  }

  /** TreeMap.put: replaces the value under k, or inserts (k, v) at its place in key order. */
  function Put<K(==,!new), V>(o: KeyOrder<K>, m: seq<(K, V)>, k: K, v: V): (r: seq<(K, V)>)
    requires Valid(o) && Sorted(o, m)
    ensures Sorted(o, r)
    ensures AsMap(r) == AsMap(m)[k := v]
  {
    if |m| == 0 then [(k, v)]
    else
      assert m == [m[0]] + m[1..];
      AsMapCons(m[0], m[1..]);
      if m[0].0 == k then
        TailKeysAfterHead(o, m);
        SuffixSorted(o, m, 1);
        ConsSortedByKeys(o, (k, v), m[1..]);
        AsMapCons((k, v), m[1..]);
        [(k, v)] + m[1..]
      else if o.compare(k, m[0].0) < 0 then
        forall j | 0 <= j < |m| ensures o.compare(k, m[j].0) < 0 {
          if j > 0 {
            Before(o, m, 0, j);
            Transitive(o, k, m[0].0, m[j].0);
          }
        }
        ConsSorted(o, (k, v), m);
        AsMapCons((k, v), m);
        [(k, v)] + m
      else
        SuffixSorted(o, m, 1);
        var rest := Put(o, m[1..], k, v);
        TailKeysAfterHead(o, m);
        ConsSortedByKeys(o, m[0], rest);
        AsMapCons(m[0], rest);
        [m[0]] + rest
  }

  /** TreeMap.remove: drops the entry under k, if any. */
  function Remove<K(==,!new), V>(o: KeyOrder<K>, m: seq<(K, V)>, k: K): (r: seq<(K, V)>)
    requires Valid(o) && Sorted(o, m)
    ensures Sorted(o, r)
    ensures AsMap(r) == AsMap(m) - {k}
  {
    if |m| == 0 then []
    else
      assert m == [m[0]] + m[1..];
      AsMapCons(m[0], m[1..]);
      if m[0].0 == k then
        HeadNotInTail(o, m);
        SuffixSorted(o, m, 1);
        m[1..]
      else
        SuffixSorted(o, m, 1);
        var rest := Remove(o, m[1..], k);
        TailKeysAfterHead(o, m);
        ConsSortedByKeys(o, m[0], rest);
        AsMapCons(m[0], rest);
        [m[0]] + rest
  }

  /** The list with the entry at index i taken out (Iterator.remove on a TreeMap iterator). */
  function RemoveAt<K, V>(m: seq<(K, V)>, i: nat): (r: seq<(K, V)>)
    requires i < |m|
    ensures |r| == |m| - 1
    ensures forall j :: 0 <= j < i ==> r[j] == m[j]
    ensures forall j :: i <= j < |r| ==> r[j] == m[j + 1]
  {
    m[..i] + m[i + 1..]
  }

  /** Every suffix of a sorted list is sorted. */
  lemma SuffixSorted<K, V>(o: KeyOrder<K>, m: seq<(K, V)>, n: nat)
    requires Sorted(o, m) && n <= |m|
    ensures Sorted(o, m[n..])
  {
    forall a, b ensures OrderedAt(o, m[n..], a, b) {
      if 0 <= a < b < |m[n..]| {
        assert m[n..][a] == m[n + a] && m[n..][b] == m[n + b];
        Before(o, m, n + a, n + b);
      }
    }
  }

  /** Taking out one entry keeps the list sorted. */
  lemma RemoveAtSorted<K, V>(o: KeyOrder<K>, m: seq<(K, V)>, i: nat)
    requires Sorted(o, m) && i < |m|
    ensures Sorted(o, RemoveAt(m, i))
  {
    var r := RemoveAt(m, i);
    forall a, b ensures OrderedAt(o, r, a, b) {
      if 0 <= a < b < |r| {
        var a' := if a < i then a else a + 1;
        var b' := if b < i then b else b + 1;
        assert r[a] == m[a'] && r[b] == m[b'];
        Before(o, m, a', b');
      }
    }
  }

  lemma UpdateRemoveCommute<K, V>(x: map<K, V>, a: K, v: V, b: K)
    requires a != b
    ensures (x - {b})[a := v] == x[a := v] - {b}
  {
  }

  /** Taking out the entry at i removes exactly its key from the map. */
  lemma {:induction false} RemoveAtMap<K(!new), V>(o: KeyOrder<K>, m: seq<(K, V)>, i: nat)
    requires Valid(o) && Sorted(o, m) && i < |m|
    ensures AsMap(RemoveAt(m, i)) == AsMap(m) - {m[i].0}
  {
    if i == 0 {
      assert RemoveAt(m, i) == m[1..];
      HeadNotInTail(o, m);
    } else {
      var t := RemoveAt(m[1..], i - 1);
      assert RemoveAt(m, i) == [m[0]] + t;
      assert m[1..][i - 1] == m[i];
      SuffixSorted(o, m, 1);
      RemoveAtMap(o, m[1..], i - 1);
      Before(o, m, 0, i);
      AsMapCons(m[0], t);
      var x, y := AsMap(m[1..]), m[i].0;
      assert AsMap(m) == x[m[0].0 := m[0].1];
      assert AsMap(t) == x - {y};
      assert m[0].0 != y;
      UpdateRemoveCommute(x, m[0].0, m[0].1, y);
      assert AsMap([m[0]] + t) == AsMap(m) - {y};
      assert AsMap(RemoveAt(m, i)) == AsMap([m[0]] + t);
    }
  }

  /** The index where tailMap(k, true) starts: the first entry whose key is not below k. */
  function LowerBound<K, V>(o: KeyOrder<K>, m: seq<(K, V)>, k: K): (r: nat)
    ensures r <= |m|
    ensures forall i :: 0 <= i < r ==> o.compare(m[i].0, k) < 0
    ensures r < |m| ==> o.compare(m[r].0, k) >= 0
  {
    if |m| == 0 then 0
    else if o.compare(m[0].0, k) >= 0 then 0
    else
      var r := LowerBound(o, m[1..], k);
      assert forall i :: 1 <= i < r + 1 ==> m[i] == m[1..][i - 1];
      r + 1
  }

  /** The length of headMap(k, true): the number of leading entries whose key is not above k. */
  function UpperBound<K, V>(o: KeyOrder<K>, m: seq<(K, V)>, k: K): (r: nat)
    ensures r <= |m|
    ensures forall i :: 0 <= i < r ==> o.compare(m[i].0, k) <= 0
    ensures r < |m| ==> o.compare(m[r].0, k) > 0
  {
    if |m| == 0 then 0
    else if o.compare(m[0].0, k) > 0 then 0
    else
      var r := UpperBound(o, m[1..], k);
      assert forall i :: 1 <= i < r + 1 ==> m[i] == m[1..][i - 1];
      r + 1
  }

  /** The entries whose key p is a prefix of, in key order. */
  function Matching<K, V>(o: KeyOrder<K>, m: seq<(K, V)>, p: K): (r: seq<(K, V)>)
    ensures |r| <= |m|
    ensures forall i :: 0 <= i < |r| ==> r[i] in m && o.isPrefixOf(p, r[i].0)
    ensures forall i :: 0 <= i < |m| && o.isPrefixOf(p, m[i].0) ==> m[i] in r
  {
    if |m| == 0 then []
    else
      assert m == [m[0]] + m[1..];
      (if o.isPrefixOf(p, m[0].0) then [m[0]] else []) + Matching(o, m[1..], p)
  }

  /** The values of a list of entries, in order. */
  function Values<K, V>(m: seq<(K, V)>): (r: seq<V>)
    ensures |r| == |m| && forall i :: 0 <= i < |m| ==> r[i] == m[i].1
  {
    seq(|m|, i requires 0 <= i < |m| => m[i].1)
  }

  /** The run of entries at the head of m whose key p prefixes, up to the first that it does not. */
  function TakeWhilePrefixed<K, V>(o: KeyOrder<K>, m: seq<(K, V)>, p: K): (r: seq<(K, V)>)
    ensures |r| <= |m| && r == m[..|r|]
    ensures forall i :: 0 <= i < |r| ==> o.isPrefixOf(p, m[i].0)
    ensures |r| < |m| ==> !o.isPrefixOf(p, m[|r|].0)
  {
    if |m| == 0 || !o.isPrefixOf(p, m[0].0) then []
    else
      var rest := TakeWhilePrefixed(o, m[1..], p);
      assert forall i :: 1 <= i < |rest| + 1 ==> m[i] == m[1..][i - 1];
      [m[0]] + rest
  }

  /** The leading run of entries that p prefixes ends at the first entry it does not prefix. */
  lemma TakeWhileEndsAt<K, V>(o: KeyOrder<K>, m: seq<(K, V)>, p: K, n: nat)
    requires n <= |m| && (forall j :: 0 <= j < n ==> o.isPrefixOf(p, m[j].0))
    requires n < |m| ==> !o.isPrefixOf(p, m[n].0)
    ensures TakeWhilePrefixed(o, m, p) == m[..n]
  {
  }

  /** No entry below the lower bound of p has a key that p prefixes. */
  lemma {:induction false} MatchingSkipsBelow<K(!new), V>(o: KeyOrder<K>, m: seq<(K, V)>, p: K, n: nat)
    requires Valid(o) && n <= |m|
    requires forall i :: 0 <= i < n ==> o.compare(m[i].0, p) < 0
    ensures Matching(o, m, p) == Matching(o, m[n..], p)
  {
    if n > 0 {
      assert o.compare(m[0].0, p) < 0;
      assert !o.isPrefixOf(p, m[0].0);
      assert m[1..][n - 1..] == m[n..];
      forall i | 0 <= i < n - 1 ensures o.compare(m[1..][i].0, p) < 0 {
        assert m[1..][i] == m[i + 1];
      }
      MatchingSkipsBelow(o, m[1..], p, n - 1);
    }
  }

  /** After a sorted entry not covered by p (and not below p), no entry is covered by p. */
  lemma NothingPrefixedAfterMiss<K(!new), V>(o: KeyOrder<K>, m: seq<(K, V)>, p: K)
    requires Valid(o) && Sorted(o, m) && |m| > 0
    requires o.compare(m[0].0, p) >= 0 && !o.isPrefixOf(p, m[0].0)
    ensures Matching(o, m[1..], p) == []
  {
    assert o.compare(p, m[0].0) <= 0;
    forall i | 0 <= i < |m[1..]| ensures !o.isPrefixOf(p, m[1..][i].0) {
      assert m[1..][i] == m[i + 1];
      Before(o, m, 0, i + 1);
      if o.isPrefixOf(p, m[i + 1].0) {
        Contiguous(o, p, m[0].0, m[i + 1].0);
      }
    }
    MatchingNone(o, m[1..], p);
  }

  /** With no key that p prefixes, nothing matches. */
  lemma {:induction false} MatchingNone<K, V>(o: KeyOrder<K>, m: seq<(K, V)>, p: K)
    requires forall i :: 0 <= i < |m| ==> !o.isPrefixOf(p, m[i].0)
    ensures Matching(o, m, p) == []
  {
    if |m| > 0 {
      forall i | 0 <= i < |m[1..]| ensures !o.isPrefixOf(p, m[1..][i].0) {
        assert m[1..][i] == m[i + 1];
      }
      MatchingNone(o, m[1..], p);
    }
  }

  /** In a sorted run whose keys are not below p, the covered entries are exactly the leading run. */
  lemma {:induction false} MatchingIsLeadingRun<K(!new), V>(o: KeyOrder<K>, m: seq<(K, V)>, p: K)
    requires Valid(o) && Sorted(o, m)
    requires forall i :: 0 <= i < |m| ==> o.compare(m[i].0, p) >= 0
    ensures Matching(o, m, p) == TakeWhilePrefixed(o, m, p)
  {
    if |m| > 0 {
      if o.isPrefixOf(p, m[0].0) {
        forall i | 0 <= i < |m[1..]| ensures o.compare(m[1..][i].0, p) >= 0 {
          assert m[1..][i] == m[i + 1];
        }
        SuffixSorted(o, m, 1);
        MatchingIsLeadingRun(o, m[1..], p);
      } else {
        NothingPrefixedAfterMiss(o, m, p);
      }
    }
  }

  /**
   * The scan that iterating tailMap(p, true) performs, stopping at the first
   * key that p does not prefix, yields exactly the entries whose key p prefixes.
   */
  lemma PrefixScanIsMatching<K(!new), V>(o: KeyOrder<K>, m: seq<(K, V)>, p: K)
    requires Valid(o) && Sorted(o, m)
    ensures TakeWhilePrefixed(o, m[LowerBound(o, m, p)..], p) == Matching(o, m, p)
  {
    var lb := LowerBound(o, m, p);
    MatchingSkipsBelow(o, m, p, lb);
    SuffixSorted(o, m, lb);
    NotBelowAfterLowerBound(o, m, p);
    MatchingIsLeadingRun(o, m[lb..], p);
  }

  /**
   * Iterating tailMap(p, true) and stopping at the first key that p does
   * not prefix: the values of the entries whose key p prefixes, in key order.
   */
  method PrefixValues<K(!new), V>(o: KeyOrder<K>, m: seq<(K, V)>, p: K) returns (vs: seq<V>)
    requires Valid(o) && Sorted(o, m)
    ensures vs == Values(Matching(o, m, p))
  {
    vs := RunValues(o, m, p, LowerBound(o, m, p));
    PrefixScanIsMatching(o, m, p);
  }

  /** The loop of PrefixValues from entry lb on: the values of the leading run of keys that p prefixes. */
  method RunValues<K, V>(o: KeyOrder<K>, m: seq<(K, V)>, p: K, lb: nat) returns (vs: seq<V>)
    requires lb <= |m|
    ensures vs == Values(TakeWhilePrefixed(o, m[lb..], p))
  {
    var i := lb;
    vs := [];
    while i < |m| && o.isPrefixOf(p, m[i].0)
      invariant lb <= i <= |m|
      invariant forall j :: lb <= j < i ==> o.isPrefixOf(p, m[j].0)
      invariant vs == Values(m[lb..i])
    {
      assert m[lb..i + 1] == m[lb..i] + [m[i]];
      vs := vs + [m[i].1];
      i := i + 1;
    }
    TakeWhileEndsAt(o, m[lb..], p, i - lb);
    assert m[lb..][..i - lb] == m[lb..i];
  }

  /** From the lower bound of p on, no key of a sorted list sorts below p. */
  lemma NotBelowAfterLowerBound<K(!new), V>(o: KeyOrder<K>, m: seq<(K, V)>, p: K)
    requires Valid(o) && Sorted(o, m)
    ensures forall i :: LowerBound(o, m, p) <= i < |m| ==> o.compare(m[i].0, p) >= 0
  {
    var lb := LowerBound(o, m, p);
    forall i | lb < i < |m| ensures o.compare(m[i].0, p) >= 0 {
      Before(o, m, lb, i);
      if o.compare(m[i].0, p) < 0 {
        Transitive(o, m[lb].0, m[i].0, p);
      }
    }
  }

  /** size: a sorted list has one entry per key of its map. */
  lemma {:induction false} SortedSize<K(!new), V>(o: KeyOrder<K>, m: seq<(K, V)>)
    requires Valid(o) && Sorted(o, m)
    ensures |AsMap(m)| == |m|
  {
    if |m| > 0 {
      SuffixSorted(o, m, 1);
      SortedSize(o, m[1..]);
      HeadNotInTail(o, m);
    }
  }

  /** The matching entries of a sorted list come in key order. */
  lemma {:induction false} MatchingSorted<K(!new), V>(o: KeyOrder<K>, m: seq<(K, V)>, p: K)
    requires Valid(o) && Sorted(o, m)
    ensures Sorted(o, Matching(o, m, p))
  {
    if |m| > 0 {
      SuffixSorted(o, m, 1);
      MatchingSorted(o, m[1..], p);
      if o.isPrefixOf(p, m[0].0) {
        var rest := Matching(o, m[1..], p);
        forall i | 0 <= i < |rest| ensures o.compare(m[0].0, rest[i].0) < 0 {
          var j :| 0 <= j < |m[1..]| && m[1..][j] == rest[i];
          assert m[1..][j] == m[j + 1];
          Before(o, m, 0, j + 1);
        }
        ConsSorted(o, m[0], rest);
        assert Matching(o, m, p) == [m[0]] + rest;
      } else {
        assert Matching(o, m, p) == Matching(o, m[1..], p);
      }
    }
  }
}
