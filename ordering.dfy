/**
 * The ordering and prefix contract of the cache's Key interface
 * (core/src/main/java/org/canoegame/entity/Key.java): Comparable, isPrefixOf
 * and groupCode, abstracted as a value that carries the three operations.
 */
module Ordering {

  /** compareTo, isPrefixOf and groupCode of one key type. */
  datatype KeyOrder<!K> = KeyOrder(compare: (K, K) -> int, isPrefixOf: (K, K) -> bool, groupCode: K -> int)

  /** compareTo is transitive on a, b, c. */
  ghost predicate TransitiveAt<K>(o: KeyOrder<K>, a: K, b: K, c: K) {
    o.compare(a, b) < 0 && o.compare(b, c) < 0 ==> o.compare(a, c) < 0
  }

  /** If b sorts between p and a key c that p prefixes, p prefixes b too. */
  ghost predicate ContiguousAt<K>(o: KeyOrder<K>, p: K, b: K, c: K) {
    o.compare(p, b) <= 0 && o.compare(b, c) <= 0 && o.isPrefixOf(p, c) ==> o.isPrefixOf(p, b)
  }

  /** isPrefixOf is transitive on a, b, c. */
  ghost predicate PrefixTransitiveAt<K>(o: KeyOrder<K>, a: K, b: K, c: K) {
    o.isPrefixOf(a, b) && o.isPrefixOf(b, c) ==> o.isPrefixOf(a, c)
  }

  /**
   * What the cache relies on: compareTo is a strict total order whose zero is
   * equality, every key is a prefix of itself, a prefix of a prefix of a key
   * is a prefix of that key, a prefix sorts no later than the keys it
   * prefixes, and the keys a prefix covers are contiguous: whatever sorts
   * between the prefix and a covered key is covered too. The three-key laws
   * are only instantiated through Transitive, PrefixTransitive and Contiguous.
   */
  ghost predicate Valid<K(!new)>(o: KeyOrder<K>) {
    && (forall a, b :: o.compare(a, b) == 0 <==> a == b)
    && (forall a, b :: o.compare(a, b) < 0 <==> o.compare(b, a) > 0)
    && (forall a, b, c {:trigger TransitiveAt(o, a, b, c)} :: TransitiveAt(o, a, b, c))
    && (forall a :: o.isPrefixOf(a, a))
    && (forall a, b, c {:trigger PrefixTransitiveAt(o, a, b, c)} :: PrefixTransitiveAt(o, a, b, c))
    && (forall p, a :: o.isPrefixOf(p, a) ==> o.compare(p, a) <= 0)
    && (forall p, b, c {:trigger ContiguousAt(o, p, b, c)} :: ContiguousAt(o, p, b, c))
  }

  lemma Transitive<K(!new)>(o: KeyOrder<K>, a: K, b: K, c: K)
    requires Valid(o) && o.compare(a, b) < 0 && o.compare(b, c) < 0
    ensures o.compare(a, c) < 0
  {
    assert TransitiveAt(o, a, b, c);
  }

  lemma PrefixTransitive<K(!new)>(o: KeyOrder<K>, a: K, b: K, c: K)
    requires Valid(o) && o.isPrefixOf(a, b) && o.isPrefixOf(b, c)
    ensures o.isPrefixOf(a, c)
  {
    assert PrefixTransitiveAt(o, a, b, c);
  }

  lemma Contiguous<K(!new)>(o: KeyOrder<K>, p: K, b: K, c: K)
    requires Valid(o) && o.compare(p, b) <= 0 && o.compare(b, c) <= 0 && o.isPrefixOf(p, c)
    ensures o.isPrefixOf(p, b)
  {
    assert ContiguousAt(o, p, b, c);
  }

  /** a sorts strictly before b. */
  predicate Less<K>(o: KeyOrder<K>, a: K, b: K) {
    o.compare(a, b) < 0
  }

  /** p is an initial segment of s. */
  predicate IsPrefix(p: seq<int>, s: seq<int>) {
    |p| <= |s| && s[..|p|] == p
  }

  /**
   * Lexicographic comparison in the style of java.lang.String.compareTo: the
   * difference at the first position where the sequences differ, or the
   * difference of the lengths when one is an initial segment of the other.
   */
  function LexCompare(s: seq<int>, t: seq<int>): int
    decreases |s|
  {
    if |s| == 0 || |t| == 0 then |s| - |t|
    else if s[0] != t[0] then s[0] - t[0]
    else LexCompare(s[1..], t[1..])
  }

  lemma {:induction false} LexCompareFlip(s: seq<int>, t: seq<int>)
    ensures LexCompare(t, s) == -LexCompare(s, t)
    decreases |s|
  {
    if |s| > 0 && |t| > 0 && s[0] == t[0] {
      LexCompareFlip(s[1..], t[1..]);
    }
  }

  lemma {:induction false} LexCompareZero(s: seq<int>, t: seq<int>)
    ensures LexCompare(s, t) == 0 <==> s == t
    decreases |s|
  {
    if |s| > 0 && |t| > 0 && s[0] == t[0] {
      LexCompareZero(s[1..], t[1..]);
      if s[1..] == t[1..] {
        assert s == [s[0]] + s[1..] && t == [t[0]] + t[1..];
      }
    }
  }

  lemma {:induction false} LexCompareTransitive(a: seq<int>, b: seq<int>, c: seq<int>)
    requires LexCompare(a, b) < 0 && LexCompare(b, c) < 0
    ensures LexCompare(a, c) < 0
    decreases |a|
  {
    if |a| > 0 && |b| > 0 && |c| > 0 && a[0] == b[0] && b[0] == c[0] {
      LexCompareTransitive(a[1..], b[1..], c[1..]);
    }
  }

  lemma {:induction false} LexPrefixFirst(p: seq<int>, s: seq<int>)
    requires IsPrefix(p, s)
    ensures LexCompare(p, s) <= 0
    decreases |p|
  {
    if |p| > 0 {
      assert s[0] == p[0];
      assert s[1..][..|p| - 1] == p[1..];
      LexPrefixFirst(p[1..], s[1..]);
    }
  }

  /** Whatever sorts between a prefix and a sequence it prefixes starts with that prefix too. */
  lemma {:induction false} LexPrefixContiguous(p: seq<int>, b: seq<int>, c: seq<int>)
    requires LexCompare(p, b) <= 0 && LexCompare(b, c) <= 0 && IsPrefix(p, c)
    ensures IsPrefix(p, b)
    decreases |p|
  {
    if |p| > 0 {
      assert c[0] == p[0];
      assert |b| > 0;
      assert b[0] == p[0];
      assert c[1..][..|p| - 1] == p[1..];
      LexPrefixContiguous(p[1..], b[1..], c[1..]);
      assert b == [b[0]] + b[1..];
      assert b[..|p|] == [b[0]] + b[1..][..|p| - 1];
    }
  }

  /**
   * A key order is valid when compareTo agrees in sign with the lexicographic
   * comparison of an injective projection of the keys and isPrefixOf is
   * "the projection is an initial segment".
   */
  lemma ValidFromLex<K(!new)>(o: KeyOrder<K>, proj: K -> seq<int>)
    requires forall a, b :: proj(a) == proj(b) ==> a == b
    requires forall a, b :: (o.compare(a, b) < 0 <==> LexCompare(proj(a), proj(b)) < 0)
                         && (o.compare(a, b) == 0 <==> LexCompare(proj(a), proj(b)) == 0)
    requires forall a, b :: o.isPrefixOf(a, b) <==> IsPrefix(proj(a), proj(b))
    ensures Valid(o)
  {
    forall a, b ensures o.compare(a, b) == 0 <==> a == b {
      LexCompareZero(proj(a), proj(b));
    }
    forall a, b ensures o.compare(a, b) < 0 <==> o.compare(b, a) > 0 {
      LexCompareFlip(proj(a), proj(b));
    }
    forall a, b, c ensures TransitiveAt(o, a, b, c) {
      if o.compare(a, b) < 0 && o.compare(b, c) < 0 {
        LexCompareTransitive(proj(a), proj(b), proj(c));
      }
    }
    forall a ensures o.isPrefixOf(a, a) {
      assert IsPrefix(proj(a), proj(a));
    }
    forall a, b, c ensures PrefixTransitiveAt(o, a, b, c) {
      if o.isPrefixOf(a, b) && o.isPrefixOf(b, c) {
        assert proj(c)[..|proj(a)|] == proj(c)[..|proj(b)|][..|proj(a)|];
      }
    }
    forall p, a | o.isPrefixOf(p, a) ensures o.compare(p, a) <= 0 {
      LexPrefixFirst(proj(p), proj(a));
    }
    forall p, b, c ensures ContiguousAt(o, p, b, c) {
      if o.compare(p, b) <= 0 && o.compare(b, c) <= 0 && o.isPrefixOf(p, c) {
        LexPrefixContiguous(proj(p), proj(b), proj(c));
      }
    }
  }
}
