/**
 * Test scenarios replayed on the model: testManualPrefix of
 * core/src/test/java/org/canoegame/entity/CacheTest.java with MockStringKey
 * keys, and testAdd of core/src/test/java/org/canoegame/util/TtlEngineTest.java
 * with each Thread.sleep(500) written as a clock step.
 */
module Scenarios {
  import opened Ordering
  import opened MockKeys
  import opened Prefixes
  import opened TtlEngines

  /**
   * testAdd with a ttl of 1000: node1 is added at 0, node2 and a third node
   * at 500. node1 is still live. At 1000 a sweep expires nothing and node2
   * is touched. At 1500 the sweep expires node1 but not node2, which was
   * touched after it. At 2001 node2 has been idle for more than the ttl and
   * expires too.
   */
  method EngineScenario() returns (expired: seq<bool>)
    ensures expired == [false, true, false, true]
  {
    var e := new TtlEngine<int>(1000);
    var node1 := e.Add(1, 0);
    var node2 := e.Add(2, 500);
    var node3 := e.Add(2, 500);
    assert e.ring == [2, 1, 0] && e.accessTime == [0, 500, 500];
    var x1 := e.IsExpired(node1);
    var rest := LaterSweeps(e);
    expired := [x1] + rest;
  }

  /** testAdd from its first sweep on, with the three nodes added at 0, 500 and 500. */
  method LaterSweeps(e: TtlEngine<int>) returns (expired: seq<bool>)
    requires e.Valid() && e.ttl == 1000 && |e.values| == 3
    requires e.ring == [2, 1, 0] && e.accessTime == [0, 500, 500]
    modifies e
    ensures expired == [true, false, true]
  {
    TestAddSweeps();
    var _ := e.Expire(1000);
    assert !e.IsExpired(1);
    e.Touch(1, 1000);
    assert e.ring == [1, 2, 0];

    var _ := e.Expire(1500);
    assert e.ring == [1, 2];
    var x1 := e.IsExpired(0);
    var x2 := e.IsExpired(1);

    var _ := e.Expire(2001);
    var x3 := e.IsExpired(1);
    expired := [x1, x2, x3];
  }

  /** The sweeps and the touch of testAdd, on the ring and its access times. */
  lemma TestAddSweeps()
    ensures [2, 1, 0][..Kept([2, 1, 0], [0, 500, 500], 1000, 1000)] == [2, 1, 0]
    ensures [1] + Without([2, 1, 0], 1) == [1, 2, 0]
    ensures [1, 2, 0][..Kept([1, 2, 0], [0, 1000, 500], 1500, 1000)] == [1, 2]
    ensures [1, 2][..Kept([1, 2], [0, 1000, 500], 2001, 1000)] == []
  {
    FirstSweep();
    TouchNode2();
    SecondSweep();
    ThirdSweep();
  }

  /** At 1000 no node has been idle for more than 1000. */
  lemma FirstSweep()
    ensures Kept([2, 1, 0], [0, 500, 500], 1000, 1000) == 3
  {
  }

  lemma TouchNode2()
    ensures Without([2, 1, 0], 1) == [2, 0]
  {
    assert [2, 1, 0][1..] == [1, 0] && [1, 0][1..] == [0] && [0][1..] == [];
  }

  /** At 1500 node1 (stamped 0) goes and node3 (stamped 500) stops the sweep. */
  lemma SecondSweep()
    ensures Kept([1, 2, 0], [0, 1000, 500], 1500, 1000) == 2
  {
    assert [1, 2, 0][..2] == [1, 2];
    assert Kept([1, 2], [0, 1000, 500], 1500, 1000) == 2;
  }

  /** At 2001 both node3 and node2 (stamped 1000) have been idle for more than 1000. */
  lemma ThirdSweep()
    ensures Kept([1, 2], [0, 1000, 500], 2001, 1000) == 0
  {
    assert [1, 2][..1] == [1] && [1][..0] == [];
    assert Kept([1], [0, 1000, 500], 2001, 1000) == 0;
  }

  /**
   * testManualPrefix: "a" is added, then "a" and "a_b" are refused
   * because "a" covers them. "a" and "a_b" exist and "b" does not, with
   * one key stored. Then "b" is added and "b_a" refused, leaving two keys.
   */
  method ManualPrefixScenario() returns (adds: seq<bool>, found: seq<bool>, sizes: seq<nat>)
    ensures adds == [true, false, false, true, false]
    ensures found == [true, false, true, true]
    ensures sizes == [1, 2]
  {
    var a, ab, b, ba := StringKey(Utf16("a")), StringKey(Utf16("a_b")), StringKey(Utf16("b")), StringKey(Utf16("b_a"));
    StringOrderValid();
    var o := StringOrder();
    assert o.isPrefixOf(a, ab) && o.isPrefixOf(b, ba);
    assert !o.isPrefixOf(a, b) && !o.isPrefixOf(b, a);
    var p := new ManualPrefix(o);

    var r1 := p.Add(a);
    assert p.Keys() == {a} by { OutsideEmpty(o, a); }
    var r2 := p.Add(a);
    var r3 := p.Add(ab);
    var e1 := p.Exists(a, true);
    var e2 := p.Exists(b, true);
    assert !e2 by { NotCoveredByOne(o, a, b); }
    var e3 := p.Exists(ab, true);
    var s1 := p.Size();
    assert s1 == 1;

    var r4 := p.Add(b);
    assert r4 by { NotCoveredByOne(o, a, b); }
    assert p.Keys() == {a, b} by { OutsideOne(o, a, b); }
    var r5 := p.Add(ba);
    assert !r5 by { assert b in p.Keys(); }
    var e4 := p.Exists(b, true);
    var s2 := p.Size();
    assert s2 == 2;

    adds, found, sizes := [r1, r2, r3, r4, r5], [e1, e2, e3, e4], [s1, s2];
  }

  lemma OutsideEmpty<K>(o: KeyOrder<K>, key: K)
    ensures Outside(o, {}, key) + {key} == {key}
  {
  }

  lemma OutsideOne<K>(o: KeyOrder<K>, a: K, key: K)
    requires !o.isPrefixOf(key, a)
    ensures Outside(o, {a}, key) + {key} == {a, key}
  {
    assert a in Outside(o, {a}, key);
  }

  lemma NotCoveredByOne<K>(o: KeyOrder<K>, a: K, key: K)
    requires !o.isPrefixOf(a, key)
    ensures !Covered(o, {a}, key)
  {
  }
}
