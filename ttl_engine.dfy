/**
 * The expiry engine of core/src/main/java/org/canoegame/util/TtlEngine.java:
 * a circular doubly-linked recency list whose head is the most recently
 * touched node. Nodes live in an arena owned by the engine and are
 * addressed by handles (their index); the node fields next, prev, list and
 * accessTime become sequences indexed by handle, the null pointer is -1, and
 * the ghost sequence ring lists the linked nodes from the head on.
 */
module TtlEngines {

  /** The ring position after i in a ring of n nodes. */
  function Succ(i: nat, n: nat): (r: nat)
    requires i < n
    ensures r < n
  {
    if i + 1 == n then 0 else i + 1
  }

  /** Positions i and j of r hold different nodes. */
  ghost predicate DistinctAt(r: seq<nat>, i: int, j: int) {
    0 <= i < j < |r| ==> r[i] != r[j]
  }

  /**
   * No node occurs twice in r. The pairwise law is only instantiated through
   * Apart, which keeps the solver from pairing up every two positions.
   */
  ghost predicate Distinct(r: seq<nat>) {
    forall i, j {:trigger DistinctAt(r, i, j)} :: DistinctAt(r, i, j)
  }

  lemma Apart(r: seq<nat>, i: nat, j: nat)
    requires Distinct(r) && i < |r| && j < |r| && i != j
    ensures r[i] != r[j]
  {
    if i < j {
      assert DistinctAt(r, i, j);
    } else {
      assert DistinctAt(r, j, i);
    }
  }

  /** The ring position before i in a ring of n nodes. */
  function Pred(i: nat, n: nat): (r: nat)
    requires i < n
    ensures r < n
  {
    if i == 0 then n - 1 else i - 1
  }

  /** next and prev link the nodes of r into a circle in the order of r. */
  ghost predicate Links(r: seq<nat>, next: seq<int>, prev: seq<int>) {
    && (forall i :: 0 <= i < |r| ==> r[i] < |next| && r[i] < |prev|)
    && (forall i {:trigger next[r[i]]} :: 0 <= i < |r| ==> next[r[i]] == r[Succ(i, |r|)])
    && (forall i {:trigger prev[r[i]]} :: 0 <= i < |r| ==> prev[r[i]] == r[Pred(i, |r|)])
  }

  /** r with n taken out, the others in their order. */
  function Without(r: seq<nat>, n: nat): (w: seq<nat>)
    ensures |w| <= |r|
  {
    if |r| == 0 then []
    else (if r[0] == n then [] else [r[0]]) + Without(r[1..], n)
  }

  /** r after touching each of nodes in turn: each one moves to the head. */
  function TouchedRing(r: seq<nat>, nodes: seq<nat>): (t: seq<nat>)
    decreases |nodes|
  {
    if |nodes| == 0 then r
    else var n := nodes[|nodes| - 1]; [n] + Without(TouchedRing(r, nodes[..|nodes| - 1]), n)
  }

  /** r with each of ns taken out in turn, the others in their order. */
  function WithoutAll(r: seq<nat>, ns: seq<nat>): (w: seq<nat>)
    ensures |w| <= |r|
    decreases |ns|
  {
    if |ns| == 0 then r else Without(WithoutAll(r, ns[..|ns| - 1]), ns[|ns| - 1])
  }

  /** Taking out one more node. */
  lemma WithoutAllStep(r: seq<nat>, ns: seq<nat>, n: nat)
    ensures WithoutAll(r, ns + [n]) == Without(WithoutAll(r, ns), n)
  {
    assert (ns + [n])[..|ns|] == ns;
  }

  /** Touching nodes of r keeps every node of r in the ring. */
  lemma {:induction false} TouchedRingKeeps(r: seq<nat>, nodes: seq<nat>, x: nat)
    requires x in r
    ensures x in TouchedRing(r, nodes)
    decreases |nodes|
  {
    if |nodes| > 0 {
      var init := nodes[..|nodes| - 1];
      TouchedRingKeeps(r, init, x);
      WithoutMembers(TouchedRing(r, init), nodes[|nodes| - 1]);
    }
  }

  /** Touching one more node moves it to the head of the ring touched so far. */
  lemma TouchedRingStep(r: seq<nat>, nodes: seq<nat>, i: nat)
    requires i < |nodes|
    ensures TouchedRing(r, nodes[..i + 1]) == [nodes[i]] + Without(TouchedRing(r, nodes[..i]), nodes[i])
  {
    assert nodes[..i + 1][..i] == nodes[..i];
  }

  /** The values of nodes, in the order of nodes. */
  function Gather<T>(values: seq<T>, nodes: seq<nat>): (g: seq<T>)
    requires forall j :: 0 <= j < |nodes| ==> nodes[j] < |values|
    ensures |g| == |nodes|
    ensures forall j :: 0 <= j < |nodes| ==> g[j] == values[nodes[j]]
    decreases |nodes|
  {
    if |nodes| == 0 then [] else Gather(values, nodes[..|nodes| - 1]) + [values[nodes[|nodes| - 1]]]
  }

  /** Gathering one more node. */
  lemma GatherStep<T>(values: seq<T>, nodes: seq<nat>, i: nat)
    requires i < |nodes| && forall j :: 0 <= j < |nodes| ==> nodes[j] < |values|
    ensures Gather(values, nodes[..i + 1]) == Gather(values, nodes[..i]) + [values[nodes[i]]]
  {
    assert nodes[..i + 1][..i] == nodes[..i];
  }

  /** accessTime after stamping each of nodes with now in turn. */
  function Stamped(a: seq<int>, nodes: seq<nat>, now: int): (b: seq<int>)
    decreases |nodes|
  {
    if |nodes| == 0 then a
    else
      var n, s := nodes[|nodes| - 1], Stamped(a, nodes[..|nodes| - 1], now);
      if n < |s| then s[n := now] else s
  }

  /** Stamping touches exactly the nodes stamped: they read now, the others as before. */
  lemma {:induction false} StampedAt(a: seq<int>, nodes: seq<nat>, now: int)
    ensures |Stamped(a, nodes, now)| == |a|
    ensures forall n :: 0 <= n < |a| ==> Stamped(a, nodes, now)[n] == if n in nodes then now else a[n]
    decreases |nodes|
  {
    if |nodes| > 0 {
      var init := nodes[..|nodes| - 1];
      StampedAt(a, init, now);
      assert nodes == init + [nodes[|nodes| - 1]];
    }
  }

  /** Stamping one more node. */
  lemma StampedStep(a: seq<int>, nodes: seq<nat>, i: nat, now: int)
    requires i < |nodes|
    ensures Stamped(a, nodes[..i + 1], now) == var s := Stamped(a, nodes[..i], now); if nodes[i] < |s| then s[nodes[i] := now] else s
  {
    assert nodes[..i + 1][..i] == nodes[..i];
  }

  /** Without keeps exactly the other nodes. */
  lemma {:induction false} WithoutMembers(r: seq<nat>, n: nat)
    ensures forall x :: x in Without(r, n) <==> x in r && x != n
  {
    if |r| > 0 {
      WithoutMembers(r[1..], n);
      assert r == [r[0]] + r[1..];
    }
  }

  /** A slice of a sequence without repetitions has none either. */
  lemma DistinctSlice(r: seq<nat>, lo: nat, hi: nat)
    requires Distinct(r) && lo <= hi <= |r|
    ensures Distinct(r[lo..hi])
  {
    forall j, k ensures DistinctAt(r[lo..hi], j, k) {
      if 0 <= j < k < hi - lo {
        Apart(r, lo + j, lo + k);
      }
    }
  }

  /** The node at i occurs nowhere else in r. */
  lemma Unique(r: seq<nat>, i: nat)
    requires Distinct(r) && i < |r|
    ensures r[i] !in r[..i] && r[i] !in r[i + 1..]
  {
    forall k | 0 <= k < |r| && k != i ensures r[k] != r[i] {
      Apart(r, k, i);
    }
  }

  /** In a ring without repetitions, taking out the node at i leaves the others around it. */
  lemma {:induction false} WithoutAt(r: seq<nat>, i: nat)
    requires Distinct(r) && i < |r|
    ensures Without(r, r[i]) == r[..i] + r[i + 1..]
  {
    if i == 0 {
      assert r[1..] == r[..0] + r[1..];
      Unique(r, 0);
      WithoutAbsent(r[1..], r[0]);
    } else {
      assert r[1..][i - 1] == r[i];
      Apart(r, 0, i);
      DistinctSlice(r, 1, |r|);
      assert r[1..|r|] == r[1..];
      WithoutAt(r[1..], i - 1);
      assert r[..i] + r[i + 1..] == [r[0]] + (r[1..][..i - 1] + r[1..][i..]);
    }
  }

  /** Taking out a node that is not there changes nothing. */
  lemma {:induction false} WithoutAbsent(r: seq<nat>, n: nat)
    requires n !in r
    ensures Without(r, n) == r
  {
    if |r| > 0 {
      assert r[1..] + [] == r[1..];
      WithoutAbsent(r[1..], n);
      assert r == [r[0]] + r[1..];
    }
  }

  /** Taking the node at i out of r leaves no repetition. */
  lemma RemoveAtDistinct(r: seq<nat>, i: nat)
    requires Distinct(r) && i < |r|
    ensures Distinct(r[..i] + r[i + 1..])
  {
    var w := r[..i] + r[i + 1..];
    forall j | 0 <= j < |w| ensures w[j] == r[if j < i then j else j + 1] {
    }
    forall j, k ensures DistinctAt(w, j, k) {
      if 0 <= j < k < |w| {
        Apart(r, if j < i then j else j + 1, if k < i then k else k + 1);
      }
    }
  }

  /** Unlinking the node at i (Java's node.next.prev = node.prev; node.prev.next = node.next). */
  lemma UnlinkKeepsLinks(r: seq<nat>, next: seq<int>, prev: seq<int>, i: nat)
    requires Links(r, next, prev) && Distinct(r) && i < |r| && |r| >= 2
    ensures var n := r[i];
      var prev' := prev[next[n] := prev[n]];
      && 0 <= prev'[n] < |next|
      && var next' := next[prev'[n] := next[n]];
      && Links(r[..i] + r[i + 1..], next', prev')
      && Distinct(r[..i] + r[i + 1..])
  {
    var L := |r|;
    var n := r[i];
    var a, b := r[Pred(i, L)], r[Succ(i, L)];
    assert prev[n] == a && next[n] == b;
    Apart(r, i, Succ(i, L));
    var prev' := prev[b := a];
    var next' := next[a := b];
    var w := r[..i] + r[i + 1..];
    assert |w| == L - 1;
    forall j | 0 <= j < |w| ensures w[j] == r[if j < i then j else j + 1] {
    }
    RemoveAtDistinct(r, i);
    forall j | 0 <= j < |w| ensures next'[w[j]] == w[Succ(j, |w|)] {
      var J := if j < i then j else j + 1;
      var sj := Succ(j, |w|);
      var SJ := if sj < i then sj else sj + 1;
      assert w[j] == r[J] && w[sj] == r[SJ];
      if J == Pred(i, L) {
        assert SJ == Succ(i, L);
      } else {
        Apart(r, J, Pred(i, L));
        assert SJ == Succ(J, L);
      }
    }
    forall j | 0 <= j < |w| ensures prev'[w[j]] == w[Pred(j, |w|)] {
      var J := if j < i then j else j + 1;
      var pj := Pred(j, |w|);
      var PJ := if pj < i then pj else pj + 1;
      assert w[j] == r[J] && w[pj] == r[PJ];
      if J == Succ(i, L) {
        assert PJ == Pred(i, L);
      } else {
        Apart(r, J, Succ(i, L));
        assert PJ == Pred(J, L);
      }
    }
  }

  /** Linking a new node in front of the head (Java's moveNodeToHead, lines 71-74). */
  lemma LinkKeepsLinks(r: seq<nat>, next: seq<int>, prev: seq<int>, n: nat)
    requires Links(r, next, prev) && Distinct(r) && |r| > 0
    requires n < |next| && n < |prev| && n !in r
    ensures var h := r[0];
      var t := prev[h];
      && 0 <= t < |next|
      && Links([n] + r, next[n := h][t := n], prev[n := t][h := n])
      && Distinct([n] + r)
  {
    var L := |r|;
    var h := r[0];
    var t := prev[h];
    assert t == r[L - 1];
    var w := [n] + r;
    forall j | 0 <= j < |w| ensures next[n := h][t := n][w[j]] == w[Succ(j, |w|)] {
      if 0 < j < L {
        assert next[r[j - 1]] == r[Succ(j - 1, L)];
      }
      LinkNextAt(r, next, n, t, j);
    }
    forall j | 0 <= j < |w| ensures prev[n := t][h := n][w[j]] == w[Pred(j, |w|)] {
      LinkPrevAt(r, next, prev, n, j);
    }
    PrependDistinct(r, n);
  }

  /** A node not in r can go in front of it without repeating. */
  lemma PrependDistinct(r: seq<nat>, n: nat)
    requires Distinct(r) && n !in r
    ensures Distinct([n] + r)
  {
    var w := [n] + r;
    forall j, k ensures DistinctAt(w, j, k) {
      if 0 < j < k < |w| {
        Apart(r, j - 1, k - 1);
      } else if 0 == j < k < |w| {
        assert w[k] == r[k - 1] && r[k - 1] in r;
      }
    }
  }

  /** After linking n in front of the head h, each node's next pointer names its successor in [n] + r. */
  lemma LinkNextAt(r: seq<nat>, next: seq<int>, n: nat, t: nat, j: nat)
    requires Distinct(r) && |r| > 0 && t == r[|r| - 1]
    requires n < |next| && t < |next| && n !in r && j <= |r|
    requires 0 < j < |r| ==> r[j - 1] < |next| && next[r[j - 1]] == r[j]
    ensures next[n := r[0]][t := n][([n] + r)[j]] == ([n] + r)[Succ(j, |r| + 1)]
  {
    var L := |r|;
    var w := [n] + r;
    if j == 0 {
      assert r[L - 1] in r;
      assert w[1] == r[0];
    } else if j < L {
      assert w[j] == r[j - 1] && w[j + 1] == r[j] && Succ(j, |w|) == j + 1;
      Apart(r, j - 1, L - 1);
      assert r[j - 1] in r;
    } else {
      assert w[j] == t && Succ(j, |w|) == 0;
    }
  }

  /** After linking n in front of the head h, each node's prev pointer names its predecessor in [n] + r. */
  lemma LinkPrevAt(r: seq<nat>, next: seq<int>, prev: seq<int>, n: nat, j: nat)
    requires Links(r, next, prev) && Distinct(r) && |r| > 0
    requires n < |next| && n < |prev| && n !in r && j <= |r|
    ensures prev[n := prev[r[0]]][r[0] := n][([n] + r)[j]] == ([n] + r)[Pred(j, |r| + 1)]
  {
    var L := |r|;
    var h := r[0];
    var t := prev[h];
    assert t == r[L - 1];
    var w := [n] + r;
    if j == 0 {
      assert r[0] in r;
      assert w[L] == t;
    } else if j == 1 {
      assert w[1] == h;
    } else {
      assert w[j] == r[j - 1] && w[j - 1] == r[j - 2] && Pred(j, |w|) == j - 1;
      Apart(r, j - 1, 0);
      assert r[j - 1] in r && Pred(j - 1, L) == j - 2;
    }
  }

  /** Closing the ring after the tail run from c on was swept (Java's expire, lines 99-102). */
  lemma CloseKeepsLinks(r: seq<nat>, next: seq<int>, prev: seq<int>, c: nat)
    requires Links(r, next, prev) && Distinct(r) && 0 < c <= |r|
    ensures Links(r[..c], next[r[c - 1] := r[0]], prev[r[0] := r[c - 1]])
    ensures Distinct(r[..c])
  {
    CloseNext(r, next, prev, c);
    ClosePrev(r, next, prev, c);
    DistinctSlice(r, 0, c);
  }

  /** The next pointers of the closed ring: the new tail points back at the head. */
  lemma CloseNext(r: seq<nat>, next: seq<int>, prev: seq<int>, c: nat)
    requires Links(r, next, prev) && Distinct(r) && 0 < c <= |r|
    ensures forall j :: 0 <= j < c ==> next[r[c - 1] := r[0]][r[..c][j]] == r[..c][Succ(j, c)]
  {
    forall j | 0 <= j < c ensures next[r[c - 1] := r[0]][r[..c][j]] == r[..c][Succ(j, c)] {
      CloseNextAt(r, next, prev, c, j);
    }
  }

  lemma CloseNextAt(r: seq<nat>, next: seq<int>, prev: seq<int>, c: nat, j: nat)
    requires Links(r, next, prev) && Distinct(r) && j < c <= |r|
    ensures next[r[c - 1] := r[0]][r[..c][j]] == r[..c][Succ(j, c)]
  {
    assert r[..c][j] == r[j];
    if j < c - 1 {
      Apart(r, j, c - 1);
      assert Succ(j, |r|) == j + 1 && Succ(j, c) == j + 1;
      assert next[r[j]] == r[j + 1];
    } else {
      assert Succ(j, c) == 0;
    }
  }

  /** The prev pointers of the closed ring: the head points back at the new tail. */
  lemma ClosePrev(r: seq<nat>, next: seq<int>, prev: seq<int>, c: nat)
    requires Links(r, next, prev) && Distinct(r) && 0 < c <= |r|
    ensures forall j :: 0 <= j < c ==> prev[r[0] := r[c - 1]][r[..c][j]] == r[..c][Pred(j, c)]
  {
    var w := r[..c];
    var prev' := prev[r[0] := r[c - 1]];
    forall j | 0 <= j < c ensures prev'[w[j]] == w[Pred(j, c)] {
      assert w[j] == r[j];
      if j > 0 {
        Apart(r, j, 0);
        assert Pred(j, |r|) == j - 1 && Pred(j, c) == j - 1;
        assert prev'[r[j]] == prev[r[j]] == r[j - 1] == w[j - 1];
      } else {
        assert Pred(0, c) == c - 1 && w[c - 1] == r[c - 1];
      }
    }
  }

  /**
   * The values of the nodes cut off behind the first c of r, tail first:
   * the order in which expire hands them to the handler.
   */
  ghost predicate Tail<V>(expired: seq<V>, r: seq<nat>, c: nat, values: seq<V>) {
    && c <= |r| && |expired| == |r| - c
    && forall j :: 0 <= j < |expired| ==> r[|r| - 1 - j] < |values| && expired[j] == values[r[|r| - 1 - j]]
  }

  /** The length of what survives a sweep at now: all but the maximal tail run of nodes idle for more than ttl. */
  function Kept(r: seq<nat>, accessTime: seq<int>, now: int, ttl: int): (k: nat)
    requires forall i :: 0 <= i < |r| ==> r[i] < |accessTime|
    ensures k <= |r|
    ensures forall j :: k <= j < |r| ==> now - accessTime[r[j]] > ttl
    ensures k > 0 ==> now - accessTime[r[k - 1]] <= ttl
  {
    if |r| == 0 then 0
    else if now - accessTime[r[|r| - 1]] > ttl then
      var k := Kept(r[..|r| - 1], accessTime, now, ttl);
      assert forall j :: 0 <= j < |r| - 1 ==> r[..|r| - 1][j] == r[j];
      k
    else |r|
  }

  /** The node at i was touched no earlier than the one at j further towards the tail. */
  ghost predicate NewerAt(r: seq<nat>, accessTime: seq<int>, i: int, j: int) {
    0 <= i < j < |r| && r[i] < |accessTime| && r[j] < |accessTime| ==> accessTime[r[i]] >= accessTime[r[j]]
  }

  /** Access times never increase from the head towards the tail (instantiated through Newer). */
  ghost predicate Recency(r: seq<nat>, accessTime: seq<int>) {
    forall i, j {:trigger NewerAt(r, accessTime, i, j)} :: NewerAt(r, accessTime, i, j)
  }

  lemma Newer(r: seq<nat>, accessTime: seq<int>, i: nat, j: nat)
    requires forall k :: 0 <= k < |r| ==> r[k] < |accessTime|
    requires Recency(r, accessTime) && i <= j < |r|
    ensures accessTime[r[i]] >= accessTime[r[j]]
  {
    if i < j {
      assert NewerAt(r, accessTime, i, j);
    }
  }

  /** No node of r was touched after now. */
  ghost predicate NotAfter(r: seq<nat>, accessTime: seq<int>, now: int)
    requires forall i :: 0 <= i < |r| ==> r[i] < |accessTime|
  {
    forall i :: 0 <= i < |r| ==> accessTime[r[i]] <= now
  }

  /**
   * With access times in recency order, a sweep splits the ring by age:
   * every survivor has been idle at most ttl and every swept node longer,
   * so each swept node was touched before each survivor.
   */
  lemma SweepSplitsByAge(r: seq<nat>, accessTime: seq<int>, now: int, ttl: int)
    requires forall i :: 0 <= i < |r| ==> r[i] < |accessTime|
    requires Recency(r, accessTime)
    ensures var k := Kept(r, accessTime, now, ttl);
      && (forall i :: 0 <= i < k ==> now - accessTime[r[i]] <= ttl)
      && (forall i, j :: 0 <= i < k <= j < |r| ==> accessTime[r[j]] < accessTime[r[i]])
  {
    var k := Kept(r, accessTime, now, ttl);
    forall i | 0 <= i < k ensures now - accessTime[r[i]] <= ttl {
      Newer(r, accessTime, i, k - 1);
    }
  }

  /** Removing nodes keeps what is left in recency order. */
  lemma RecencyWithout(r: seq<nat>, accessTime: seq<int>, i: nat, w: seq<nat>)
    requires forall i :: 0 <= i < |r| ==> r[i] < |accessTime|
    requires Recency(r, accessTime) && i < |r| && w == r[..i] + r[i + 1..]
    ensures forall j :: 0 <= j < |w| ==> w[j] < |accessTime|
    ensures Recency(w, accessTime)
  {
    forall j | 0 <= j < |w| ensures w[j] == r[if j < i then j else j + 1] {
    }
    forall j, k ensures NewerAt(w, accessTime, j, k) {
      if 0 <= j < k < |w| {
        Newer(r, accessTime, if j < i then j else j + 1, if k < i then k else k + 1);
      }
    }
  }

  /**
   * The arena fields form a well-formed ring r: the nodes that belong to the
   * engine (list) are those of r plus, while add links it in, the pending one;
   * head is the first node of r, or -1 when r is empty.
   */
  ghost predicate WellFormed(r: seq<nat>, head: int, next: seq<int>, prev: seq<int>, list: seq<bool>, pending: int) {
    && |next| == |list| && |prev| == |list|
    && (forall i :: 0 <= i < |r| ==> r[i] < |list|)
    && Distinct(r)
    && Links(r, next, prev)
    && (forall n :: 0 <= n < |list| ==> (list[n] <==> n in r || n == pending))
    && head == (if |r| == 0 then -1 else r[0])
    && (pending != -1 ==> 0 <= pending < |list| && pending !in r)
  }

  /** add, line 18: a new node joins the arena, owned by the engine but not yet linked. */
  lemma AppendKeepsWellFormed(r: seq<nat>, head: int, next: seq<int>, prev: seq<int>, list: seq<bool>)
    requires WellFormed(r, head, next, prev, list, -1)
    ensures WellFormed(r, head, next + [-1], prev + [-1], list + [true], |list|)
  {
    var next', prev', list' := next + [-1], prev + [-1], list + [true];
    forall i | 0 <= i < |r|
      ensures next'[r[i]] == r[Succ(i, |r|)] && prev'[r[Succ(i, |r|)]] == r[i]
    {
      assert next'[r[i]] == next[r[i]] && prev'[r[Succ(i, |r|)]] == prev[r[Succ(i, |r|)]];
    }
    forall m | 0 <= m < |list'| ensures (list'[m] <==> m in r || m == |list|) {
      if m < |list| {
        assert list'[m] == list[m];
      }
    }
  }

  /**
   * The state of the sweep in expire: the nodes of the ring r from c on are
   * detached, the others still belong to the engine, tail is the last of
   * those and head the first (both -1 when none is left); links are untouched.
   */
  ghost predicate Sweeping(r: seq<nat>, c: nat, tail: int, head: int, next: seq<int>, prev: seq<int>, list: seq<bool>) {
    && |next| == |list| && |prev| == |list|
    && (forall i :: 0 <= i < |r| ==> r[i] < |list|)
    && Distinct(r) && Links(r, next, prev)
    && c <= |r|
    && (forall n :: 0 <= n < |list| ==> (list[n] <==> n in r[..c]))
    && tail == (if c == 0 then -1 else r[c - 1])
    && head == (if c == 0 then -1 else r[0])
  }

  /** expire, line 83: the sweep starts at the tail, before the head. */
  lemma SweepStarts(r: seq<nat>, head: int, next: seq<int>, prev: seq<int>, list: seq<bool>)
    requires WellFormed(r, head, next, prev, list, -1) && head != -1
    ensures 0 <= head < |prev|
    ensures Sweeping(r, |r|, prev[head], head, next, prev, list)
  {
    assert Succ(|r| - 1, |r|) == 0;
    assert r[..|r|] == r;
  }

  /** expire, lines 86-96: the tail node is detached and the sweep moves to the one before it. */
  lemma SweepSteps(r: seq<nat>, c: nat, tail: int, head: int, next: seq<int>, prev: seq<int>, list: seq<bool>)
    requires Sweeping(r, c, tail, head, next, prev, list) && tail != -1
    ensures c > 0 && 0 <= tail < |list|
    ensures tail == head <==> c == 1
    ensures tail != head ==> Sweeping(r, c - 1, prev[tail], head, next, prev, list[tail := false])
    ensures tail == head ==> Sweeping(r, c - 1, -1, -1, next, prev, list[tail := false])
  {
    assert r[..c] == r[..c - 1] + [r[c - 1]];
    Unique(r, c - 1);
    assert r[c - 1] !in r[..c - 1];
    if c >= 2 {
      assert Succ(c - 2, |r|) == c - 1;
    }
  }

  /** expire, lines 99-102: the survivors r[..c] are closed into a ring again. */
  lemma CloseKeepsWellFormed(r: seq<nat>, next: seq<int>, prev: seq<int>, list: seq<bool>, c: nat)
    requires |next| == |list| && |prev| == |list|
    requires (forall i :: 0 <= i < |r| ==> r[i] < |list|) && Distinct(r) && Links(r, next, prev)
    requires 0 < c <= |r|
    requires forall n :: 0 <= n < |list| ==> (list[n] <==> n in r[..c])
    ensures WellFormed(r[..c], r[0], next[r[c - 1] := r[0]], prev[r[0] := r[c - 1]], list, -1)
  {
    CloseKeepsLinks(r, next, prev, c);
  }

  /** expire, lines 91-93: every node was detached and the head is null. */
  lemma EmptyIsWellFormed(next: seq<int>, prev: seq<int>, list: seq<bool>)
    requires |next| == |list| && |prev| == |list|
    requires forall n :: 0 <= n < |list| ==> !list[n]
    ensures WellFormed([], -1, next, prev, list, -1)
  {
  }

  /** remove on the only node of the ring (TtlEngine.java, lines 28-33). */
  lemma RemoveOnlyKeepsWellFormed(r: seq<nat>, head: int, next: seq<int>, prev: seq<int>, list: seq<bool>)
    requires WellFormed(r, head, next, prev, list, -1) && |r| == 1
    ensures next[r[0]] == r[0]
    ensures WellFormed([], -1, next, prev, list[r[0] := false], -1)
  {
    assert Succ(0, 1) == 0;
  }

  /** remove on a node of a ring of two or more (TtlEngine.java, lines 28-40). */
  lemma RemoveKeepsWellFormed(r: seq<nat>, head: int, next: seq<int>, prev: seq<int>, list: seq<bool>, i: nat)
    requires WellFormed(r, head, next, prev, list, -1) && i < |r| && |r| > 1
    ensures next[r[i]] != r[i]
    ensures var n := r[i];
      var head' := if n == head then next[n] else head;
      var prev' := prev[next[n] := prev[n]];
      && 0 <= prev'[n] < |next|
      && WellFormed(r[..i] + r[i + 1..], head', next[prev'[n] := next[n]], prev', list[n := false], -1)
  {
    var n := r[i];
    assert Succ(i, |r|) != i;
    UnlinkKeepsLinks(r, next, prev, i);
    var w := r[..i] + r[i + 1..];
    ListAfterRemoval(r, list, i, w);
    if n == head {
      assert i == 0 && Succ(0, |r|) == 1;
    }
  }

  /** After node r[i] leaves the ring, the nodes that belong to the engine are the others. */
  lemma ListAfterRemoval(r: seq<nat>, list: seq<bool>, i: nat, w: seq<nat>)
    requires (forall n :: 0 <= n < |list| ==> (list[n] <==> n in r)) && i < |r| && r[i] < |list|
    requires Distinct(r) && w == r[..i] + r[i + 1..]
    ensures forall m :: 0 <= m < |list| ==> (list[r[i] := false][m] <==> m in w)
    ensures forall m :: 0 <= m < |list| ==> (list[m] <==> m in w || m == r[i])
    ensures r[i] !in w && Distinct(w)
  {
    forall j | 0 <= j < |w| ensures w[j] == r[if j < i then j else j + 1] {
    }
    Unique(r, i);
    forall j, k ensures DistinctAt(w, j, k) {
      if 0 <= j < k < |w| {
        Apart(r, if j < i then j else j + 1, if k < i then k else k + 1);
      }
    }
    forall m | 0 <= m < |list| && m in r && m != r[i] ensures m in w {
      var k :| 0 <= k < |r| && r[k] == m;
      assert w[if k < i then k else k - 1] == m;
    }
  }

  /** moveNodeToHead, lines 66-69: the node leaves the ring and becomes pending. */
  lemma UnlinkKeepsWellFormed(r: seq<nat>, head: int, next: seq<int>, prev: seq<int>, list: seq<bool>, i: nat)
    requires WellFormed(r, head, next, prev, list, -1) && 0 < i < |r|
    ensures var n := r[i];
      var prev' := prev[next[n] := prev[n]];
      && 0 <= prev'[n] < |next|
      && WellFormed(r[..i] + r[i + 1..], head, next[prev'[n] := next[n]], prev', list, n)
  {
    UnlinkKeepsLinks(r, next, prev, i);
    ListAfterRemoval(r, list, i, r[..i] + r[i + 1..]);
  }

  /** moveNodeToHead, lines 71-75: the pending node is linked in front of the head. */
  lemma LinkKeepsWellFormed(r: seq<nat>, head: int, next: seq<int>, prev: seq<int>, list: seq<bool>, n: nat)
    requires WellFormed(r, head, next, prev, list, n) && |r| > 0
    ensures 0 <= head < |next|
    ensures var next1 := next[n := head];
      var prev1 := prev[n := prev[head]];
      && 0 <= prev1[head] < |next|
      && WellFormed([n] + r, n, next1[prev1[head] := n], prev1[head := n], list, -1)
  {
    LinkKeepsLinks(r, next, prev, n);
    assert prev[n := prev[head]][head] == prev[head];
  }

  /** moveNodeToHead, lines 58-62: the pending node alone makes up the ring. */
  lemma FirstKeepsWellFormed(r: seq<nat>, head: int, next: seq<int>, prev: seq<int>, list: seq<bool>, n: nat)
    requires WellFormed(r, head, next, prev, list, n) && head == -1
    ensures r == []
    ensures WellFormed([n], n, next[n := n], prev[n := n], list, -1)
  {
    assert Succ(0, 1) == 0;
  }

  /** Kept is the only cut with a stale tail run behind it and a fresh node just before it. */
  lemma KeptUnique(r: seq<nat>, accessTime: seq<int>, now: int, ttl: int, c: nat)
    requires forall i :: 0 <= i < |r| ==> r[i] < |accessTime|
    requires c <= |r| && (forall j :: c <= j < |r| ==> now - accessTime[r[j]] > ttl)
    requires c > 0 ==> now - accessTime[r[c - 1]] <= ttl
    ensures c == Kept(r, accessTime, now, ttl)
  {
  }

  /** A touched node moves to the head with stamp now; with no stamp after now, recency order is kept. */
  lemma TouchKeepsOrder(r: seq<nat>, accessTime: seq<int>, n: nat, now: int)
    requires forall i :: 0 <= i < |r| ==> r[i] < |accessTime|
    requires Distinct(r) && n < |accessTime|
    requires Recency(r, accessTime) && NotAfter(r, accessTime, now)
    ensures var w := [n] + Without(r, n);
      var at := accessTime[n := now];
      && (forall i :: 0 <= i < |w| ==> w[i] < |at|)
      && Recency(w, at) && NotAfter(w, at, now)
  {
    var at := accessTime[n := now];
    var u := Without(r, n);
    WithoutMembers(r, n);
    if n in r {
      var i :| 0 <= i < |r| && r[i] == n;
      WithoutAt(r, i);
      RecencyWithout(r, accessTime, i, u);
    } else {
      WithoutAbsent(r, n);
    }
    forall j | 0 <= j < |u| ensures u[j] < |accessTime| && at[u[j]] == accessTime[u[j]] <= now {
      assert u[j] in u;
      var k :| 0 <= k < |r| && r[k] == u[j];
    }
    PrependNewest(u, accessTime, at, n, now);
  }

  /** A node stamped now goes in front of nodes stamped no later, their stamps unchanged. */
  lemma PrependNewest(u: seq<nat>, accessTime: seq<int>, at: seq<int>, n: nat, now: int)
    requires forall j :: 0 <= j < |u| ==> u[j] < |accessTime| && u[j] < |at| && at[u[j]] == accessTime[u[j]] <= now
    requires Recency(u, accessTime) && n < |at| && at[n] == now
    ensures Recency([n] + u, at)
  {
    var w := [n] + u;
    forall i, j ensures NewerAt(w, at, i, j) {
      if 0 <= i < j < |w| {
        assert w[j] == u[j - 1];
        if i > 0 {
          assert w[i] == u[i - 1];
          Newer(u, accessTime, i - 1, j - 1);
        }
      }
    }
  }

  /** A new node leaves the access times of the ring as they were. */
  lemma AppendKeepsOrder(r: seq<nat>, accessTime: seq<int>, t: int, now: int)
    requires forall i :: 0 <= i < |r| ==> r[i] < |accessTime|
    requires Recency(r, accessTime) && NotAfter(r, accessTime, now)
    ensures forall i :: 0 <= i < |r| ==> r[i] < |accessTime + [t]|
    ensures Recency(r, accessTime + [t]) && NotAfter(r, accessTime + [t], now)
  {
    var at := accessTime + [t];
    forall i | 0 <= i < |r| ensures at[r[i]] == accessTime[r[i]] {
    }
    forall i, j ensures NewerAt(r, at, i, j) {
      if 0 <= i < j < |r| {
        Newer(r, accessTime, i, j);
      }
    }
  }

  /** A prefix of a ring in recency order is in recency order. */
  lemma RecencyPrefix(r: seq<nat>, accessTime: seq<int>, now: int, c: nat)
    requires forall i :: 0 <= i < |r| ==> r[i] < |accessTime|
    requires Recency(r, accessTime) && NotAfter(r, accessTime, now) && c <= |r|
    ensures forall i :: 0 <= i < |r[..c]| ==> r[..c][i] < |accessTime|
    ensures Recency(r[..c], accessTime) && NotAfter(r[..c], accessTime, now)
  {
    forall i, j ensures NewerAt(r[..c], accessTime, i, j) {
      if 0 <= i < j < c {
        Newer(r, accessTime, i, j);
      }
    }
  }

  /**
   * expire, lines 83-97, over a snapshot of the arena: walks from the tail
   * towards the head while the node is idle for more than ttl at now,
   * clearing its list flag; returns the new flags and head, the last node
   * left (-1 for none), the values of the cleared nodes tail first, and the
   * number c of nodes left, which is Kept.
   */
  method Sweep<V>(ghost r: seq<nat>, head: int, next: seq<int>, prev: seq<int>, list: seq<bool>,
                  accessTime: seq<int>, values: seq<V>, now: int, ttl: int)
    returns (lst: seq<bool>, hd: int, tail: int, expired: seq<V>, ghost c: nat)
    requires WellFormed(r, head, next, prev, list, -1) && head != -1
    requires |accessTime| == |list| && |values| == |list|
    ensures Sweeping(r, c, tail, hd, next, prev, lst) && |lst| == |list|
    ensures tail != -1 ==> 0 <= tail < |lst| && lst[tail] && 0 <= hd < |prev|
    ensures c == Kept(r, accessTime, now, ttl)
    ensures |expired| == |r| - c
    ensures forall j :: 0 <= j < |expired| ==> expired[j] == values[r[|r| - 1 - j]]
  {
    SweepStarts(r, head, next, prev, list);
    lst, hd, expired, c := list, head, [], |r|;
    tail := prev[hd];
    while tail != -1 && now - accessTime[tail] > ttl
      invariant Sweeping(r, c, tail, hd, next, prev, lst) && |lst| == |list|
      invariant |expired| == |r| - c
      invariant forall j :: 0 <= j < |expired| ==> expired[j] == values[r[|r| - 1 - j]]
      invariant forall j :: c <= j < |r| ==> now - accessTime[r[j]] > ttl
      decreases c
    {
      SweepSteps(r, c, tail, hd, next, prev, lst);
      lst := lst[tail := false];
      expired := expired + [values[tail]];
      if tail == hd {
        hd, tail := -1, -1;
      } else {
        tail := prev[tail];
      }
      c := c - 1;
    }
    if c > 0 {
      assert r[c - 1] in r[..c];
    }
    KeptUnique(r, accessTime, now, ttl, c);
  }

  /** The arena of nodes of one engine. */
  class TtlEngine<V> {
    /** The idle time after which a node expires. */
    const ttl: int
    /** The most recently touched node, -1 for none. */
    var head: int
    var next: seq<int>
    var prev: seq<int>
    /** list[n] holds while node n belongs to this engine (its list pointer is this engine). */
    var list: seq<bool>
    var accessTime: seq<int>
    var values: seq<V>
    /** The nodes of the ring, from the head towards the tail. */
    ghost var ring: seq<nat>

    /** The ring is well formed; pending is a node that add is linking in. */
    ghost predicate Ring(pending: int)
      reads this
    {
      |values| == |list| && |accessTime| == |list| && WellFormed(ring, head, next, prev, list, pending)
    }

    /** A pending node has never been linked (its next pointer is null). */
    ghost predicate Linked(pending: int)
      reads this
    {
      Ring(pending) && (pending != -1 ==> next[pending] == -1)
    }

    ghost predicate Valid()
      reads this
    {
      Ring(-1)
    }

    /** Access times follow the ring order and none lies after now (the clock never runs backwards). */
    ghost predicate Ordered(now: int)
      reads this
    {
      && (forall i :: 0 <= i < |ring| ==> ring[i] < |accessTime|)
      && Recency(ring, accessTime) && NotAfter(ring, accessTime, now)
    }

    constructor (ttl: int)
      ensures Valid() && this.ttl == ttl
      ensures ring == [] && values == []
    {
      this.ttl := ttl;
      head := -1;
      next, prev, list, accessTime, values := [], [], [], [], [];
      ring := [];
    }

    /** Node.isExpired: the node no longer belongs to the engine. */
    function IsExpired(node: nat): (r: bool)
      reads this
      requires Valid() && node < |values|
      ensures r <==> node !in ring
    {
      !list[node]
    }

    /** add: a new node for value, touched at now and so placed at the head. */
    method Add(value: V, now: int) returns (node: nat)
      requires Valid()
      modifies this
      ensures Valid()
      ensures node == old(|values|) && values == old(values) + [value]
      ensures ring == [node] + old(ring)
      ensures accessTime == old(accessTime) + [now]
      ensures old(Ordered(now)) ==> Ordered(now)
    {
      node := NewNode(value, now);
      assert (old(accessTime) + [0])[node := now] == old(accessTime) + [now];
      WithoutAbsent(old(ring), node);
      Touch(node, now);
    }

    /**
     * The Node constructor (lines 121-124) called by add: a node for value
     * that belongs to this engine but is not linked yet; its access time is
     * 0 until add touches it. Ordered at now still holds, since the ring
     * is unchanged.
     */
    method NewNode(value: V, ghost now: int) returns (node: nat)
      requires Valid()
      modifies this
      ensures Linked(node) && node == old(|values|) && list[node]
      ensures ring == old(ring) && values == old(values) + [value] && accessTime == old(accessTime) + [0]
      ensures old(Ordered(now)) ==> Ordered(now)
    {
      ghost var wasOrdered := Ordered(now);
      AppendKeepsWellFormed(ring, head, next, prev, list);
      if wasOrdered {
        AppendKeepsOrder(ring, accessTime, 0, now);
      }
      node := |values|;
      values, next, prev, list, accessTime := values + [value], next + [-1], prev + [-1], list + [true], accessTime + [0];
    }

    /**
     * expire: sweeps from the tail towards the head, detaching every node
     * idle for more than ttl at now and stopping at the first that is not;
     * returns the values of the detached nodes tail first, the order in
     * which the handler receives them.
     */
    method Expire(now: int) returns (expired: seq<V>)
      requires Valid()
      modifies this
      ensures Valid()
      ensures values == old(values) && accessTime == old(accessTime)
      ensures ring == old(ring)[..Kept(old(ring), old(accessTime), now, ttl)]
      ensures Tail(expired, old(ring), |ring|, values)
      ensures old(Ordered(now)) ==> Ordered(now)
    {
      if head == -1 {
        KeptUnique(ring, accessTime, now, ttl, 0);
        return [];
      }
      var lst, hd, tail;
      ghost var c;
      lst, hd, tail, expired, c := Sweep(ring, head, next, prev, list, accessTime, values, now, ttl);
      Close(lst, hd, tail, c, now);
    }

    /** expire, lines 99-102: the nodes that survived the sweep are closed into a ring again. */
    method Close(lst: seq<bool>, hd: int, tail: int, ghost c: nat, ghost now: int)
      requires Sweeping(ring, c, tail, hd, next, prev, lst) && |lst| == |values| && |accessTime| == |values|
      requires tail != -1 ==> 0 <= tail < |lst| && lst[tail] && 0 <= hd < |prev|
      modifies this
      ensures Valid() && ring == old(ring)[..c]
      ensures values == old(values) && accessTime == old(accessTime)
      ensures old(Ordered(now)) ==> Ordered(now)
    {
      if Ordered(now) {
        RecencyPrefix(ring, accessTime, now, c);
      }
      if tail != -1 {
        CloseKeepsWellFormed(ring, next, prev, lst, c);
        list, head, next, prev, ring := lst, hd, next[tail := hd], prev[hd := tail], ring[..c];
      } else {
        EmptyIsWellFormed(next, prev, lst);
        list, head, ring := lst, hd, ring[..c];
      }
    }

    /** remove: a node of this engine leaves the ring, the others stay linked in their order. */
    method Remove(node: nat)
      requires Valid()
      modifies this
      ensures Valid()
      ensures ring == Without(old(ring), node)
      ensures values == old(values) && accessTime == old(accessTime)
    {
      if node >= |list| || !list[node] {
        WithoutAbsent(ring, node);
        return;
      }
      ghost var i :| 0 <= i < |ring| && ring[i] == node;
      WithoutAt(ring, i);
      if |ring| == 1 {
        RemoveOnlyKeepsWellFormed(ring, head, next, prev, list);
      } else {
        RemoveKeepsWellFormed(ring, head, next, prev, list, i);
      }
      var lst, hd, nx, pv := list[node := false], head, next, prev;
      if node == hd {
        if nx[node] == node {
          list, head, ring := lst, -1, [];
          return;
        }
        hd := nx[node];
      }
      pv := pv[nx[node] := pv[node]];
      nx := nx[pv[node] := nx[node]];
      list, head, next, prev, ring := lst, hd, nx, pv, ring[..i] + ring[i + 1..];
    }

    /** touch: a node of this engine is stamped with now and moved to the head. */
    method Touch(node: nat, now: int)
      requires Valid() || Linked(node)
      modifies this
      ensures Valid()
      ensures old(Ordered(now)) ==> Ordered(now)
      ensures values == old(values)
      ensures node < |values| && old(list[node]) ==>
        ring == [node] + Without(old(ring), node) && accessTime == old(accessTime)[node := now]
      ensures !(node < |values| && old(list[node])) ==> ring == old(ring) && accessTime == old(accessTime)
    {
      if node >= |list| || !list[node] {
        return;
      }
      if Ordered(now) {
        TouchKeepsOrder(ring, accessTime, node, now);
      }
      accessTime := accessTime[node := now];
      MoveNodeToHead(node);
    }

    /** moveNodeToHead: links a node of this engine in at the head of the ring. */
    method MoveNodeToHead(node: nat)
      requires Valid() || Linked(node)
      modifies this
      ensures Valid()
      ensures values == old(values) && accessTime == old(accessTime)
      ensures node < |values| && old(list[node]) ==> ring == [node] + Without(old(ring), node)
      ensures !(node < |values| && old(list[node])) ==> ring == old(ring)
    {
      if node == head || node >= |list| || !list[node] {
        if node < |list| && list[node] {
          WithoutAt(ring, 0);
          assert ring == [node] + ring[1..];
        }
        return;
      }
      if head == -1 {
        if Valid() {
          // a node of the ring while the ring is empty
          assert false;
        }
        FirstKeepsWellFormed(ring, head, next, prev, list, node);
        WithoutAbsent(ring, node);
        head, next, prev, ring := node, next[node := node], prev[node := node], [node];
        assert [node] + Without(old(ring), node) == ring;
        return;
      }
      if next[node] != -1 {
        Unlink(node);
      } else {
        WithoutAbsent(ring, node);
      }
      LinkAtHead(node);
    }

    /** moveNodeToHead, lines 66-69: a node of the ring, not the head, is taken out of it. */
    method Unlink(node: nat)
      requires Valid() && node < |list| && list[node] && node != head
      modifies this
      ensures Ring(node) && |ring| > 0
      ensures ring == Without(old(ring), node)
      ensures values == old(values) && accessTime == old(accessTime) && list == old(list)
    {
      ghost var i :| 0 <= i < |ring| && ring[i] == node;
      WithoutAt(ring, i);
      UnlinkKeepsWellFormed(ring, head, next, prev, list, i);
      var pv := prev[next[node] := prev[node]];
      next, prev, ring := next[pv[node] := next[node]], pv, ring[..i] + ring[i + 1..];
    }

    /** moveNodeToHead, lines 71-75: the pending node is linked in front of the head. */
    method LinkAtHead(node: nat)
      requires Ring(node) && |ring| > 0 && node < |list|
      modifies this
      ensures Valid()
      ensures ring == [node] + old(ring)
      ensures values == old(values) && accessTime == old(accessTime) && list == old(list)
    {
      LinkKeepsWellFormed(ring, head, next, prev, list, node);
      var nx, pv := next[node := head], prev[node := prev[head]];
      next, prev, head, ring := nx[pv[head] := node], pv[head := node], node, [node] + ring;
    }
  }
}
