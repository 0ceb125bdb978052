/**
 * The Java long behind both FieldSet classes, read as a set of field
 * numbers: bit n of the mask stands for the field numbered n. The set
 * algebra, Long.bitCount, Long.numberOfTrailingZeros and the iterator's
 * `x & -x` step are stated here once, over `bv64`.
 */
module Masks {

  /** A field number: a bit position of a 64-bit mask. */
  type Index = n: bv8 | n < 64

  /** 1L << n: the mask holding n alone. */
  function Bit(n: Index): bv64 {
    1 << n
  }

  /** Bit n of x is set. */
  predicate Has(x: bv64, n: Index) {
    x & Bit(n) != 0
  }

  /** No bit of x below position n is set. */
  predicate Low(x: bv64, n: Index) {
    x & (Bit(n) - 1) == 0
  }

  /** The field numbers below k. */
  function Below(k: bv8): set<Index>
    requires k <= 64
  {
    if k == 0 then {} else Below(k - 1) + {(k - 1) as Index}
  }

  /** Every field number a mask can hold. */
  const AllIndices: set<Index> := Below(64)

  lemma {:induction false} InBelow(k: bv8, n: Index)
    requires n < k <= 64
    ensures n in Below(k)
    decreases k
  {
    if n < k - 1 { InBelow(k - 1, n); }
  }

  lemma InAll(n: Index)
    ensures n in AllIndices
  {
    InBelow(64, n);
  }

  /** The field numbers below k that x holds. */
  function MembersBelow(x: bv64, k: bv8): set<Index>
    requires k <= 64
  {
    if k == 0 then {}
    else MembersBelow(x, k - 1) + (if Has(x, (k - 1) as Index) then {(k - 1) as Index} else {})
  }

  /** The field numbers x holds. */
  function Members(x: bv64): set<Index> {
    MembersBelow(x, 64)
  }

  lemma {:induction false} InMembersBelow(x: bv64, k: bv8, n: Index)
    requires k <= 64
    ensures n in MembersBelow(x, k) <==> n < k && Has(x, n)
    decreases k
  {
    if k > 0 { InMembersBelow(x, k - 1, n); }
  }

  /** n is a member of x exactly when bit n of x is set. */
  lemma InMembers(x: bv64, n: Index)
    ensures n in Members(x) <==> Has(x, n)
  {
    InMembersBelow(x, 64, n);
  }

  /**
   * Long.bitCount, counting the set bits by clearing the lowest one at a
   * time: the number of members.
   */
  function BitCount(x: bv64): (c: nat)
    ensures c == |Members(x)|
    decreases |Members(x)|
  {
    if x == 0 then
      MembersConstants();
      0
    else
      LowestBit(x);
      1 + BitCount(x - (x & -x))
  }

  /** The lowest set bit of x at or above i, when x has none below i. */
  function Scan(x: bv64, i: Index): (n: Index)
    requires x != 0 && Low(x, i)
    ensures i <= n && Has(x, n) && Low(x, n)
    decreases 64 - i
  {
    if Has(x, i) then i
    else if i == 63 then TopBit(x); assert false; i
    else
      NextLow(x, i);
      Scan(x, i + 1)
  }

  /**
   * Long.numberOfTrailingZeros of a non-zero mask: the smallest of its
   * members.
   */
  function TrailingZeros(x: bv64): (n: Index)
    requires x != 0
    ensures n in Members(x)
    ensures forall j :: j in Members(x) ==> n <= j
  {
    LowZero(x);
    var n := Scan(x, 0);
    Least(x, n);
    InMembers(x, n);
    n
  }

  /** With no bit below n set, every member is at least n. */
  lemma Least(x: bv64, n: Index)
    requires Low(x, n)
    ensures forall j :: j in Members(x) ==> n <= j
  {
    forall j | j in Members(x) ensures n <= j {
      InMembers(x, j);
      if j < n { LowBelow(x, n, j); }
    }
  }

  /** The mask 1L << n holds n and nothing else. */
  lemma MembersBit(n: Index)
    ensures Members(Bit(n)) == {n}
  {
    forall j | j in Members(Bit(n)) ensures j == n {
      InMembers(Bit(n), j);
      BitOnly(n, j);
    }
    InMembers(Bit(n), n);
    BitHas(n);
  }

  /** Long.numberOfTrailingZeros(1L << n) is n. */
  lemma TrailingZerosBit(n: Index)
    ensures Bit(n) != 0 && TrailingZeros(Bit(n)) == n
  {
    BitHas(n);
    MembersBit(n);
  }

  /**
   * unseen & -unseen isolates the lowest set bit of unseen, and
   * subtracting it removes exactly that member.
   */
  lemma LowestBit(x: bv64)
    requires x != 0
    ensures x & -x == Bit(TrailingZeros(x))
    ensures Members(x - (x & -x)) == Members(x) - {TrailingZeros(x)}
  {
    var n := TrailingZeros(x);
    Isolate(x, n);
    Clear(x, n);
    MembersAndNot(x, Bit(n));
    MembersBit(n);
  }

  /** `|` is union. */
  lemma MembersOr(x: bv64, y: bv64)
    ensures Members(x | y) == Members(x) + Members(y)
  {
    OrSub(x, y);
    OrSup(x, y);
  }

  lemma OrSub(x: bv64, y: bv64)
    ensures Members(x | y) <= Members(x) + Members(y)
  {
    forall n | n in Members(x | y) ensures n in Members(x) || n in Members(y) {
      InMembers(x | y, n); InMembers(x, n); InMembers(y, n);
      OrSplit(x, y, n);
    }
  }

  lemma OrSup(x: bv64, y: bv64)
    ensures Members(x) + Members(y) <= Members(x | y)
  {
    forall n | n in Members(x) || n in Members(y) ensures n in Members(x | y) {
      InMembers(x | y, n); InMembers(x, n); InMembers(y, n);
      OrJoin(x, y, n);
    }
  }

  /** `&` is intersection. */
  lemma MembersAnd(x: bv64, y: bv64)
    ensures Members(x & y) == Members(x) * Members(y)
  {
    AndSub(x, y);
    AndSup(x, y);
  }

  lemma AndSub(x: bv64, y: bv64)
    ensures Members(x & y) <= Members(x) * Members(y)
  {
    forall n | n in Members(x & y) ensures n in Members(x) && n in Members(y) {
      InMembers(x & y, n); InMembers(x, n); InMembers(y, n);
      AndSplit(x, y, n);
    }
  }

  lemma AndSup(x: bv64, y: bv64)
    ensures Members(x) * Members(y) <= Members(x & y)
  {
    forall n | n in Members(x) && n in Members(y) ensures n in Members(x & y) {
      InMembers(x & y, n); InMembers(x, n); InMembers(y, n);
      AndJoin(x, y, n);
    }
  }

  /** `& ~` is difference. */
  lemma MembersAndNot(x: bv64, y: bv64)
    ensures Members(x & !y) == Members(x) - Members(y)
  {
    AndNotSub(x, y);
    AndNotSup(x, y);
  }

  lemma AndNotSub(x: bv64, y: bv64)
    ensures Members(x & !y) <= Members(x) - Members(y)
  {
    forall n | n in Members(x & !y) ensures n in Members(x) && n !in Members(y) {
      InMembers(x & !y, n); InMembers(x, n); InMembers(y, n);
      AndNotSplit(x, y, n);
    }
  }

  lemma AndNotSup(x: bv64, y: bv64)
    ensures Members(x) - Members(y) <= Members(x & !y)
  {
    forall n | n in Members(x) && n !in Members(y) ensures n in Members(x & !y) {
      InMembers(x & !y, n); InMembers(x, n); InMembers(y, n);
      AndNotJoin(x, y, n);
    }
  }

  /** 0L holds no field number; ~0L holds every one. */
  lemma MembersConstants()
    ensures Members(0) == {}
    ensures Members(!0) == AllIndices
  {
    forall n | n in Members(0) ensures false {
      InMembers(0, n);
      BitHas(n);
    }
    forall n: Index ensures n in Members(!0) && n in AllIndices {
      InMembers(!0, n);
      BitHas(n);
      InAll(n);
    }
  }

  /** Masks with the same members are the same mask. */
  lemma MembersInjective(x: bv64, y: bv64)
    requires Members(x) == Members(y)
    ensures x == y
  {
    if x != y {
      var n := TrailingZeros(x ^ y);
      InMembers(x ^ y, n); InMembers(x, n); InMembers(y, n);
      XorSplit(x, y, n);
      assert false;
    }
  }

  /** A mask is 0 exactly when it holds no field number. */
  lemma MembersEmpty(x: bv64)
    ensures Members(x) == {} <==> x == 0
  {
    MembersConstants();
    if Members(x) == {} { MembersInjective(x, 0); }
  }

  /** `(y & ~x) == 0` is the subset test. */
  lemma MembersSubset(x: bv64, y: bv64)
    ensures y & !x == 0 <==> Members(y) <= Members(x)
  {
    MembersAndNot(y, x);
    MembersEmpty(y & !x);
  }

  /** The members of x in increasing order: the order the iterators yield them in. */
  function Ascending(x: bv64): (s: seq<Index>)
    decreases |Members(x)|
  {
    if x == 0 then []
    else
      LowestBit(x);
      [TrailingZeros(x)] + Ascending(x - (x & -x))
  }

  /**
   * The iterator's step: Ascending(x) starts with the number of the bit
   * `x & -x`, which numberOfTrailingZeros recovers, and goes on with
   * Ascending(x - (x & -x)).
   */
  lemma AscendingStep(x: bv64)
    requires x != 0
    ensures Ascending(x) == [TrailingZeros(x)] + Ascending(x - (x & -x))
    ensures x & -x == Bit(TrailingZeros(x)) && x & -x != 0
    ensures TrailingZeros(x & -x) == TrailingZeros(x)
  {
    LowestBit(x);
    TrailingZerosBit(TrailingZeros(x));
  }

  /** s lists positions in strictly increasing order, so none twice. */
  predicate Increasing(s: seq<Index>) {
    forall i, j :: 0 <= i < j < |s| ==> s[i] < s[j]
  }

  /** Ascending(x) lists every member of x once, in increasing order. */
  lemma AscendingOrder(x: bv64)
    ensures Increasing(Ascending(x))
    ensures forall n :: n in Ascending(x) <==> n in Members(x)
    ensures |Ascending(x)| == BitCount(x)
  {
    AscendingIncreasing(x);
    AscendingMembers(x);
    AscendingLength(x);
  }

  lemma {:induction false} AscendingMembers(x: bv64)
    ensures forall n :: n in Ascending(x) <==> n in Members(x)
    decreases |Members(x)|
  {
    if x != 0 {
      LowestBit(x);
      AscendingMembers(x - (x & -x));
    } else {
      MembersConstants();
    }
  }

  lemma {:induction false} AscendingLength(x: bv64)
    ensures |Ascending(x)| == BitCount(x)
    decreases |Members(x)|
  {
    if x != 0 {
      LowestBit(x);
      AscendingLength(x - (x & -x));
    }
  }

  lemma {:induction false} AscendingIncreasing(x: bv64)
    ensures Increasing(Ascending(x))
    decreases |Members(x)|
  {
    if x != 0 {
      LowestBit(x);
      var rest := x - (x & -x);
      AscendingIncreasing(rest);
      AscendingMembers(rest);
      FirstIsLeast(x, TrailingZeros(x), Ascending(rest));
    }
  }

  /** A smallest member put before an increasing list of other members keeps it increasing. */
  lemma FirstIsLeast(x: bv64, n: Index, s: seq<Index>)
    requires Increasing(s) && forall j :: j in Members(x) ==> n <= j
    requires forall j :: j in s ==> j in Members(x) && j != n
    ensures Increasing([n] + s)
  {
    forall i, j | 0 <= i < j < |[n] + s| ensures ([n] + s)[i] < ([n] + s)[j] {
      if i == 0 {
        assert ([n] + s)[j] == s[j - 1];
        assert s[j - 1] in s;
      } else {
        assert ([n] + s)[i] == s[i - 1] && ([n] + s)[j] == s[j - 1];
      }
    }
  }

  // Bit-level facts, each in one direction over single-bit masks.

  lemma BitHas(n: Index)
    ensures Has(Bit(n), n) && Bit(n) != 0 && !Has(0, n) && Has(!0, n)
  {}

  lemma BitOnly(n: Index, j: Index)
    requires Has(Bit(n), j)
    ensures j == n
  {}

  lemma LowZero(x: bv64)
    ensures Low(x, 0)
  {}

  lemma NextLow(x: bv64, i: Index)
    requires Low(x, i) && !Has(x, i) && i < 63
    ensures Low(x, i + 1)
  {}

  lemma TopBit(x: bv64)
    requires Low(x, 63) && !Has(x, 63)
    ensures x == 0
  {}

  lemma LowBelow(x: bv64, n: Index, j: Index)
    requires Low(x, n) && j < n
    ensures !Has(x, j)
  {}

  lemma Isolate(x: bv64, n: Index)
    requires Has(x, n) && Low(x, n)
    ensures x & -x == Bit(n)
  {}

  lemma Clear(x: bv64, n: Index)
    requires Has(x, n)
    ensures x - Bit(n) == x & !Bit(n)
  {}

  /** Setting bit n sets n and keeps every other bit. */
  lemma HasSet(x: bv64, n: Index, k: Index)
    ensures Has(x | Bit(n), k) <==> Has(x, k) || k == n
  {
    OrSplit(x, Bit(n), k);
    OrJoin(x, Bit(n), k);
    BitHas(n);
    if Has(Bit(n), k) { BitOnly(n, k); }
  }

  /** Clearing bit n clears n and keeps every other bit. */
  lemma HasClear(x: bv64, n: Index, k: Index)
    ensures Has(x & !Bit(n), k) <==> Has(x, k) && k != n
  {
    AndNotSplit(x, Bit(n), k);
    AndNotJoin(x, Bit(n), k);
    BitHas(n);
    if Has(Bit(n), k) { BitOnly(n, k); }
  }

  lemma OrSplit(x: bv64, y: bv64, n: Index)
    ensures Has(x | y, n) ==> Has(x, n) || Has(y, n)
  {}

  lemma OrJoin(x: bv64, y: bv64, n: Index)
    ensures Has(x, n) || Has(y, n) ==> Has(x | y, n)
  {}

  lemma AndSplit(x: bv64, y: bv64, n: Index)
    ensures Has(x & y, n) ==> Has(x, n) && Has(y, n)
  {}

  lemma AndJoin(x: bv64, y: bv64, n: Index)
    ensures Has(x, n) && Has(y, n) ==> Has(x & y, n)
  {}

  lemma AndNotSplit(x: bv64, y: bv64, n: Index)
    ensures Has(x & !y, n) ==> Has(x, n) && !Has(y, n)
  {}

  lemma AndNotJoin(x: bv64, y: bv64, n: Index)
    ensures Has(x, n) && !Has(y, n) ==> Has(x & !y, n)
  {}

  lemma XorSplit(x: bv64, y: bv64, n: Index)
    requires Has(x ^ y, n)
    ensures Has(x, n) != Has(y, n)
  {}
}
