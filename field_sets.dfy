/**
 * org.canoegame.entity.FieldSet: a java.util.Set of the constants of one
 * enum type implementing Field, kept as a 64-bit mask in which bit n
 * stands for the constant whose getNumber() is n; with its iterator.
 *
 * Java classes are identified by name: a constant of class `kind` passes
 * the type check of a set of element type `name` when the two are equal
 * (the source also accepts a constant whose superclass is the element
 * type, which is the same enum seen through a constant-specific body).
 */
module FieldSets {
  import opened Wrappers
  import opened Masks

  /** An enum type implementing Field: its name and its constants' numbers, in declaration order. */
  datatype ElementType = ElementType(name: string, numbers: seq<Index>)

  /** An enum constant implementing Field: the name of its class and its getNumber(). */
  datatype Field = Field(kind: string, number: Index)

  /** The constants of class name whose bits below position k are set in x. */
  function HeldBelow(name: string, x: bv64, k: bv8): set<Field>
    requires k <= 64
  {
    if k == 0 then {}
    else HeldBelow(name, x, k - 1) + (if Has(x, (k - 1) as Index) then {Field(name, (k - 1) as Index)} else {})
  }

  /** The constants of class name that mask x holds: the set a FieldSet stands for. */
  function Held(name: string, x: bv64): set<Field> {
    HeldBelow(name, x, 64)
  }

  lemma {:induction false} InHeldBelow(name: string, x: bv64, k: bv8, f: Field)
    requires k <= 64
    ensures f in HeldBelow(name, x, k) <==> f.kind == name && f.number < k && Has(x, f.number)
    decreases k
  {
    if k > 0 { InHeldBelow(name, x, k - 1, f); }
  }

  /** A constant is held exactly when it is of class name and its bit is set. */
  lemma InHeld(name: string, x: bv64, f: Field)
    ensures f in Held(name, x) <==> f.kind == name && Has(x, f.number)
  {
    InHeldBelow(name, x, 64, f);
  }

  /** The constants of class name whose numbers are in m. */
  function FieldsOf(name: string, m: set<Index>): (s: set<Field>)
    ensures forall f :: f in s <==> f.kind == name && f.number in m
  {
    set n | n in m :: Field(name, n)
  }

  /** The constants a mask holds are those its members number. */
  lemma HeldMembers(name: string, x: bv64)
    ensures Held(name, x) == FieldsOf(name, Members(x))
  {
    forall f ensures f in Held(name, x) <==> f in FieldsOf(name, Members(x)) {
      InHeld(name, x, f);
      InMembers(x, f.number);
    }
  }

  /** Masks of one class are equal exactly when they hold the same constants. */
  lemma HeldInjective(name: string, x: bv64, y: bv64)
    ensures (x == y) == (Held(name, x) == Held(name, y))
  {
    if x != y {
      var n := TrailingZeros(x ^ y);
      InMembers(x ^ y, n);
      XorSplit(x, y, n);
      InHeld(name, x, Field(name, n));
      InHeld(name, y, Field(name, n));
    }
  }

  /** The mask 0 holds nothing, and every other mask holds its lowest member. */
  lemma HeldEmpty(name: string, x: bv64)
    ensures Held(name, 0) == {}
    ensures x != 0 ==> Field(name, TrailingZeros(x)) in Held(name, x)
    ensures (x == 0) == (Held(name, x) == {})
  {
    forall f | f in Held(name, 0) ensures false {
      InHeld(name, 0, f);
      BitHas(f.number);
    }
    if x != 0 {
      InMembers(x, TrailingZeros(x));
      InHeld(name, x, Field(name, TrailingZeros(x)));
    }
  }

  /** Setting bit n adds constant n; the mask changes exactly when it was absent. */
  lemma HeldSet(name: string, x: bv64, n: Index)
    ensures Held(name, x | Bit(n)) == Held(name, x) + {Field(name, n)}
  {
    forall f ensures f in Held(name, x | Bit(n)) <==> f in Held(name, x) || f == Field(name, n) {
      SetAt(name, x, n, f);
    }
  }

  lemma SetAt(name: string, x: bv64, n: Index, f: Field)
    ensures f in Held(name, x | Bit(n)) <==> f in Held(name, x) || f == Field(name, n)
  {
    InHeld(name, x | Bit(n), f);
    InHeld(name, x, f);
    HasSet(x, n, f.number);
  }

  /** Clearing bit n removes constant n; the mask changes exactly when it was present. */
  lemma HeldClear(name: string, x: bv64, n: Index)
    ensures Held(name, x & !Bit(n)) == Held(name, x) - {Field(name, n)}
  {
    forall f ensures f in Held(name, x & !Bit(n)) <==> f in Held(name, x) - {Field(name, n)} {
      ClearAt(name, x, n, f);
    }
  }

  lemma ClearAt(name: string, x: bv64, n: Index, f: Field)
    ensures f in Held(name, x & !Bit(n)) <==> f in Held(name, x) && f != Field(name, n)
  {
    InHeld(name, x & !Bit(n), f);
    InHeld(name, x, f);
    HasClear(x, n, f.number);
    assert f == Field(name, n) <==> f.kind == name && f.number == n;
  }

  /** `|` on masks of one class is union of constants. */
  lemma HeldOr(name: string, x: bv64, y: bv64)
    ensures Held(name, x | y) == Held(name, x) + Held(name, y)
  {
    forall f ensures f in Held(name, x | y) <==> f in Held(name, x) || f in Held(name, y) {
      OrAt(name, x, y, f);
    }
  }

  lemma OrAt(name: string, x: bv64, y: bv64, f: Field)
    ensures f in Held(name, x | y) <==> f in Held(name, x) || f in Held(name, y)
  {
    InHeld(name, x | y, f);
    InHeld(name, x, f);
    InHeld(name, y, f);
    OrSplit(x, y, f.number);
    OrJoin(x, y, f.number);
  }

  /** `&` on masks of one class is intersection of constants. */
  lemma HeldAnd(name: string, x: bv64, y: bv64)
    ensures Held(name, x & y) == Held(name, x) * Held(name, y)
  {
    forall f ensures f in Held(name, x & y) <==> f in Held(name, x) && f in Held(name, y) {
      AndAt(name, x, y, f);
    }
  }

  lemma AndAt(name: string, x: bv64, y: bv64, f: Field)
    ensures f in Held(name, x & y) <==> f in Held(name, x) && f in Held(name, y)
  {
    InHeld(name, x & y, f);
    InHeld(name, x, f);
    InHeld(name, y, f);
    AndSplit(x, y, f.number);
    AndJoin(x, y, f.number);
  }

  /** `& ~` on masks of one class is difference of constants. */
  lemma HeldAndNot(name: string, x: bv64, y: bv64)
    ensures Held(name, x & !y) == Held(name, x) - Held(name, y)
  {
    forall f ensures f in Held(name, x & !y) <==> f in Held(name, x) && f !in Held(name, y) {
      AndNotAt(name, x, y, f);
    }
  }

  lemma AndNotAt(name: string, x: bv64, y: bv64, f: Field)
    ensures f in Held(name, x & !y) <==> f in Held(name, x) && f !in Held(name, y)
  {
    InHeld(name, x & !y, f);
    InHeld(name, x, f);
    InHeld(name, y, f);
    AndNotSplit(x, y, f.number);
    AndNotJoin(x, y, f.number);
  }

  /** `(y & ~x) == 0` on masks of one class is the subset test on constants. */
  lemma HeldSubset(name: string, x: bv64, y: bv64)
    ensures (y & !x == 0) == (Held(name, y) <= Held(name, x))
  {
    MembersSubset(x, y);
    if Held(name, y) <= Held(name, x) {
      forall n | n in Members(y) ensures n in Members(x) {
        InMembers(y, n);
        InMembers(x, n);
        InHeld(name, y, Field(name, n));
        InHeld(name, x, Field(name, n));
      }
    }
    if Members(y) <= Members(x) {
      forall f | f in Held(name, y) ensures f in Held(name, x) {
        InHeld(name, y, f);
        InHeld(name, x, f);
        InMembers(y, f.number);
        InMembers(x, f.number);
      }
    }
  }

  /** Long.bitCount of a mask is the number of constants it holds. */
  lemma HeldSize(name: string, x: bv64)
    ensures BitCount(x) == |Held(name, x)|
  {
    SizeBelow(name, x, 64);
  }

  lemma {:induction false} SizeBelow(name: string, x: bv64, k: bv8)
    requires k <= 64
    ensures |HeldBelow(name, x, k)| == |MembersBelow(x, k)|
    decreases k
  {
    if k > 0 {
      SizeBelow(name, x, k - 1);
      var n := (k - 1) as Index;
      InHeldBelow(name, x, k - 1, Field(name, n));
      InMembersBelow(x, k - 1, n);
    }
  }

  /** Masks of different classes hold no common constant. */
  lemma HeldApart(name: string, name': string, x: bv64, y: bv64)
    requires name != name'
    ensures Held(name, x) * Held(name', y) == {}
  {
    forall f | f in Held(name, x) && f in Held(name', y) ensures false {
      InHeld(name, x, f);
      InHeld(name', y, f);
    }
  }

  // The mask arithmetic of the FieldSet operations, each stated on the
  // constants the masks hold. The class methods below assign their results.

  /** add's `elements | (1L << e.getNumber())`, and whether it differs from elements. */
  method Include(name: string, x: bv64, e: Option<Field>) returns (z: bv64, changed: bool)
    requires e.Some? && e.value.kind == name
    ensures Held(name, z) == Held(name, x) + {e.value}
    ensures changed == (e.value !in Held(name, x))
  {
    z := x | Bit(e.value.number);
    changed := z != x;
    HeldAdd(name, x, e);
    HeldInjective(name, z, x);
    Added(Held(name, x), Held(name, z), e.value);
  }

  lemma HeldAdd(name: string, x: bv64, e: Option<Field>)
    requires e.Some? && e.value.kind == name
    ensures Held(name, x | Bit(e.value.number)) == Held(name, x) + {e.value}
  {
    var f := e.value;
    assert f == Field(name, f.number);
    HeldSet(name, x, f.number);
  }

  /** Adding f changes a set exactly when f was not in it. */
  lemma Added(a: set<Field>, b: set<Field>, f: Field)
    requires b == a + {f}
    ensures (b != a) == (f !in a)
  {
    if f in a { assert b == a; }
  }

  /** remove's `elements & ~(1L << e.getNumber())`, and whether it differs from elements. */
  method Exclude(name: string, x: bv64, e: Option<Field>) returns (z: bv64, changed: bool)
    requires e.Some? && e.value.kind == name
    ensures Held(name, z) == Held(name, x) - {e.value}
    ensures changed == (e.value in Held(name, x))
  {
    z := x & !Bit(e.value.number);
    changed := z != x;
    HeldRemove(name, x, e);
    HeldInjective(name, z, x);
    Removed(Held(name, x), Held(name, z), e.value);
  }

  lemma HeldRemove(name: string, x: bv64, e: Option<Field>)
    requires e.Some? && e.value.kind == name
    ensures Held(name, x & !Bit(e.value.number)) == Held(name, x) - {e.value}
  {
    var f := e.value;
    assert f == Field(name, f.number);
    HeldClear(name, x, f.number);
  }

  /** Removing f changes a set exactly when f was in it. */
  lemma Removed(a: set<Field>, b: set<Field>, f: Field)
    requires b == a - {f}
    ensures (b != a) == (f in a)
  {
    if f !in a { assert b == a; }
  }

  /** addAll's `elements | es.elements` for sets of one element type. */
  method Union(name: string, name': string, x: bv64, y: bv64) returns (z: bv64, changed: bool)
    requires name == name'
    ensures Held(name, z) == Held(name, x) + Held(name', y)
    ensures changed == (Held(name, z) != Held(name, x))
  {
    HeldOr(name, x, y);
    z := x | y;
    HeldInjective(name, z, x);
    changed := z != x;
  }

  /** removeAll's `elements & ~es.elements` for sets of one element type. */
  method Difference(name: string, name': string, x: bv64, y: bv64) returns (z: bv64, changed: bool)
    requires name == name'
    ensures Held(name, z) == Held(name, x) - Held(name', y)
    ensures changed == (Held(name, z) != Held(name, x))
  {
    HeldAndNot(name, x, y);
    z := x & !y;
    HeldInjective(name, z, x);
    changed := z != x;
  }

  /** retainAll's `elements & es.elements` for sets of one element type. */
  method Intersection(name: string, name': string, x: bv64, y: bv64) returns (z: bv64, changed: bool)
    requires name == name'
    ensures Held(name, z) == Held(name, x) * Held(name', y)
    ensures changed == (Held(name, z) != Held(name, x))
  {
    HeldAnd(name, x, y);
    z := x & y;
    HeldInjective(name, z, x);
    changed := z != x;
  }

  /** retainAll's `elements = 0` for a set of another element type, and whether elements was non-zero. */
  method Emptied(name: string, x: bv64) returns (z: bv64, changed: bool)
    ensures Held(name, z) == {}
    ensures changed == (Held(name, x) != {})
  {
    HeldEmpty(name, x);
    z := 0;
    changed := x != 0;
  }

  /** containsAll's `(es.elements & ~elements) == 0` for sets of one element type. */
  function Contained(name: string, name': string, x: bv64, y: bv64): (r: bool)
    requires name == name'
    ensures r == (Held(name', y) <= Held(name, x))
  {
    HeldSubset(name, x, y);
    y & !x == 0
  }

  /** equals' `es.elements == elements` for sets of one element type. */
  function Same(name: string, name': string, x: bv64, y: bv64): (r: bool)
    requires name == name'
    ensures r == (Held(name, x) == Held(name', y))
  {
    HeldInjective(name, y, x);
    y == x
  }

  /** isEmpty's `elements == 0`, and es.isEmpty() in containsAll and addAll. */
  function Empty(name: string, x: bv64): (r: bool)
    ensures r == (Held(name, x) == {})
  {
    HeldEmpty(name, x);
    x == 0
  }

  /** contains' `(elements & (1L << e.getNumber())) != 0` for a constant of the element type. */
  function Member(name: string, x: bv64, e: Option<Field>): (r: bool)
    requires e.Some? && e.value.kind == name
    ensures r == (e.value in Held(name, x))
  {
    InHeld(name, x, e.value);
    x & Bit(e.value.number) != 0
  }

  /** Masks of different element types: removing the other changes nothing and retaining it leaves nothing. */
  lemma HeldForeign(name: string, name': string, x: bv64, y: bv64)
    requires name != name'
    ensures Held(name, x) - Held(name', y) == Held(name, x)
    ensures Held(name, x) * Held(name', y) == {}
    ensures (Held(name', y) <= Held(name, x)) == (Held(name', y) == {})
    ensures (Held(name, x) == Held(name', y)) == (Held(name, x) == {} && Held(name', y) == {})
  {
    forall f | f in Held(name, x) ensures f !in Held(name', y) {
      InHeld(name, x, f);
      InHeld(name', y, f);
    }
  }

  /** The largest of the numbers, or 0 when there is none: getUniverse's max. */
  function MaxNumber(numbers: seq<Index>): (m: Index)
    ensures forall i :: 0 <= i < |numbers| ==> numbers[i] <= m
    ensures m == 0 || m in numbers
  {
    if |numbers| == 0 then 0
    else
      var m := MaxNumber(numbers[..|numbers| - 1]);
      var last := numbers[|numbers| - 1];
      assert forall i :: 0 <= i < |numbers| - 1 ==> numbers[i] == numbers[..|numbers| - 1][i];
      if last > m then last else m
  }

  /** t's constant numbered n, or null when t has none. */
  function Constant(t: ElementType, n: Index): Option<Field> {
    if n in t.numbers then Some(Field(t.name, n)) else None
  }

  /**
   * u is t's universe: one slot per number up to the largest, holding the
   * constant with that number, or null.
   */
  ghost predicate IsUniverse(u: seq<Option<Field>>, t: ElementType) {
    && |u| == MaxNumber(t.numbers) as int + 1
    && forall n: Index :: n as int < |u| ==> u[n as int] == Constant(t, n)
  }

  /** size null slots with the constants of class name numbered by numbers stored in turn, the later winning. */
  function Slots(name: string, numbers: seq<Index>, size: nat): (u: seq<Option<Field>>)
    ensures |u| == size
  {
    if |numbers| == 0 then seq(size, _ => None)
    else
      var u := Slots(name, numbers[..|numbers| - 1], size);
      var n := numbers[|numbers| - 1];
      if n as int < size then u[n as int := Some(Field(name, n))] else u
  }

  /** Slot n holds the constant numbered n when some number is n, and null otherwise. */
  lemma {:induction false} SlotsHold(name: string, numbers: seq<Index>, size: nat, n: Index)
    requires n as int < size
    ensures Slots(name, numbers, size)[n as int] == if n in numbers then Some(Field(name, n)) else None
    decreases |numbers|
  {
    if |numbers| > 0 {
      var init, last := numbers[..|numbers| - 1], numbers[|numbers| - 1];
      SlotsHold(name, init, size, n);
      assert numbers == init + [last];
      if n != last { Apart(n, last); }
    }
  }

  /** Slots sized one past the largest number form t's universe. */
  lemma SlotsUniverse(t: ElementType)
    ensures IsUniverse(Slots(t.name, t.numbers, MaxNumber(t.numbers) as int + 1), t)
  {
    var size := MaxNumber(t.numbers) as int + 1;
    forall n: Index | n as int < size
      ensures Slots(t.name, t.numbers, size)[n as int] == Constant(t, n)
    {
      SlotsHold(t.name, t.numbers, size, n);
    }
  }

  /**
   * getUniverse, the function computeIfAbsent runs: the largest number,
   * then an array of that many slots plus one, each constant stored under
   * its number.
   */
  method GetUniverse(t: ElementType) returns (u: seq<Option<Field>>)
    ensures u == Slots(t.name, t.numbers, MaxNumber(t.numbers) as int + 1)
    ensures IsUniverse(u, t)
  {
    var max := Max(t.numbers);
    var value := new Option<Field>[max as int + 1](_ => None);
    var i := 0;
    while i < |t.numbers|
      invariant 0 <= i <= |t.numbers|
      invariant value[..] == Slots(t.name, t.numbers[..i], value.Length)
    {
      var n := t.numbers[i];
      assert t.numbers[..i + 1][..i] == t.numbers[..i];
      UpTo(n, max);
      value[n as int] := Some(Field(t.name, n));
      i := i + 1;
    }
    assert t.numbers[..i] == t.numbers;
    u := value[..];
    SlotsUniverse(t);
  }

  /** getUniverse's first loop: the largest number, or 0. */
  method Max(numbers: seq<Index>) returns (max: Index)
    ensures max == MaxNumber(numbers)
  {
    max := 0;
    var i := 0;
    while i < |numbers|
      invariant 0 <= i <= |numbers|
      invariant max == MaxNumber(numbers[..i])
    {
      assert numbers[..i + 1][..i] == numbers[..i];
      if numbers[i] > max {
        max := numbers[i];
      }
      i := i + 1;
    }
    assert numbers[..i] == numbers;
  }

  lemma UpTo(n: Index, max: Index)
    requires n <= max
    ensures n as int < max as int + 1
  {}

  lemma Apart(a: Index, b: Index)
    requires a != b
    ensures a as int != b as int
  {}

  /** The mask with the bit of each listed number set. */
  function ConstantsMask(numbers: seq<Index>): (x: bv64)
    ensures Members(x) == set n | n in numbers
  {
    if |numbers| == 0 then
      MembersConstants();
      0
    else
      var init := numbers[..|numbers| - 1];
      var last := numbers[|numbers| - 1];
      MaskStep(ConstantsMask(init), last, init);
      assert numbers == init + [last];
      ConstantsMask(init) | Bit(last)
  }

  lemma MaskStep(x: bv64, n: Index, init: seq<Index>)
    requires Members(x) == set j | j in init
    ensures Members(x | Bit(n)) == set j | j in init + [n]
  {
    MembersOr(x, Bit(n));
    MembersBit(n);
  }

  /** The mask of ConstantsMask holds the constants of class name its numbers number. */
  method AllConstants(name: string, numbers: seq<Index>) returns (x: bv64)
    ensures Held(name, x) == FieldsOf(name, set n | n in numbers)
  {
    x := ConstantsMask(numbers);
    HeldMembers(name, x);
  }

  /** addAll()'s ~0L, which holds every number a mask can hold. */
  method AllBits(name: string) returns (x: bv64)
    ensures Held(name, x) == FieldsOf(name, AllIndices)
  {
    x := !0;
    MembersConstants();
    HeldMembers(name, x);
  }

  /**
   * addAll() as written sets all 64 bits. Take the cache test's
   * MockEntity.Field, with constants numbered 1, 2 and 3 and so a
   * four-slot universe. The set then also holds a number-0 field, whose
   * slot is null, and a number-4 field, which lies past the universe's
   * end; so the iterator yields null, then runs off the array.
   */
  lemma AllBitsOverrun()
    ensures var t := ElementType("MockEntity.Field", [1, 2, 3]);
      && Held(t.name, !0) != FieldsOf(t.name, set n | n in t.numbers)
      && Has(!0, 0) && Has(!0, 4)
      && forall u :: IsUniverse(u, t) ==> |u| == 4 && u[0] == None
  {
    var t := ElementType("MockEntity.Field", [1, 2, 3]);
    var f := Field(t.name, 0);
    InHeld(t.name, !0, f);
    BitHas(0);
    assert f in Held(t.name, !0);
    assert 0 !in t.numbers;
    assert f !in FieldsOf(t.name, set n | n in t.numbers);
    assert t.numbers[..2] == [1, 2] && [1, 2][..1] == [1] && [1][..0] == [];
    assert MaxNumber([1]) == 1;
    assert MaxNumber([1, 2]) == 2;
    assert MaxNumber(t.numbers) == 3;
    forall u | IsUniverse(u, t) ensures |u| == 4 && u[0] == None {
      assert u[0 as Index as int] == Constant(t, 0);
    }
  }

  /**
   * The evidently intended addAll(): a mask holding exactly the type's
   * constants. Iteration over it stays in the universe and finds a
   * constant at every number it visits.
   */
  lemma {:induction false} ConstantsInUniverse(t: ElementType, u: seq<Option<Field>>, x: bv64)
    requires IsUniverse(u, t)
    requires Held(t.name, x) == FieldsOf(t.name, set n | n in t.numbers)
    ensures forall n: Index :: Has(x, n) ==> n as int < |u| && u[n as int] == Some(Field(t.name, n))
  {
    forall n: Index | Has(x, n)
      ensures n as int < |u| && u[n as int] == Some(Field(t.name, n))
    {
      InHeld(t.name, x, Field(t.name, n));
      assert n in t.numbers;
      var i :| 0 <= i < |t.numbers| && t.numbers[i] == n;
      assert n <= MaxNumber(t.numbers);
      assert u[n as int] == Constant(t, n);
    }
  }

  /** size's Long.bitCount. */
  function Count(name: string, x: bv64): (r: nat)
    ensures r == |Held(name, x)|
  {
    HeldSize(name, x);
    BitCount(x)
  }

  /** A FieldSet over elementType; the mask is the whole of its mutable state. */
  class FieldSet {
    const elementType: ElementType
    const universe: seq<Option<Field>>
    var elements: bv64

    /** The constants the set holds, as java.util.Set sees them. */
    ghost function Fields(): set<Field>
      reads this
    {
      Held(elementType.name, elements)
    }

    /** The universe is elementType's. */
    ghost predicate Valid()
      reads this
    {
      IsUniverse(universe, elementType)
    }

    /** new FieldSet(elementType): an empty set with elementType's universe. */
    constructor (elementType: ElementType)
      ensures this.elementType == elementType && Valid() && Fields() == {}
    {
      var u := GetUniverse(elementType);
      var x, _ := Emptied(elementType.name, 0);
      this.elementType := elementType;
      elements := x;
      universe := u;
    }

    /** size: the number of constants held. */
    function Size(): (r: nat)
      reads this
      ensures r == |Fields()|
    {
      Count(elementType.name, elements)
    }

    /** isEmpty: whether no constant is held. */
    function IsEmpty(): (r: bool)
      reads this
      ensures r <==> Fields() == {}
    {
      Empty(elementType.name, elements)
    }

    /** iterator: a new iterator over the current mask. */
    method Iterator() returns (it: FieldSetIterator)
      ensures fresh(it) && it.owner == this && it.unseen == elements && it.lastReturned == 0
      ensures it.Valid()
    {
      it := new FieldSetIterator(this);
    }

    /**
     * contains: null and constants of another class are not held; otherwise
     * the constant's bit decides.
     */
    function Contains(e: Option<Field>): (r: bool)
      reads this
      ensures r <==> e.Some? && e.value in Fields()
    {
      if e.None? then false
      else if e.value.kind != elementType.name then
        InHeld(elementType.name, elements, e.value);
        false
      else Member(elementType.name, elements, e)
    }

    /** typeCheck: a constant of another class is a ClassCastException. */
    function TypeCheck(e: Field): (r: Outcome)
      reads this
      ensures r == Pass <==> e.kind == elementType.name
      ensures r != Pass ==> r == Fail(ClassCast)
    {
      if e.kind != elementType.name then Fail(ClassCast) else Pass
    }

    /**
     * add: null fails with a NullPointerException and a constant of another
     * class with a ClassCastException, both changing nothing; otherwise the
     * constant is added, and the answer is whether it was absent.
     */
    method Add(e: Option<Field>) returns (r: Result<bool>)
      modifies this
      ensures e.None? ==> r == Err(NullPointer) && unchanged(this)
      ensures e.Some? && e.value.kind != elementType.name ==> r == Err(ClassCast) && unchanged(this)
      ensures e.Some? && e.value.kind == elementType.name ==>
        && Fields() == old(Fields()) + {e.value}
        && r == Ok(e.value !in old(Fields()))
    {
      if e.None? {
        return Err(NullPointer);
      }
      var check := TypeCheck(e.value);
      if check.Fail? {
        return Err(check.fault);
      }
      var z, changed := Include(elementType.name, elements, e);
      elements := z;
      r := Ok(changed);
    }

    /**
     * remove: null and constants of another class change nothing and answer
     * false; otherwise the constant is removed, and the answer is whether
     * it was present.
     */
    method Remove(e: Option<Field>) returns (r: bool)
      modifies this
      ensures e.None? || e.value.kind != elementType.name ==> unchanged(this) && !r
      ensures e.Some? && e.value.kind == elementType.name ==>
        && Fields() == old(Fields()) - {e.value}
        && r == (e.value in old(Fields()))
    {
      if e.None? || e.value.kind != elementType.name {
        return false;
      }
      var z, changed := Exclude(elementType.name, elements, e);
      elements := z;
      r := changed;
    }

    /**
     * containsAll on a FieldSet: a set of another element type is contained
     * exactly when it is empty; otherwise `(es & ~e) == 0`. Both are the
     * subset test.
     */
    function ContainsAll(es: FieldSet): (r: bool)
      reads this, es
      ensures r <==> es.Fields() <= Fields()
    {
      if es.elementType.name != elementType.name then
        HeldForeign(elementType.name, es.elementType.name, elements, es.elements);
        es.IsEmpty()
      else
        Contained(elementType.name, es.elementType.name, elements, es.elements)
    }

    /**
     * addAll(): every one of the 64 bits set, as the source writes it,
     * whatever numbers the element type's constants have.
     */
    method AddAllBits() returns (r: FieldSet)
      modifies this
      ensures r == this
      ensures Fields() == FieldsOf(elementType.name, AllIndices)
    {
      elements := AllBits(elementType.name);
      r := this;
    }

    /** addAll() with each constant of the element type set, and only those. */
    method AddAllConstants() returns (r: FieldSet)
      modifies this
      ensures r == this
      ensures Fields() == FieldsOf(elementType.name, set n | n in elementType.numbers)
    {
      elements := AllConstants(elementType.name, elementType.numbers);
      r := this;
    }

    /**
     * addAll on a FieldSet: an empty set of another element type changes
     * nothing and answers false, a non-empty one is a ClassCastException;
     * otherwise the union, answering whether the set changed.
     */
    method AddAll(es: FieldSet) returns (r: Result<bool>)
      modifies this
      ensures es.elementType.name != elementType.name ==>
        && unchanged(this)
        && r == if es.Fields() == {} then Ok(false) else Err(ClassCast)
      ensures es.elementType.name == elementType.name ==>
        && Fields() == old(Fields() + es.Fields())
        && r == Ok(Fields() != old(Fields()))
    {
      if es.elementType.name != elementType.name {
        if es.IsEmpty() {
          return Ok(false);
        } else {
          return Err(ClassCast);
        }
      }
      var z, changed := Union(elementType.name, es.elementType.name, elements, es.elements);
      elements := z;
      r := Ok(changed);
    }

    /**
     * removeAll on a FieldSet: a set of another element type changes
     * nothing; otherwise the difference. The answer is whether the set
     * changed.
     */
    method RemoveAll(es: FieldSet) returns (r: bool)
      modifies this
      ensures es.elementType.name != elementType.name ==> unchanged(this) && !r
      ensures Fields() == old(Fields() - es.Fields()) && r == (Fields() != old(Fields()))
    {
      if es.elementType.name != elementType.name {
        HeldForeign(elementType.name, es.elementType.name, elements, es.elements);
        return false;
      }
      var z, changed := Difference(elementType.name, es.elementType.name, elements, es.elements);
      elements := z;
      r := changed;
    }

    /**
     * retainAll on a FieldSet: a set of another element type empties this
     * one; otherwise the intersection. The answer is whether the set
     * changed.
     */
    method RetainAll(es: FieldSet) returns (r: bool)
      modifies this
      ensures Fields() == old(Fields() * es.Fields()) && r == (Fields() != old(Fields()))
    {
      if es.elementType.name != elementType.name {
        HeldForeign(elementType.name, es.elementType.name, elements, es.elements);
        var z, changed := Emptied(elementType.name, elements);
        elements := z;
        return changed;
      }
      var z, changed := Intersection(elementType.name, es.elementType.name, elements, es.elements);
      elements := z;
      r := changed;
    }

    /** clear: no constant is held. */
    method Clear()
      modifies this
      ensures Fields() == {}
    {
      var z, _ := Emptied(elementType.name, elements);
      elements := z;
    }

    /** clone: a new set of the same element type holding the same mask, independent of this one. */
    method Clone() returns (r: FieldSet)
      ensures fresh(r)
      ensures r.elementType == elementType && r.universe == universe && r.elements == elements
      ensures r.Fields() == Fields()
    {
      r := new FieldSet.Copy(this);
    }

    /** Object.clone's field-by-field copy. */
    constructor Copy(s: FieldSet)
      ensures elementType == s.elementType && universe == s.universe && elements == s.elements
    {
      elementType := s.elementType;
      universe := s.universe;
      elements := s.elements;
    }

    /**
     * equals on a FieldSet: sets of different element types are equal when
     * both are empty, sets of one type when their masks are. Both are
     * java.util.Set equality.
     */
    function Equals(es: FieldSet): (r: bool)
      reads this, es
      ensures r <==> Fields() == es.Fields()
    {
      if es.elementType.name != elementType.name then
        HeldForeign(elementType.name, es.elementType.name, elements, es.elements);
        IsEmpty() && es.IsEmpty()
      else
        Same(elementType.name, es.elementType.name, elements, es.elements)
    }
  }

  /**
   * next's step on a non-empty mask x: `x & -x` is the bit of the first
   * number Ascending(x) lists, numberOfTrailingZeros gives that number
   * back, and `x - (x & -x)` lists the rest.
   */
  method TakeLowest(x: bv64) returns (low: bv64, rest: bv64, n: Index)
    requires x != 0
    ensures Ascending(x) == [n] + Ascending(rest)
    ensures low == Bit(n) && low != 0 && TrailingZeros(low) == n
  {
    AscendingStep(x);
    low := x & -x;
    rest := x - low;
    n := TrailingZeros(low);
  }

  /** The iterator's remove: `elements & ~lastReturned` for a single bit lastReturned. */
  method ClearLast(name: string, x: bv64, low: bv64) returns (z: bv64)
    requires low != 0 && low == Bit(TrailingZeros(low))
    ensures Held(name, z) == Held(name, x) - {Field(name, TrailingZeros(low))}
  {
    HeldClear(name, x, TrailingZeros(low));
    z := x & !low;
  }

  /** An iterator over a FieldSet, holding the bits not yet returned and the last one returned. */
  class FieldSetIterator {
    const owner: FieldSet
    var unseen: bv64
    var lastReturned: bv64

    /** lastReturned is 0 or a single bit. */
    ghost predicate Valid()
      reads this
    {
      lastReturned == 0 || lastReturned == Bit(TrailingZeros(lastReturned))
    }

    /** The iterator starts with every member of owner still to come and nothing returned. */
    constructor (owner: FieldSet)
      ensures this.owner == owner && unseen == owner.elements && lastReturned == 0 && Valid()
    {
      this.owner := owner;
      unseen := owner.elements;
      lastReturned := 0;
    }

    /** hasNext: some member is still to come. */
    function HasNext(): (r: bool)
      reads this
      ensures r <==> Ascending(unseen) != []
    {
      AscendingOrder(unseen);
      unseen != 0
    }

    /**
     * next: with nothing left, a NoSuchElementException; otherwise the
     * smallest member left is taken off and looked up in the universe,
     * which fails for a number past its end.
     */
    method Next() returns (r: Result<Option<Field>>)
      requires Valid()
      modifies this
      ensures Valid()
      ensures old(unseen) == 0 ==> r == Err(NoSuchElement) && unchanged(this)
      ensures old(unseen) != 0 ==>
        var n := Ascending(old(unseen))[0];
        && Ascending(old(unseen)) == [n] + Ascending(unseen)
        && lastReturned == Bit(n)
        && r == if n as int < |owner.universe| then Ok(owner.universe[n as int]) else Err(IndexOutOfBounds)
    {
      if unseen == 0 {
        return Err(NoSuchElement);
      }
      var low, rest, n := TakeLowest(unseen);
      lastReturned := low;
      unseen := rest;
      if n as int < |owner.universe| {
        r := Ok(owner.universe[n as int]);
      } else {
        r := Err(IndexOutOfBounds);
      }
    }

    /**
     * remove: with nothing returned since the last remove, an
     * IllegalStateException; otherwise the last returned constant leaves
     * the set.
     */
    method Remove() returns (r: Outcome)
      requires Valid()
      modifies this, owner
      ensures Valid() && unseen == old(unseen)
      ensures old(lastReturned) == 0 ==> r == Fail(IllegalState) && unchanged(this, owner)
      ensures old(lastReturned) != 0 ==>
        && r == Pass && lastReturned == 0
        && owner.Fields() == old(owner.Fields()) - {Field(owner.elementType.name, TrailingZeros(old(lastReturned)))}
    {
      if lastReturned == 0 {
        return Fail(IllegalState);
      }
      var z := ClearLast(owner.elementType.name, owner.elements, lastReturned);
      owner.elements := z;
      lastReturned := 0;
      r := Pass;
    }
  }
}
