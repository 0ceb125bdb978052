/**
 * The two concrete keys of the cache test
 * (core/src/test/java/org/canoegame/entity/CacheTest.java): MockEntity.Key,
 * a two-field composite key with a significance count, and MockStringKey, a
 * key over a string ordered as java.lang.String orders strings.
 */
module MockKeys {
  import opened Ordering

  /** Java's 32-bit int. */
  newtype int32 = x: int | -0x8000_0000 <= x < 0x8000_0000

  /**
   * MockEntity.Key. Its constructor is private and its three factories build
   * (0, 0, 0), (key1, 0, 1) and (key1, key2, 2), so a key is one of these
   * three shapes and the fields past its significance are always zero.
   */
  datatype EntityKey = Root | Prefix1(k1: int32) | Full(k1: int32, k2: int32)

  /** Key.create(key1, key2). */
  function Create(key1: int32, key2: int32): (k: EntityKey)
    ensures Fields(k) == [key1 as int, key2 as int]
  {
    Full(key1, key2)
  }

  /** Key.createPrefix(). */
  function CreatePrefix(): (k: EntityKey)
    ensures Fields(k) == []
  {
    Root
  }

  /** Key.createPrefix(key1). */
  function CreatePrefixOf(key1: int32): (k: EntityKey)
    ensures Fields(k) == [key1 as int]
  {
    Prefix1(key1)
  }

  function Key1(k: EntityKey): int32 {
    match k
    case Root => 0
    case Prefix1(a) => a
    case Full(a, _) => a
  }

  function Key2(k: EntityKey): int32 {
    if k.Full? then k.k2 else 0
  }

  function Significant(k: EntityKey): nat {
    match k
    case Root => 0
    case Prefix1(_) => 1
    case Full(_, _) => 2
  }

  /** Integer.compare. */
  function IntegerCompare(x: int, y: int): int {
    if x < y then -1 else if x == y then 0 else 1
  }

  /** compareField: index 0 compares key1, every other index key2. */
  function CompareField(a: EntityKey, b: EntityKey, index: nat): int {
    if index == 0 then IntegerCompare(Key1(a) as int, Key1(b) as int)
    else IntegerCompare(Key2(a) as int, Key2(b) as int)
  }

  /** The compareTo loop from index i on: the first non-zero field comparison, else the significances. */
  function CompareFrom(a: EntityKey, b: EntityKey, i: nat, minSig: nat): (r: int)
    ensures -1 <= r <= 1
    decreases minSig - i
  {
    if i >= minSig then IntegerCompare(Significant(a), Significant(b))
    else if CompareField(a, b, i) != 0 then CompareField(a, b, i)
    else CompareFrom(a, b, i + 1, minSig)
  }

  /** Key.compareTo: built from Integer.compare, so it answers -1, 0 or 1. */
  function CompareTo(a: EntityKey, b: EntityKey): (r: int)
    ensures -1 <= r <= 1
  {
    var minSig := if Significant(a) < Significant(b) then Significant(a) else Significant(b);
    CompareFrom(a, b, 0, minSig)
  }

  /** The isPrefixOf loop from index i on: every significant field of a agrees with b's. */
  function FieldsAgreeFrom(a: EntityKey, b: EntityKey, i: nat): bool
    decreases Significant(a) - i
  {
    if i >= Significant(a) then true
    else if CompareField(a, b, i) != 0 then false
    else FieldsAgreeFrom(a, b, i + 1)
  }

  /** Key.isPrefixOf: never with more significant fields than the other key; always for the root. */
  function IsPrefixOf(a: EntityKey, b: EntityKey): (r: bool)
    ensures r ==> Significant(a) <= Significant(b)
    ensures Significant(a) == 0 ==> r
  {
    if Significant(a) == 0 then true
    else if Significant(a) > Significant(b) then false
    else FieldsAgreeFrom(a, b, 0)
  }

  /** Key.groupCode: the first field, or 0 for the root. */
  function GroupCode(k: EntityKey): (c: int)
    ensures |Fields(k)| > 0 ==> c == Fields(k)[0]
    ensures k.Root? ==> c == 0
  {
    Key1(k) as int
  }

  /** Key.equals on two keys: compareTo answers 0, which is exactly when they are the same key. */
  function Equals(a: EntityKey, b: EntityKey): (r: bool)
    ensures r <==> a == b
  {
    CompareToIsLexicographic(a, b);
    LexCompareZero(Fields(a), Fields(b));
    FieldsInjective(a, b);
    CompareTo(a, b) == 0
  }

  /** The significant fields of a key, in order. */
  function Fields(k: EntityKey): seq<int> {
    match k
    case Root => []
    case Prefix1(a) => [a as int]
    case Full(a, c) => [a as int, c as int]
  }

  function EntityOrder(): KeyOrder<EntityKey> {
    KeyOrder((a, b) => CompareTo(a, b), (a, b) => IsPrefixOf(a, b), k => GroupCode(k))
  }

  /** compareTo is the lexicographic order of the significant fields, shorter first on a tie. */
  lemma CompareToIsLexicographic(a: EntityKey, b: EntityKey)
    ensures CompareTo(a, b) < 0 <==> LexCompare(Fields(a), Fields(b)) < 0
    ensures CompareTo(a, b) == 0 <==> LexCompare(Fields(a), Fields(b)) == 0
    ensures CompareTo(a, b) > 0 <==> LexCompare(Fields(a), Fields(b)) > 0
  {
    var fa, fb := Fields(a), Fields(b);
    if |fa| > 0 && |fb| > 0 {
      assert fa[0] == Key1(a) as int && fb[0] == Key1(b) as int;
      if fa[0] == fb[0] {
        if |fa| > 1 && |fb| > 1 {
          assert fa[1..] == [Key2(a) as int] && fb[1..] == [Key2(b) as int];
          assert fa[1..][1..] == [] && fb[1..][1..] == [];
          assert LexCompare(fa[1..][1..], fb[1..][1..]) == 0;
          assert LexCompare(fa[1..], fb[1..]) == if Key2(a) != Key2(b) then Key2(a) as int - Key2(b) as int else 0;
          assert CompareFrom(a, b, 2, 2) == 0;
          assert CompareFrom(a, b, 1, 2) == IntegerCompare(Key2(a) as int, Key2(b) as int);
        } else if |fa| > 1 {
          assert fb[1..] == [];
        } else if |fb| > 1 {
          assert fa[1..] == [];
        } else {
          assert fa[1..] == [] && fb[1..] == [];
        }
      }
    }
  }

  /** isPrefixOf holds exactly when the significant fields of a start those of b. */
  lemma IsPrefixOfIsInitialSegment(a: EntityKey, b: EntityKey)
    ensures IsPrefixOf(a, b) <==> IsPrefix(Fields(a), Fields(b))
  {
    match b
    case Full(b1, b2) =>
      assert Fields(b)[..2] == Fields(b);
      assert Fields(b)[..1] == [b1 as int];
      assert Fields(b)[..0] == [];
      if a.Full? {
        assert FieldsAgreeFrom(a, b, 2);
        assert FieldsAgreeFrom(a, b, 1) <==> a.k2 == b2;
        assert FieldsAgreeFrom(a, b, 0) <==> a.k1 == b1 && a.k2 == b2;
        assert IsPrefix(Fields(a), Fields(b)) <==> [a.k1 as int, a.k2 as int] == [b1 as int, b2 as int];
      } else if a.Prefix1? {
        assert FieldsAgreeFrom(a, b, 1);
        assert FieldsAgreeFrom(a, b, 0) <==> a.k1 == b1;
        assert IsPrefix(Fields(a), Fields(b)) <==> [a.k1 as int] == [b1 as int];
      }
    case Prefix1(b1) =>
      assert Fields(b)[..1] == Fields(b);
      assert Fields(b)[..0] == [];
      if a.Prefix1? {
        assert FieldsAgreeFrom(a, b, 1);
        assert FieldsAgreeFrom(a, b, 0) <==> a.k1 == b1;
      }
    case Root =>
  }

  lemma FieldsInjective(a: EntityKey, b: EntityKey)
    ensures Fields(a) == Fields(b) ==> a == b
  {
    if Fields(a) == Fields(b) {
      assert |Fields(a)| == Significant(a);
      if a.Full? {
        assert Fields(a)[0] == Fields(b)[0] && Fields(a)[1] == Fields(b)[1];
      }
      if a.Prefix1? {
        assert Fields(a)[0] == Fields(b)[0];
      }
    }
  }

  /** MockEntity.Key satisfies the key contract the cache relies on. */
  lemma EntityOrderValid()
    ensures Valid(EntityOrder())
  {
    var o := EntityOrder();
    forall a, b ensures Fields(a) == Fields(b) ==> a == b {
      FieldsInjective(a, b);
    }
    forall a, b
      ensures (o.compare(a, b) < 0 <==> LexCompare(Fields(a), Fields(b)) < 0)
           && (o.compare(a, b) == 0 <==> LexCompare(Fields(a), Fields(b)) == 0)
    {
      CompareToIsLexicographic(a, b);
    }
    forall a, b ensures o.isPrefixOf(a, b) <==> IsPrefix(Fields(a), Fields(b)) {
      IsPrefixOfIsInitialSegment(a, b);
    }
    ValidFromLex(o, Fields);
  }

  /** createPrefix() is a prefix of every key. */
  lemma CreatePrefixCoversAll(k: EntityKey)
    ensures IsPrefixOf(CreatePrefix(), k)
  {
  }

  /**
   * isPrefixOf is false when a has more significant fields than b, and
   * otherwise holds exactly when a's significant fields equal b's.
   */
  lemma IsPrefixOfByFields(a: EntityKey, b: EntityKey)
    ensures Significant(a) > Significant(b) ==> !IsPrefixOf(a, b)
    ensures Significant(a) <= Significant(b) ==>
      (IsPrefixOf(a, b) <==> forall i :: 0 <= i < Significant(a) ==> Fields(a)[i] == Fields(b)[i])
  {
    if Significant(a) <= Significant(b) {
      IsPrefixOfIsInitialSegment(a, b);
      var fa, fb := Fields(a), Fields(b);
      if forall i :: 0 <= i < |fa| ==> fa[i] == fb[i] {
        assert fb[..|fa|] == fa;
      }
    }
  }

  /** A prefix sorts no later than any key it prefixes. */
  lemma PrefixSortsFirst(a: EntityKey, b: EntityKey)
    requires IsPrefixOf(a, b)
    ensures CompareTo(a, b) <= 0
  {
    IsPrefixOfIsInitialSegment(a, b);
    LexPrefixFirst(Fields(a), Fields(b));
    CompareToIsLexicographic(a, b);
  }

  /** The shard code of a MockEntity key is its first field. */
  lemma GroupCodeIsKey1(key1: int32, key2: int32)
    ensures GroupCode(Create(key1, key2)) == key1 as int
    ensures GroupCode(CreatePrefixOf(key1)) == key1 as int
  {
  }

  /** A Java char: one UTF-16 code unit. */
  newtype char16 = x: int | 0 <= x < 0x1_0000

  /** A java.lang.String: its sequence of UTF-16 code units. */
  type JavaString = seq<char16>

  /**
   * The UTF-16 encoding of one Unicode scalar value: a single code unit
   * in the basic multilingual plane, otherwise a high surrogate followed
   * by a low surrogate.
   */
  function EncodeChar(c: char): (u: JavaString)
    ensures 1 <= |u| <= 2
    ensures |u| == 1 <==> (c as int) < 0x1_0000
    ensures |u| == 1 ==> u[0] as int == c as int
    ensures |u| == 2 ==> 0xD800 <= u[0] as int < 0xDC00 <= u[1] as int < 0xE000
  {
    var v := c as int;
    if v < 0x1_0000 then [v as char16]
    else
      var w := v - 0x1_0000;
      [(0xD800 + w / 0x400) as char16, (0xDC00 + w % 0x400) as char16]
  }

  /** A string literal as a Java String holds it: the UTF-16 encoding of its characters in turn. */
  function Utf16(s: string): (u: JavaString)
    ensures |s| <= |u| <= 2 * |s|
  {
    if |s| == 0 then [] else EncodeChar(s[0]) + Utf16(s[1..])
  }

  /** The encoding of a concatenation is the concatenation of the encodings. */
  lemma {:induction false} Utf16Append(s: string, t: string)
    ensures Utf16(s + t) == Utf16(s) + Utf16(t)
  {
    if |s| > 0 {
      assert (s + t)[0] == s[0] && (s + t)[1..] == s[1..] + t;
      Utf16Append(s[1..], t);
    } else {
      assert s + t == t;
    }
  }

  /**
   * String order is code-unit order, not code-point order: U+10000 is
   * stored as the surrogate pair D800 DC00, so it sorts below U+FFFF.
   */
  lemma SupplementarySortsBelowBmp()
    ensures StringCompare(Utf16("\U{10000}"), Utf16("\U{FFFF}")) < 0
  {
    assert Utf16("\U{10000}") == [0xD800, 0xDC00];
    assert Utf16("\U{FFFF}") == [0xFFFF];
  }

  /** MockStringKey: a key over a string. */
  datatype StringKey = StringKey(value: JavaString)

  /**
   * java.lang.String.compareTo: the difference of the code units at the
   * first mismatch, else the difference of the lengths.
   */
  function StringCompare(s: JavaString, t: JavaString): (r: int)
    ensures r == 0 <==> s == t
    decreases |s|
  {
    if |s| == 0 || |t| == 0 then |s| - |t|
    else if s[0] != t[0] then s[0] as int - t[0] as int
    else StringCompare(s[1..], t[1..])
  }

  /** String.startsWith. */
  function StartsWith(s: JavaString, p: JavaString): (r: bool)
    ensures r <==> |p| <= |s| && forall i :: 0 <= i < |p| ==> s[i] == p[i]
  {
    |p| <= |s| && s[..|p|] == p
  }

  /** MockStringKey.compareTo. */
  function StringKeyCompare(a: StringKey, b: StringKey): (r: int)
    ensures r == 0 <==> a == b
  {
    StringCompare(a.value, b.value)
  }

  /** MockStringKey.isPrefixOf: the other key's string starts with this one's. */
  function StringKeyIsPrefixOf(a: StringKey, b: StringKey): (r: bool)
    ensures r ==> |a.value| <= |b.value|
    ensures a == b ==> r
  {
    StartsWith(b.value, a.value)
  }

  /** MockStringKey.groupCode: every string key has the same, non-negative code. */
  function StringKeyGroupCode(k: StringKey): (c: int)
    ensures c == 0
  {
    0
  }

  function StringOrder(): KeyOrder<StringKey> {
    KeyOrder((a, b) => StringKeyCompare(a, b), (a, b) => StringKeyIsPrefixOf(a, b), k => StringKeyGroupCode(k))
  }

  /** The code units of a string, as integers. */
  function Codes(s: JavaString): (r: seq<int>)
    ensures |r| == |s| && forall i :: 0 <= i < |s| ==> r[i] == s[i] as int
  {
    seq(|s|, i requires 0 <= i < |s| => s[i] as int)
  }

  lemma {:induction false} StringCompareIsLex(s: JavaString, t: JavaString)
    ensures StringCompare(s, t) == LexCompare(Codes(s), Codes(t))
    decreases |s|
  {
    if |s| > 0 && |t| > 0 && s[0] == t[0] {
      StringCompareIsLex(s[1..], t[1..]);
      assert Codes(s)[1..] == Codes(s[1..]);
      assert Codes(t)[1..] == Codes(t[1..]);
    }
  }

  lemma StartsWithIsPrefix(s: JavaString, p: JavaString)
    ensures StartsWith(s, p) <==> IsPrefix(Codes(p), Codes(s))
  {
    if |p| <= |s| {
      if Codes(s)[..|p|] == Codes(p) {
        forall i | 0 <= i < |p| ensures s[i] == p[i] {
          assert Codes(s)[i] == Codes(p)[i];
        }
      }
      if s[..|p|] == p {
        assert Codes(s)[..|p|] == Codes(p);
      }
    }
  }

  lemma CodesInjective(s: JavaString, t: JavaString)
    ensures Codes(s) == Codes(t) ==> s == t
  {
    if Codes(s) == Codes(t) {
      forall i | 0 <= i < |s| ensures s[i] == t[i] {
        assert Codes(s)[i] == Codes(t)[i];
      }
    }
  }

  /** MockStringKey satisfies the key contract: prefix is startsWith, order is string order. */
  lemma StringOrderValid()
    ensures Valid(StringOrder())
  {
    var o := StringOrder();
    var proj := (k: StringKey) => Codes(k.value);
    forall a, b ensures proj(a) == proj(b) ==> a == b {
      CodesInjective(a.value, b.value);
    }
    forall a, b
      ensures (o.compare(a, b) < 0 <==> LexCompare(proj(a), proj(b)) < 0)
           && (o.compare(a, b) == 0 <==> LexCompare(proj(a), proj(b)) == 0)
    {
      StringCompareIsLex(a.value, b.value);
    }
    forall a, b ensures o.isPrefixOf(a, b) <==> IsPrefix(proj(a), proj(b)) {
      StartsWithIsPrefix(b.value, a.value);
    }
    ValidFromLex(o, proj);
  }
}
