/**
 Byte strings and the two orders of string_cmp.h.

 A C string or a StringView is the sequence of its bytes, without the terminating NUL.
 `Less` is the order of memcmp/strcmp: unsigned bytes, a proper prefix comes first.
 */
module ByteStrings {

  type Byte = b: int | 0 <= b < 256
  type Str = seq<Byte>

  const SLASH: Byte := 47

  predicate Less(x: Str, y: Str) {
    y != [] && (x == [] || x[0] < y[0] || (x[0] == y[0] && Less(x[1..], y[1..])))
  }

  predicate Leq(x: Str, y: Str) {
    x == y || Less(x, y)
  }

  predicate Sorted(s: seq<Str>) {
    forall i, j :: 0 <= i < j < |s| ==> Leq(s[i], s[j])
  }

  predicate StrictlySorted(s: seq<Str>) {
    forall i, j :: 0 <= i < j < |s| ==> Less(s[i], s[j])
  }

  predicate HasPrefix(s: Str, p: Str) {
    |p| <= |s| && s[..|p|] == p
  }

  predicate Ascii(s: Str) {
    forall i :: 0 <= i < |s| ==> s[i] < 128
  }

  lemma {:induction false} LessTransitive(x: Str, y: Str, z: Str)
    requires Less(x, y) && Less(y, z)
    ensures Less(x, z)
  {
    if x != [] && x[0] == y[0] == z[0] {
      LessTransitive(x[1..], y[1..], z[1..]);
    }
  }

  lemma {:induction false} LessAsymmetric(x: Str, y: Str)
    requires Less(x, y)
    ensures x != y && !Less(y, x)
  {
    if x != [] && x[0] == y[0] {
      LessAsymmetric(x[1..], y[1..]);
    }
  }

  lemma {:induction false} LessTotal(x: Str, y: Str)
    ensures x == y || Less(x, y) || Less(y, x)
  {
    if x != [] && y != [] && x[0] == y[0] {
      LessTotal(x[1..], y[1..]);
      assert x == [x[0]] + x[1..] && y == [y[0]] + y[1..];
    }
  }

  lemma LeqTransitive(x: Str, y: Str, z: Str)
    requires Leq(x, y) && Leq(y, z)
    ensures Leq(x, z)
    ensures Less(x, y) || Less(y, z) ==> Less(x, z)
  {
    if Less(x, y) && Less(y, z) {
      LessTransitive(x, y, z);
    }
  }

  lemma NotLess(x: Str, y: Str)
    ensures !Less(x, y) <==> Leq(y, x)
  {
    LessTotal(x, y);
    if Less(x, y) { LessAsymmetric(x, y); }
    if Less(y, x) { LessAsymmetric(y, x); }
  }

  /** A common prefix does not matter. */
  lemma {:induction false} LessAfterPrefix(p: Str, x: Str, y: Str)
    ensures Less(p + x, p + y) <==> Less(x, y)
  {
    if p == [] {
      assert p + x == x && p + y == y;
    } else {
      assert (p + x)[1..] == p[1..] + x && (p + y)[1..] == p[1..] + y;
      LessAfterPrefix(p[1..], x, y);
    }
  }

  /** The first difference decides. */
  lemma LessAt(x: Str, y: Str, d: nat)
    requires d <= |x| && d <= |y| && x[..d] == y[..d]
    requires d < |x| && d < |y| ==> x[d] != y[d]
    requires d < |x| || d < |y|
    ensures Less(x, y) <==> d < |y| && (d == |x| || x[d] < y[d])
  {
    LessAfterPrefix(x[..d], x[d..], y[d..]);
    assert x == x[..d] + x[d..] && y == x[..d] + y[d..];
  }

  /** Strings with a given prefix form an interval of the order. */
  lemma {:induction false} PrefixInterval(p: Str, a: Str, b: Str, c: Str)
    requires HasPrefix(a, p) && HasPrefix(c, p)
    requires Leq(a, b) && Leq(b, c)
    ensures HasPrefix(b, p)
  {
    if p != [] {
      assert a[0] == p[0] == c[0] && a[1..][..|p| - 1] == p[1..] == c[1..][..|p| - 1];
      if a != b && b != c {
        assert b != [] && b[0] == p[0];
        PrefixInterval(p[1..], a[1..], b[1..], c[1..]);
        assert b[..|p|] == [b[0]] + b[1..][..|p| - 1];
      }
    }
  }

  lemma StrictlySortedIsDistinct(s: seq<Str>, i: nat, j: nat)
    requires StrictlySorted(s) && i < |s| && j < |s| && s[i] == s[j]
    ensures i == j
  {
    if i < j { LessAsymmetric(s[i], s[j]); }
    if j < i { LessAsymmetric(s[j], s[i]); }
  }

  /** A strictly sorted sequence is determined by its set of elements. */
  lemma {:induction false} StrictlySortedIsCanonical(s: seq<Str>, t: seq<Str>)
    requires StrictlySorted(s) && StrictlySorted(t)
    requires forall x :: x in s <==> x in t
    ensures s == t
  {
    if s == [] {
      assert forall i :: 0 <= i < |t| ==> t[i] in t;
    } else {
      assert s[0] in t;
      assert t != [] && t[0] in s;
      if s[0] != t[0] {
        var i :| 0 <= i < |t| && t[i] == s[0];
        var j :| 0 <= j < |s| && s[j] == t[0];
        assert Less(t[0], s[0]) && Less(s[0], t[0]);
        LessAsymmetric(s[0], t[0]);
      } else {
        forall x ensures x in s[1..] <==> x in t[1..] {
          TailElements(s, x);
          TailElements(t, x);
        }
        StrictlySortedIsCanonical(s[1..], t[1..]);
        assert s == [s[0]] + s[1..] && t == [t[0]] + t[1..];
      }
    }
  }

  lemma TailElements(s: seq<Str>, x: Str)
    requires StrictlySorted(s) && s != []
    ensures x in s[1..] <==> x in s && x != s[0]
  {
    if x in s[1..] {
      var i :| 0 <= i < |s| - 1 && s[1..][i] == x;
      assert Less(s[0], s[i + 1]);
      LessAsymmetric(s[0], x);
    }
  }

  /* ---- StrSort, and std::is_sorted ---- */

  function Insert(x: Str, s: seq<Str>): (r: seq<Str>)
    ensures multiset(r) == multiset(s) + multiset{x}
  {
    if s == [] || !Less(s[0], x) then [x] + s
    else
      assert s == [s[0]] + s[1..];
      [s[0]] + Insert(x, s[1..])
  }

  /** A sort. std::sort is only known by its contract: a sorted permutation. */
  function StrSort(s: seq<Str>): (r: seq<Str>)
    ensures multiset(r) == multiset(s)
  {
    if s == [] then []
    else
      assert s == [s[0]] + s[1..];
      Insert(s[0], StrSort(s[1..]))
  }

  lemma SameElements(s: seq<Str>, t: seq<Str>, x: Str)
    requires multiset(s) == multiset(t)
    ensures x in s <==> x in t
  {
    assert x in s <==> x in multiset(s);
    assert x in t <==> x in multiset(t);
  }

  lemma {:induction false} InsertIsSorted(x: Str, s: seq<Str>)
    requires Sorted(s)
    ensures Sorted(Insert(x, s))
  {
    if s == [] {
    } else if !Less(s[0], x) {
      NotLess(s[0], x);
      forall j | 0 <= j < |s| ensures Leq(x, s[j]) { LeqTransitive(x, s[0], s[j]); }
    } else {
      InsertIsSorted(x, s[1..]);
      var t := Insert(x, s[1..]);
      forall j | 0 <= j < |t| ensures Leq(s[0], t[j]) {
        assert t[j] in multiset(t);
      }
    }
  }

  lemma {:induction false} StrSortSorts(s: seq<Str>)
    ensures Sorted(StrSort(s))
  {
    if s != [] {
      StrSortSorts(s[1..]);
      InsertIsSorted(s[0], StrSort(s[1..]));
    }
  }

  predicate Distinct(s: seq<Str>) {
    forall i, j :: 0 <= i < j < |s| ==> s[i] != s[j]
  }

  lemma {:induction false} DistinctMultiset(s: seq<Str>)
    ensures Distinct(s) <==> forall x :: multiset(s)[x] <= 1
  {
    if s != [] {
      var t := s[1..];
      assert s == [s[0]] + t;
      DistinctMultiset(t);
      assert forall x :: x != s[0] ==> multiset(s)[x] == multiset(t)[x];
      if s[0] in t {
        assert multiset(s)[s[0]] >= 2;
        var j :| 0 <= j < |t| && t[j] == s[0];
        assert s[0] == s[j + 1];
      } else if Distinct(t) {
        assert forall i :: 0 < i < |s| ==> s[i] == t[i - 1] && s[i] in t;
      } else {
        assert forall i :: 0 <= i < |t| ==> s[i + 1] == t[i];
      }
    }
  }

  /** std::is_sorted: no element is less than the one before it. */
  predicate IsSorted(s: seq<Str>) {
    forall i :: 0 <= i < |s| - 1 ==> !Less(s[i + 1], s[i])
  }

  lemma {:induction false} IsSortedMeansSorted(s: seq<Str>)
    requires IsSorted(s)
    ensures Sorted(s)
  {
    if s != [] {
      var t := s[1..];
      assert forall i :: 0 <= i < |t| ==> t[i] == s[i + 1];
      IsSortedMeansSorted(t);
      forall j | 1 <= j < |s| ensures Leq(s[0], s[j]) {
        NotLess(s[1], s[0]);
        if j > 1 {
          assert Leq(t[0], t[j - 1]);
          LeqTransitive(s[0], s[1], s[j]);
        }
      }
      forall i, j | 0 <= i < j < |s| ensures Leq(s[i], s[j]) {
        if i > 0 { assert Leq(t[i - 1], t[j - 1]); }
      }
    }
  }

  /** Sorting only when needed: the result is strictly sorted if the input has no duplicates. */
  lemma SortIfNeeded(s: seq<Str>, r: seq<Str>)
    requires r == (if IsSorted(s) then s else StrSort(s))
    ensures Sorted(r) && multiset(r) == multiset(s)
    ensures forall x :: x in r <==> x in s
    ensures Distinct(s) ==> StrictlySorted(r) && Distinct(r)
  {
    if IsSorted(s) { IsSortedMeansSorted(s); } else { StrSortSorts(s); }
    DistinctMultiset(s);
    DistinctMultiset(r);
    forall x ensures x in r <==> x in s { SameElements(r, s, x); }
  }

  /** std::unique: keep the first of each run of equal elements. */
  function Unique(s: seq<Str>): seq<Str> {
    if s == [] then []
    else if |s| > 1 && s[0] == s[1] then Unique(s[1..])
    else [s[0]] + Unique(s[1..])
  }

  lemma {:induction false} UniqueKeepsElements(s: seq<Str>, x: Str)
    ensures x in Unique(s) <==> x in s
  {
    if s != [] {
      assert s == [s[0]] + s[1..];
      UniqueKeepsElements(s[1..], x);
    }
  }

  lemma {:induction false} UniqueIsStrict(s: seq<Str>)
    requires Sorted(s)
    ensures StrictlySorted(Unique(s))
  {
    if s != [] {
      UniqueIsStrict(s[1..]);
      var u := Unique(s[1..]);
      if !(|s| > 1 && s[0] == s[1]) {
        forall j | 0 <= j < |u| ensures Less(s[0], u[j]) {
          UniqueKeepsElements(s[1..], u[j]);
          var k :| 0 <= k < |s| - 1 && s[1..][k] == u[j];
          LeqTransitive(s[0], s[1], s[k + 1]);
        }
      }
    }
  }

  /** Sorting and removing duplicates gives the one strictly sorted sequence with the same elements. */
  lemma SortUniqueIsCanonical(s: seq<Str>)
    ensures StrictlySorted(Unique(StrSort(s)))
    ensures forall x :: x in Unique(StrSort(s)) <==> x in s
  {
    StrSortSorts(s);
    UniqueIsStrict(StrSort(s));
    forall x ensures x in Unique(StrSort(s)) <==> x in s {
      UniqueKeepsElements(StrSort(s), x);
      SameElements(StrSort(s), s, x);
    }
  }

  /* ---- string_cmp.h ---- */

  function Min(a: nat, b: nat): nat { if a < b then a else b }

  /** memcmp over the first n bytes, as a sign. */
  method MemCmp(x: Str, y: Str, n: nat) returns (r: int)
    requires n <= |x| && n <= |y|
    ensures r < 0 <==> Less(x[..n], y[..n])
    ensures r == 0 <==> x[..n] == y[..n]
  {
    for i := 0 to n
      invariant x[..i] == y[..i]
    {
      if x[i] != y[i] {
        assert x[..n][..i] == x[..i] && y[..n][..i] == y[..i];
        LessAt(x[..n], y[..n], i);
        assert x[..n][i] != y[..n][i];
        r := x[i];
        r := r - y[i];
        return;
      }
    }
    if Less(x[..n], y[..n]) { LessAsymmetric(x[..n], y[..n]); }
    r := 0;
  }

  /** StrCmp<1>(StringView, StringView): memcmp of the common length, then the lengths. */
  method CmpViews(x: Str, y: Str) returns (r: int)
    ensures r < 0 <==> Less(x, y)
    ensures r == 0 <==> x == y
  {
    var n := Min(|x|, |y|);
    var cmp := MemCmp(x, y, n);
    if cmp != 0 {
      CutDecides(x, y, n);
      return cmp;
    }
    if |x| != |y| { LessAt(x, y, n); }
    if Less(x, y) { LessAsymmetric(x, y); }
    r := |x| - |y|;
  }

  lemma {:induction false} CutDecides(x: Str, y: Str, n: nat)
    requires n <= |x| && n <= |y| && x[..n] != y[..n]
    ensures Less(x, y) <==> Less(x[..n], y[..n])
  {
    if x[0] == y[0] {
      assert x[..n][1..] == x[1..][..n - 1] && y[..n][1..] == y[1..][..n - 1];
      assert x[..n] == [x[0]] + x[1..][..n - 1] && y[..n] == [y[0]] + y[1..][..n - 1];
      CutDecides(x[1..], y[1..], n - 1);
    }
  }

  /** The value of a plain `char` on a platform where it is signed or unsigned. */
  function CharValue(signedChar: bool, b: Byte): int {
    if signedChar && b >= 128 then b - 256 else b
  }

  /** The byte at index i of a NUL-terminated string. */
  function CharAt(y: Str, i: nat): Byte
    requires i <= |y|
  {
    if i < |y| then y[i] else 0
  }

  predicate NoNul(s: Str) { forall i :: 0 <= i < |s| ==> s[i] != 0 }

  /** Where StrCmp<1>(StringView, const char*) stops: the first difference with y's terminator included. */
  function StopAt(x: Str, y: Str): (d: nat)
    ensures d <= |x| && d <= |y| && x[..d] == y[..d]
    ensures d < |x| ==> x[d] != CharAt(y, d) || d == |y|
  {
    if x == [] || y == [] || x[0] != y[0] then 0
    else
      assert x == [x[0]] + x[1..] && y == [y[0]] + y[1..];
      1 + StopAt(x[1..], y[1..])
  }

  /** The number StrCmp<1>(StringView, const char*) returns. */
  function PlainCmp(signedChar: bool, x: Str, y: Str): int {
    var d := StopAt(x, y);
    (if d < |x| then CharValue(signedChar, x[d]) else 0) - CharValue(signedChar, CharAt(y, d))
  }

  /** StrCmp<1>(StringView, const char*): a loop over x that subtracts plain chars. */
  method CmpViewCStr(signedChar: bool, x: Str, y: Str) returns (r: int)
    requires NoNul(x) && NoNul(y)
    ensures r == PlainCmp(signedChar, x, y)
    ensures r == 0 <==> x == y
  {
    var i := 0;
    while i != |x|
      invariant 0 <= i <= |x| && i <= |y| && x[..i] == y[..i]
    {
      var cmp := CharValue(signedChar, x[i]) - CharValue(signedChar, CharAt(y, i));
      if cmp != 0 {
        StopIsFirstDifference(x, y, i);
        return cmp;
      }
      i := i + 1;
    }
    StopIsFirstDifference(x, y, i);
    r := 0 - CharValue(signedChar, CharAt(y, i));
  }

  lemma {:induction false} StopIsFirstDifference(x: Str, y: Str, d: nat)
    requires d <= |x| && d <= |y| && x[..d] == y[..d]
    requires d == |x| || d == |y| || x[d] != y[d]
    ensures StopAt(x, y) == d
  {
    if d > 0 {
      assert x[0] == x[..d][0] == y[0];
      assert x[1..][..d - 1] == x[..d][1..] == y[1..][..d - 1];
      StopIsFirstDifference(x[1..], y[1..], d - 1);
    }
  }

  /**
   On an unsigned platform the plain-char comparison is strcmp order. On a signed one it has the right
   sign exactly when the two bytes it stops at lie on the same side of 128.
   */
  lemma PlainCmpIsStrcmp(signedChar: bool, x: Str, y: Str)
    requires NoNul(x) && NoNul(y) && x != y
    ensures
      var d := StopAt(x, y);
      (PlainCmp(signedChar, x, y) < 0 <==> Less(x, y)) <==>
      (!signedChar || ((d < |x| && x[d] >= 128) <==> (d < |y| && y[d] >= 128)))
    ensures PlainCmp(signedChar, x, y) != 0
  {
    var d := StopAt(x, y);
    assert x == x[..d] + x[d..] && y == y[..d] + y[d..];
    LessAt(x, y, d);
  }

  /** On a signed platform the directory "e-acute" compares before the entry "a": 0xC3 is -61. */
  lemma PlainCmpDiffersFromStrcmp()
    ensures Less([97], [195, 169]) && PlainCmp(true, [195, 169], [97]) < 0
  {
    assert StopAt([195, 169], [97]) == 0;
  }

  /* ---- case folding: strncasecmp in the C locale ---- */

  function Lower(b: Byte): Byte { if 65 <= b <= 90 then b + 32 else b }

  function Fold(s: Str): (r: Str)
    ensures |r| == |s| && forall i :: 0 <= i < |s| ==> r[i] == Lower(s[i])
  {
    seq(|s|, i requires 0 <= i < |s| => Lower(s[i]))
  }

  /** The string a Str<> compares by. */
  function Key(caseSensitive: bool, s: Str): (k: Str)
    ensures |k| == |s|
  {
    if caseSensitive then s else Fold(s)
  }

  /** Case-insensitive keys agree iff the strings differ in the case of ASCII letters only. */
  lemma FoldedEqual(x: Str, y: Str)
    ensures Key(true, x) == x
    ensures Key(false, x) == Key(false, y) <==>
            |x| == |y| && forall i :: 0 <= i < |x| ==> SameLetter(x[i], y[i])
  {
    if |x| == |y| && forall i :: 0 <= i < |x| ==> SameLetter(x[i], y[i]) {
      assert Fold(x) == Fold(y);
    }
    if Fold(x) == Fold(y) {
      forall i | 0 <= i < |x| ensures SameLetter(x[i], y[i]) { assert Fold(x)[i] == Fold(y)[i]; }
    }
  }

  ghost predicate SameLetter(a: Byte, b: Byte) {
    a == b || (65 <= a <= 90 && b == a + 32) || (65 <= b <= 90 && a == b + 32)
  }

  /** Lower-case letters keep their place in the order, so "_" sorts before "A" and "a" alike. */
  lemma FoldedOrder()
    ensures StrLt(false, [95], [65]) && !StrLt(true, [95], [65]) && StrLt(true, [65], [97]) && !StrLt(false, [65], [97])
  {
  }

  /** Str<>::Lt on string views. */
  predicate StrLt(caseSensitive: bool, x: Str, y: Str) {
    Less(Key(caseSensitive, x), Key(caseSensitive, y))
  }
}
