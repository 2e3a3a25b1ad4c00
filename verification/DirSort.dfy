/**
 dir.cc, SwapBytes and SortEntries (Linux, little-endian): names are sorted by a 64-bit key made by reversing their
 first eight bytes in place.

 The names sit in one buffer, each followed by a NUL and then by bytes of no meaning. A window is the first eight
 bytes at a name, which may reach past its NUL.
 */
module DirSort {
  import opened ByteStrings

  const KEY: nat := 8
  const COMPARED: nat := 256
  const SKIP: nat := 5
  const NAME_MAX: nat := 255

  /** The value of bytes read as a little-endian word (Read64). */
  function Value(b: Str): nat {
    if b == [] then 0 else b[0] + 256 * Value(b[1..])
  }

  function Reversed(b: Str): (r: Str)
    ensures |r| == |b|
  {
    if b == [] then [] else [b[|b| - 1]] + Reversed(b[..|b| - 1])
  }

  lemma {:induction false} ReversedAt(b: Str, i: nat)
    requires i < |b|
    ensures Reversed(b)[i] == b[|b| - 1 - i]
  {
    if i > 0 { ReversedAt(b[..|b| - 1], i - 1); }
  }

  lemma ReversedTwice(b: Str)
    ensures Reversed(Reversed(b)) == b
  {
    forall i | 0 <= i < |b| ensures Reversed(Reversed(b))[i] == b[i] {
      ReversedAt(Reversed(b), i);
      ReversedAt(b, |b| - 1 - i);
    }
  }

  /** Read after the swap, the key orders eight bytes as memcmp does. */
  lemma {:induction false} KeyOrder(a: Str, b: Str)
    requires |a| == |b|
    ensures Value(Reversed(a)) < Value(Reversed(b)) <==> Less(a, b)
    ensures Value(Reversed(a)) == Value(Reversed(b)) <==> a == b
    decreases |a|
  {
    hide Less, Reversed;
    if a == [] {
      assert Reversed(a) == Reversed(b) && a == b;
      NotLessItself(a);
    } else {
      var n := |a| - 1;
      KeyOrder(a[..n], b[..n]);
      KeyOfLast(a);
      KeyOfLast(b);
      assert a == a[..n] + [a[n]] && b == b[..n] + [b[n]];
      if a[..n] == b[..n] {
        LastByteDecides(a, b);
      } else {
        CutDecides(a, b, n);
      }
      LastDigitDecides(Value(Reversed(a[..n])), Value(Reversed(b[..n])), a[n], b[n]);
    }
  }

  lemma NotLessItself(a: Str)
    ensures !Less(a, a)
  {
    if Less(a, a) { LessAsymmetric(a, a); }
  }

  lemma KeyOfLast(a: Str)
    requires a != []
    ensures Value(Reversed(a)) == a[|a| - 1] + 256 * Value(Reversed(a[..|a| - 1]))
  {
    assert Reversed(a)[1..] == Reversed(a[..|a| - 1]);
  }

  lemma LastDigitDecides(x: nat, y: nat, p: Byte, q: Byte)
    ensures p + 256 * x < q + 256 * y <==> x < y || (x == y && p < q)
    ensures p + 256 * x == q + 256 * y <==> x == y && p == q
  {
  }

  lemma LastByteDecides(a: Str, b: Str)
    requires |a| == |b| > 0 && a[..|a| - 1] == b[..|a| - 1]
    ensures Less(a, b) <==> a[|a| - 1] < b[|a| - 1]
  {
    var n := |a| - 1;
    if a[n] != b[n] {
      LessAt(a, b, n);
    } else {
      assert a == a[..n] + [a[n]] && b == b[..n] + [b[n]];
      NotLess(a, b);
    }
  }

  /** The buffer from offset o on starts with the name a and its NUL. */
  ghost predicate Names(m: Str, o: nat, a: Str) {
    && NoNul(a) && |a| <= NAME_MAX
    && o + SKIP + COMPARED <= |m|
    && m[o..o + |a|] == a && m[o + |a|] == 0
  }

  /** The comparator of SortEntries on the swapped buffer. */
  predicate Before(m: Str, x: nat, y: nat)
    requires x + SKIP + COMPARED <= |m| && y + SKIP + COMPARED <= |m|
  {
    var p, q := Value(m[x..x + KEY]), Value(m[y..y + KEY]);
    p < q || (p == q && Less(m[x + SKIP..x + SKIP + COMPARED], m[y + SKIP..y + SKIP + COMPARED]))
  }

  /** Two distinct NUL-terminated names are ordered by any bytes that extend them past their NULs. */
  lemma TerminatedOrder(x: Str, y: Str, a: Str, b: Str)
    requires NoNul(a) && NoNul(b) && a != b
    requires |a| < |x| && |b| < |y| && x[..|a|] == a && y[..|b|] == b && x[|a|] == 0 && y[|b|] == 0
    ensures Less(x, y) <==> Less(a, b)
  {
    hide Less, StopAt;
    var d := StopAt(a, b);
    assert a == a[..d] + a[d..] && b == b[..d] + b[d..];
    assert x[..d] == x[..|a|][..d] == a[..d] && y[..d] == y[..|b|][..d] == b[..d];
    assert d < |a| ==> x[d] == x[..|a|][d];
    assert d < |b| ==> y[d] == y[..|b|][d];
    LessAt(a, b, d);
    LessAt(x, y, d);
  }

  /** Comparing eight bytes and then the rest is comparing the whole. */
  lemma TwoStepOrder(x: Str, y: Str)
    requires |x| == |y| >= KEY
    ensures Less(x, y) <==> Less(x[..KEY], y[..KEY]) || (x[..KEY] == y[..KEY] && Less(x[KEY..], y[KEY..]))
  {
    if x[..KEY] == y[..KEY] {
      LessAfterPrefix(x[..KEY], x[KEY..], y[KEY..]);
      assert x == x[..KEY] + x[KEY..] && y == x[..KEY] + y[KEY..];
      NotLess(x[..KEY], y[..KEY]);
    } else {
      CutDecides(x, y, KEY);
    }
  }

  /** The 261 bytes at o of a swapped buffer, with the window put back. */
  ghost function Restored(m: Str, o: nat): (r: Str)
    requires o + SKIP + COMPARED <= |m|
    ensures |r| == SKIP + COMPARED
  {
    Reversed(m[o..o + KEY]) + m[o + KEY..o + SKIP + COMPARED]
  }

  lemma SplitTail(m: Str, o: nat)
    requires o + SKIP + COMPARED <= |m|
    ensures m[o + SKIP..o + SKIP + COMPARED] == m[o + SKIP..o + KEY] + m[o + KEY..o + SKIP + COMPARED]
    ensures m[o + SKIP..o + KEY] == m[o..o + KEY][SKIP..]
  {
  }

  /**
   The swapped-key comparator is strcmp order: on distinct names, whatever bytes follow their NULs, comparing the
   64-bit keys and then 256 bytes from offset 5 orders them as strcmp does.
   */
  lemma ComparatorIsStrcmp(m: Str, x: nat, y: nat, a: Str, b: Str)
    requires x + SKIP + COMPARED <= |m| && y + SKIP + COMPARED <= |m|
    requires NoNul(a) && NoNul(b) && a != b && |a| <= NAME_MAX && |b| <= NAME_MAX
    requires Restored(m, x)[..|a|] == a && Restored(m, x)[|a|] == 0
    requires Restored(m, y)[..|b|] == b && Restored(m, y)[|b|] == 0
    ensures Before(m, x, y) <==> Less(a, b)
  {
    hide Less, Reversed, Value, NoNul;
    var p, q := m[x..x + KEY], m[y..y + KEY];
    var u, v := Restored(m, x), Restored(m, y);
    TerminatedOrder(u, v, a, b);
    TwoStepOrder(u, v);
    assert u[..KEY] == Reversed(p) && v[..KEY] == Reversed(q);
    KeyOrder(Reversed(p), Reversed(q));
    ReversedTwice(p);
    ReversedTwice(q);
    assert Reversed(p) == Reversed(q) <==> p == q;
    SplitTail(m, x);
    SplitTail(m, y);
    if p == q {
      LessAfterPrefix(m[x + SKIP..x + KEY], m[x + KEY..x + SKIP + COMPARED], m[y + KEY..y + SKIP + COMPARED]);
      assert u[KEY..] == m[x + KEY..x + SKIP + COMPARED] && v[KEY..] == m[y + KEY..y + SKIP + COMPARED];
    }
  }

  /* ---- swapping in place ---- */

  function MaxNat(a: nat, b: nat): nat { if a < b then b else a }

  /** Each window and each name with its NUL is clear of the other windows. */
  ghost predicate Layout(m: Str, ptrs: seq<nat>, names: seq<Str>) {
    && |ptrs| == |names|
    && (forall i :: 0 <= i < |ptrs| ==> Names(m, ptrs[i], names[i]))
    && (forall i, j :: 0 <= i < |ptrs| && 0 <= j < |ptrs| && i != j ==>
          ptrs[i] + MaxNat(KEY, |names[i]| + 1) <= ptrs[j] || ptrs[j] + KEY <= ptrs[i])
  }

  ghost predicate WindowsApart(n: nat, ptrs: seq<nat>) {
    && (forall i :: 0 <= i < |ptrs| ==> ptrs[i] + KEY <= n)
    && (forall i, j :: 0 <= i < j < |ptrs| ==> ptrs[i] + KEY <= ptrs[j] || ptrs[j] + KEY <= ptrs[i])
  }

  ghost predicate InWindow(ptrs: seq<nat>, k: int) {
    exists i :: 0 <= i < |ptrs| && ptrs[i] <= k < ptrs[i] + KEY
  }

  /** after is before with every window reversed. */
  ghost predicate Swapped(before: Str, after: Str, ptrs: seq<nat>) {
    && |before| == |after| && WindowsApart(|before|, ptrs)
    && (forall i :: 0 <= i < |ptrs| ==> after[ptrs[i]..ptrs[i] + KEY] == Reversed(before[ptrs[i]..ptrs[i] + KEY]))
    && (forall k :: 0 <= k < |before| && !InWindow(ptrs, k) ==> after[k] == before[k])
  }

  /** Write64(bswap64(Read64(p)), p). */
  method SwapOne(mem: array<Byte>, p: nat)
    requires p + KEY <= mem.Length
    modifies mem
    ensures mem[p..p + KEY] == Reversed(old(mem[p..p + KEY]))
    ensures forall k :: 0 <= k < mem.Length && !(p <= k < p + KEY) ==> mem[k] == old(mem[k])
  {
    ghost var was := mem[p..p + KEY];
    mem[p], mem[p + 1], mem[p + 2], mem[p + 3], mem[p + 4], mem[p + 5], mem[p + 6], mem[p + 7] :=
      mem[p + 7], mem[p + 6], mem[p + 5], mem[p + 4], mem[p + 3], mem[p + 2], mem[p + 1], mem[p];
    forall i | 0 <= i < KEY ensures mem[p..p + KEY][i] == Reversed(was)[i] {
      ReversedAt(was, i);
    }
  }

  /** A window that is not yet done still has its old bytes, and a done one is not touched again. */
  lemma WindowUntouched(m0: Str, m1: Str, ptrs: seq<nat>, i: nat)
    requires i < |ptrs| && WindowsApart(|m0|, ptrs) && Swapped(m0, m1, ptrs[..i])
    ensures m1[ptrs[i]..ptrs[i] + KEY] == m0[ptrs[i]..ptrs[i] + KEY]
  {
    hide Reversed;
    var done, p := ptrs[..i], ptrs[i];
    assert forall j :: 0 <= j < |done| ==> done[j] == ptrs[j];
    forall k | p <= k < p + KEY ensures m1[k] == m0[k] {
      assert !InWindow(done, k);
    }
  }

  lemma SwapStep(m0: Str, m1: Str, m2: Str, ptrs: seq<nat>, i: nat)
    requires i < |ptrs| && WindowsApart(|m0|, ptrs) && |m0| == |m1| == |m2|
    requires Swapped(m0, m1, ptrs[..i])
    requires m2[ptrs[i]..ptrs[i] + KEY] == Reversed(m1[ptrs[i]..ptrs[i] + KEY])
    requires forall k :: 0 <= k < |m1| && !(ptrs[i] <= k < ptrs[i] + KEY) ==> m2[k] == m1[k]
    ensures Swapped(m0, m2, ptrs[..i + 1])
  {
    hide Reversed;
    var done, next := ptrs[..i], ptrs[..i + 1];
    assert next == done + [ptrs[i]];
    WindowUntouched(m0, m1, ptrs, i);
    forall j | 0 <= j < |next| ensures m2[next[j]..next[j] + KEY] == Reversed(m0[next[j]..next[j] + KEY]) {
      if j < i {
        assert next[j] == done[j] == ptrs[j];
        WindowKept(m1, m2, ptrs, i, j);
      }
    }
    OutsideKept(m0, m1, m2, done, ptrs[i], next);
  }

  lemma WindowKept(m1: Str, m2: Str, ptrs: seq<nat>, i: nat, j: nat)
    requires j < i < |ptrs| && WindowsApart(|m1|, ptrs) && |m1| == |m2|
    requires forall k :: 0 <= k < |m1| && !(ptrs[i] <= k < ptrs[i] + KEY) ==> m2[k] == m1[k]
    ensures m2[ptrs[j]..ptrs[j] + KEY] == m1[ptrs[j]..ptrs[j] + KEY]
  {
  }

  lemma OutsideKept(m0: Str, m1: Str, m2: Str, done: seq<nat>, p: nat, next: seq<nat>)
    requires |m0| == |m1| == |m2| && next == done + [p]
    requires forall k :: 0 <= k < |m0| && !InWindow(done, k) ==> m1[k] == m0[k]
    requires forall k :: 0 <= k < |m1| && !(p <= k < p + KEY) ==> m2[k] == m1[k]
    ensures forall k :: 0 <= k < |m0| && !InWindow(next, k) ==> m2[k] == m0[k]
  {
    forall k | 0 <= k < |m0| && !InWindow(next, k) ensures m2[k] == m0[k] {
      assert next[|done|] == p;
      assert forall j :: 0 <= j < |done| ==> next[j] == done[j];
      assert !InWindow(done, k);
    }
  }

  /** SwapBytes. */
  method SwapBytes(mem: array<Byte>, ptrs: seq<nat>)
    requires WindowsApart(mem.Length, ptrs)
    modifies mem
    ensures Swapped(old(mem[..]), mem[..], ptrs)
  {
    ghost var m0 := mem[..];
    for i := 0 to |ptrs|
      invariant Swapped(m0, mem[..], ptrs[..i])
    {
      ghost var m1 := mem[..];
      SwapOne(mem, ptrs[i]);
      SwapStep(m0, m1, mem[..], ptrs, i);
    }
    assert ptrs[..|ptrs|] == ptrs;
  }

  lemma WindowBack(m0: Str, m1: Str, m2: Str, ptrs: seq<nat>, ptrs': seq<nat>, p: nat, k: nat)
    requires Swapped(m0, m1, ptrs) && Swapped(m1, m2, ptrs') && p in ptrs && p in ptrs' && p <= k < p + KEY
    ensures k < |m0| && m2[k] == m0[k]
  {
    hide Reversed;
    var i :| 0 <= i < |ptrs| && ptrs[i] == p;
    var j :| 0 <= j < |ptrs'| && ptrs'[j] == p;
    ReversedTwice(m0[p..p + KEY]);
    assert m2[p..p + KEY] == m0[p..p + KEY];
    assert m2[k] == m2[p..p + KEY][k - p] && m0[k] == m0[p..p + KEY][k - p];
  }

  lemma SameWindows(ptrs: seq<nat>, ptrs': seq<nat>, k: int)
    requires forall p :: p in ptrs <==> p in ptrs'
    ensures InWindow(ptrs, k) <==> InWindow(ptrs', k)
  {
    if InWindow(ptrs, k) {
      var i :| 0 <= i < |ptrs| && ptrs[i] <= k < ptrs[i] + KEY;
      assert ptrs[i] in ptrs';
    }
    if InWindow(ptrs', k) {
      var i :| 0 <= i < |ptrs'| && ptrs'[i] <= k < ptrs'[i] + KEY;
      assert ptrs'[i] in ptrs;
    }
  }

  /** Swapping every window again restores the buffer, in whatever order the pointers come. */
  lemma SwapTwice(m0: Str, m1: Str, m2: Str, ptrs: seq<nat>, ptrs': seq<nat>)
    requires Swapped(m0, m1, ptrs) && Swapped(m1, m2, ptrs') && (forall p :: p in ptrs <==> p in ptrs')
    ensures m2 == m0
  {
    forall k | 0 <= k < |m0| ensures m2[k] == m0[k] {
      SameWindows(ptrs, ptrs', k);
      if InWindow(ptrs, k) {
        var i :| 0 <= i < |ptrs| && ptrs[i] <= k < ptrs[i] + KEY;
        WindowBack(m0, m1, m2, ptrs, ptrs', ptrs[i], k);
      }
    }
  }

  lemma RestoredInWindow(m0: Str, m1: Str, ptrs: seq<nat>, i: nat, t: nat)
    requires Swapped(m0, m1, ptrs) && i < |ptrs| && ptrs[i] + SKIP + COMPARED <= |m1| && t < KEY
    ensures Restored(m1, ptrs[i])[t] == m0[ptrs[i] + t]
  {
    hide Reversed;
    var p := ptrs[i];
    ReversedTwice(m0[p..p + KEY]);
    assert m0[p..p + KEY][t] == m0[p + t];
  }

  lemma RestoredAfterWindow(m0: Str, m1: Str, ptrs: seq<nat>, i: nat, t: nat)
    requires Swapped(m0, m1, ptrs) && i < |ptrs| && ptrs[i] + SKIP + COMPARED <= |m1| && KEY <= t < SKIP + COMPARED
    requires !InWindow(ptrs, ptrs[i] + t)
    ensures Restored(m1, ptrs[i])[t] == m0[ptrs[i] + t]
  {
    hide Reversed;
    var p := ptrs[i];
    assert Restored(m1, p)[t] == m1[p + KEY..p + SKIP + COMPARED][t - KEY];
  }

  /** In the swapped buffer each name can be read back from its window and what follows it. */
  lemma SwappedNames(m0: Str, m1: Str, ptrs: seq<nat>, names: seq<Str>, i: nat)
    requires Layout(m0, ptrs, names) && Swapped(m0, m1, ptrs) && i < |ptrs|
    ensures ptrs[i] + SKIP + COMPARED <= |m1|
    ensures Restored(m1, ptrs[i])[..|names[i]|] == names[i] && Restored(m1, ptrs[i])[|names[i]|] == 0
  {
    hide Restored, Swapped, Layout;
    NamedAt(m0, m1, ptrs, names, i);
    var p, a := ptrs[i], names[i];
    var r := Restored(m1, p);
    forall t | 0 <= t <= |a| ensures r[t] == m0[p + t] {
      if t < KEY {
        RestoredInWindow(m0, m1, ptrs, i, t);
      } else {
        NameOutsideWindows(m0, ptrs, names, i, p + t);
        RestoredAfterWindow(m0, m1, ptrs, i, t);
      }
    }
    NameFromBytes(r, m0, p, a);
  }

  lemma NamedAt(m0: Str, m1: Str, ptrs: seq<nat>, names: seq<Str>, i: nat)
    requires Layout(m0, ptrs, names) && Swapped(m0, m1, ptrs) && i < |ptrs|
    ensures |ptrs| == |names| && |m0| == |m1| && Names(m0, ptrs[i], names[i])
  {
  }

  lemma NameFromBytes(r: Str, m: Str, p: nat, a: Str)
    requires p + |a| < |m| && |a| < |r| && m[p..p + |a|] == a && m[p + |a|] == 0
    requires forall t :: 0 <= t <= |a| ==> r[t] == m[p + t]
    ensures r[..|a|] == a && r[|a|] == 0
  {
    assert forall t :: 0 <= t < |a| ==> r[t] == a[t];
  }

  lemma ClearOfWindow(m: Str, ptrs: seq<nat>, names: seq<Str>, i: nat, j: nat, k: nat)
    requires Layout(m, ptrs, names) && i < |ptrs| && j < |ptrs| && ptrs[i] + KEY <= k <= ptrs[i] + |names[i]|
    ensures !(ptrs[j] <= k < ptrs[j] + KEY)
  {
  }

  lemma NameOutsideWindows(m: Str, ptrs: seq<nat>, names: seq<Str>, i: nat, k: nat)
    requires Layout(m, ptrs, names) && i < |ptrs| && ptrs[i] + KEY <= k <= ptrs[i] + |names[i]|
    ensures !InWindow(ptrs, k)
  {
    if InWindow(ptrs, k) {
      var j :| 0 <= j < |ptrs| && ptrs[j] <= k < ptrs[j] + KEY;
      ClearOfWindow(m, ptrs, names, i, j, k);
    }
  }

  /* ---- sorting the pointers ---- */

  ghost predicate Comparable(m: Str, ptrs: seq<nat>) {
    forall i :: 0 <= i < |ptrs| ==> ptrs[i] + SKIP + COMPARED <= |m|
  }

  function InsertPtr(m: Str, x: nat, s: seq<nat>): (r: seq<nat>)
    requires Comparable(m, s) && x + SKIP + COMPARED <= |m|
    ensures multiset(r) == multiset(s) + multiset{x}
    ensures Comparable(m, r)
  {
    if s == [] || !Before(m, s[0], x) then [x] + s
    else
      assert s == [s[0]] + s[1..];
      [s[0]] + InsertPtr(m, x, s[1..])
  }

  /** std::sort with the comparator; any sort that returns a sorted permutation would do. */
  function SortPtrs(m: Str, s: seq<nat>): (r: seq<nat>)
    requires Comparable(m, s)
    ensures multiset(r) == multiset(s) && Comparable(m, r)
  {
    if s == [] then []
    else
      assert s == [s[0]] + s[1..];
      InsertPtr(m, s[0], SortPtrs(m, s[1..]))
  }

  /** On these pointers the comparator is the strict order of their distinct names. */
  ghost predicate OrdersLike(m: Str, name: map<nat, Str>) {
    && (forall x :: x in name ==> x + SKIP + COMPARED <= |m|)
    && (forall x, y :: x in name && y in name && x != y ==> OrderedPair(m, x, y, name[x], name[y]))
  }

  ghost predicate OrderedPair(m: Str, x: nat, y: nat, a: Str, b: Str)
    requires x + SKIP + COMPARED <= |m| && y + SKIP + COMPARED <= |m|
  {
    a != b && (Before(m, x, y) <==> Less(a, b))
  }

  ghost predicate AllNamed(s: seq<nat>, name: map<nat, Str>) { forall i :: 0 <= i < |s| ==> s[i] in name }

  ghost predicate NamesIncrease(s: seq<nat>, name: map<nat, Str>)
    requires AllNamed(s, name)
  {
    forall i, j :: 0 <= i < j < |s| ==> Less(name[s[i]], name[s[j]])
  }

  lemma NamedInserted(m: Str, x: nat, s: seq<nat>, name: map<nat, Str>)
    requires Comparable(m, s) && x + SKIP + COMPARED <= |m| && AllNamed(s, name) && x in name
    ensures AllNamed(InsertPtr(m, x, s), name)
    ensures forall y :: y in InsertPtr(m, x, s) ==> y == x || y in s
  {
    var r := InsertPtr(m, x, s);
    hide InsertPtr;
    forall y | y in r ensures y == x || y in s { assert y in multiset(r); }
    forall i | 0 <= i < |r| ensures r[i] in name { assert r[i] in r; }
  }

  lemma {:induction false} InsertPtrSorts(m: Str, x: nat, s: seq<nat>, name: map<nat, Str>)
    requires OrdersLike(m, name) && x in name && AllNamed(s, name) && x !in s && NamesIncrease(s, name)
    requires Comparable(m, s)
    ensures AllNamed(InsertPtr(m, x, s), name) && NamesIncrease(InsertPtr(m, x, s), name)
  {
    hide Before, Less;
    NamedInserted(m, x, s, name);
    if s != [] {
      assert s[0] in s && s[0] != x && OrderedPair(m, s[0], x, name[s[0]], name[x]);
      if !Before(m, s[0], x) {
        LessTotal(name[x], name[s[0]]);
        forall j | 0 <= j < |s| ensures Less(name[x], name[s[j]]) {
          LeqTransitive(name[x], name[s[0]], name[s[j]]);
        }
      } else {
        var t := s[1..];
        assert forall i :: 0 <= i < |t| ==> t[i] == s[i + 1];
        InsertPtrSorts(m, x, t, name);
        NamedInserted(m, x, t, name);
        var u := InsertPtr(m, x, t);
        assert InsertPtr(m, x, s) == [s[0]] + u;
        hide InsertPtr;
        forall j | 0 <= j < |u| ensures Less(name[s[0]], name[u[j]]) {
          assert u[j] in u;
          if u[j] != x {
            var k :| 0 <= k < |t| && t[k] == u[j];
            assert s[k + 1] == u[j];
          }
        }
      }
    }
  }

  lemma NamedSorted(m: Str, s: seq<nat>, name: map<nat, Str>)
    requires Comparable(m, s) && AllNamed(s, name)
    ensures AllNamed(SortPtrs(m, s), name) && forall y :: y in SortPtrs(m, s) ==> y in s
  {
    var r := SortPtrs(m, s);
    hide SortPtrs;
    forall y | y in r ensures y in s { assert y in multiset(r); }
    forall i | 0 <= i < |r| ensures r[i] in name { assert r[i] in r; }
  }

  lemma {:induction false} SortPtrsSorts(m: Str, s: seq<nat>, name: map<nat, Str>)
    requires OrdersLike(m, name) && AllNamed(s, name) && Comparable(m, s)
    requires forall i, j :: 0 <= i < j < |s| ==> s[i] != s[j]
    ensures AllNamed(SortPtrs(m, s), name) && NamesIncrease(SortPtrs(m, s), name)
  {
    hide Before, Less, InsertPtr, OrdersLike;
    NamedSorted(m, s, name);
    if s != [] {
      var t := s[1..];
      assert forall i :: 0 <= i < |t| ==> t[i] == s[i + 1];
      SortPtrsSorts(m, t, name);
      NamedSorted(m, t, name);
      InsertPtrSorts(m, s[0], SortPtrs(m, t), name);
    }
  }

  /**
   SortEntries: the pointers come out in strcmp order of their names, and the buffer is as it was.
   */
  method SortEntries(mem: array<Byte>, ptrs: seq<nat>, ghost names: seq<Str>) returns (sorted: seq<nat>)
    requires Layout(mem[..], ptrs, names) && Distinct(names)
    modifies mem
    ensures mem[..] == old(mem[..])
    ensures multiset(sorted) == multiset(ptrs)
    ensures forall i, j, a, b ::
              (0 <= i < j < |sorted| && 0 <= a < |ptrs| && 0 <= b < |ptrs| && sorted[i] == ptrs[a] && sorted[j] == ptrs[b])
              ==> Less(names[a], names[b])
  {
    hide Before, Less, Swapped, Layout, Reversed, SortPtrs, OrdersLike;
    ghost var m0 := mem[..];
    LayoutWindows(m0, ptrs, names);
    SwapBytes(mem, ptrs);
    ghost var m1 := mem[..];
    ghost var name := NameMap(m0, ptrs, names);
    SwappedOrdersLike(m0, m1, ptrs, names, name);
    sorted := SortPtrs(mem[..], ptrs);
    SortPtrsSorts(m1, ptrs, name);
    PermutationApart(mem.Length, ptrs, sorted);
    SwapBytes(mem, sorted);
    SwapTwice(m0, m1, mem[..], ptrs, sorted);
  }

  lemma LayoutWindows(m: Str, ptrs: seq<nat>, names: seq<Str>)
    requires Layout(m, ptrs, names)
    ensures WindowsApart(|m|, ptrs) && |ptrs| == |names| && (forall i, j :: 0 <= i < j < |ptrs| ==> ptrs[i] != ptrs[j])
  {
    assert forall i :: 0 <= i < |ptrs| ==> Names(m, ptrs[i], names[i]);
  }

  /** Which name each pointer points to. */
  ghost function NameMap(m: Str, ptrs: seq<nat>, names: seq<Str>): (r: map<nat, Str>)
    requires Layout(m, ptrs, names)
    ensures forall i :: 0 <= i < |ptrs| ==> ptrs[i] in r && r[ptrs[i]] == names[i]
    ensures forall p :: p in r ==> p in ptrs
  {
    LayoutWindows(m, ptrs, names);
    map p | p in ptrs :: var i :| 0 <= i < |ptrs| && ptrs[i] == p; names[i]
  }

  lemma SwappedPair(m0: Str, m1: Str, ptrs: seq<nat>, names: seq<Str>, i: nat, j: nat)
    requires Layout(m0, ptrs, names) && Distinct(names) && Swapped(m0, m1, ptrs) && i < |ptrs| && j < |ptrs| && i != j
    ensures ptrs[i] + SKIP + COMPARED <= |m1| && ptrs[j] + SKIP + COMPARED <= |m1|
    ensures OrderedPair(m1, ptrs[i], ptrs[j], names[i], names[j])
  {
    assert Names(m0, ptrs[i], names[i]) && Names(m0, ptrs[j], names[j]);
    SwappedNames(m0, m1, ptrs, names, i);
    SwappedNames(m0, m1, ptrs, names, j);
    hide Before, Less, Swapped, Layout, Restored, Reversed;
    assert names[i] != names[j] by { if i < j { assert names[i] != names[j]; } else { assert names[j] != names[i]; } }
    ComparatorIsStrcmp(m1, ptrs[i], ptrs[j], names[i], names[j]);
  }

  lemma SwappedOrdersLike(m0: Str, m1: Str, ptrs: seq<nat>, names: seq<Str>, name: map<nat, Str>)
    requires Layout(m0, ptrs, names) && Distinct(names) && Swapped(m0, m1, ptrs)
    requires forall i :: 0 <= i < |ptrs| ==> ptrs[i] in name && name[ptrs[i]] == names[i]
    requires forall p :: p in name ==> p in ptrs
    ensures OrdersLike(m1, name) && AllNamed(ptrs, name) && Comparable(m1, ptrs)
  {
    hide Before, Less, Swapped, Layout, Restored, Reversed, OrderedPair, Distinct;
    LayoutWindows(m0, ptrs, names);
    forall i | 0 <= i < |ptrs| ensures ptrs[i] + SKIP + COMPARED <= |m1| { SwappedNames(m0, m1, ptrs, names, i); }
    forall x, y | x in name && y in name && x != y ensures OrderedPair(m1, x, y, name[x], name[y]) {
      var i :| 0 <= i < |ptrs| && ptrs[i] == x;
      var j :| 0 <= j < |ptrs| && ptrs[j] == y;
      SwappedPair(m0, m1, ptrs, names, i, j);
    }
  }

  lemma PermutationApart(n: nat, ptrs: seq<nat>, sorted: seq<nat>)
    requires WindowsApart(n, ptrs) && multiset(ptrs) == multiset(sorted)
    ensures WindowsApart(n, sorted) && forall p :: p in ptrs <==> p in sorted
  {
    forall p ensures p in ptrs <==> p in sorted {
      assert p in ptrs <==> p in multiset(ptrs);
      assert p in sorted <==> p in multiset(sorted);
    }
    forall i, j | 0 <= i < j < |sorted| ensures sorted[i] + KEY <= sorted[j] || sorted[j] + KEY <= sorted[i] {
      var x, y := sorted[i], sorted[j];
      assert x in ptrs && y in ptrs;
      OnceInMultiset(n, ptrs, x);
      if x == y {
        TwiceInMultiset(sorted, i, j);
      } else {
        var a :| 0 <= a < |ptrs| && ptrs[a] == x;
        var b :| 0 <= b < |ptrs| && ptrs[b] == y;
      }
    }
    forall i | 0 <= i < |sorted| ensures sorted[i] + KEY <= n { assert sorted[i] in ptrs; }
  }

  lemma TwiceInMultiset(s: seq<nat>, i: nat, j: nat)
    requires i < j < |s| && s[i] == s[j]
    ensures multiset(s)[s[i]] >= 2
  {
    assert s == s[..j] + s[j..];
    assert s[i] in s[..j] && s[j] in s[j..];
  }

  lemma {:induction false} OnceInMultiset(n: nat, s: seq<nat>, x: nat)
    requires WindowsApart(n, s)
    ensures multiset(s)[x] <= 1
  {
    if s != [] {
      var t := s[1..];
      assert s == [s[0]] + t;
      assert forall i :: 0 <= i < |t| ==> t[i] == s[i + 1];
      OnceInMultiset(n, t, x);
      assert s[0] !in t;
    }
  }
}
