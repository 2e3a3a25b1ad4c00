/**
 Slash-separated paths as byte strings. A directory is named the way index.cc names it: the prefix of a path
 up to and including a slash, or the empty string for the root.
 */
module Paths {
  import opened ByteStrings

  predicate EndsWithSlash(s: Str) { s != [] && s[|s| - 1] == SLASH }

  predicate IsName(x: Str) { SLASH !in x }

  /** Index of the last slash, or -1. */
  function LastSlash(s: Str): (r: int)
    ensures -1 <= r < |s|
    ensures r >= 0 ==> s[r] == SLASH
    ensures forall i :: r < i < |s| ==> s[i] != SLASH
  {
    if s == [] then -1
    else if s[|s| - 1] == SLASH then |s| - 1
    else LastSlash(s[..|s| - 1])
  }

  /** The directory of a path, with its slash; empty at the root. */
  function DirOf(s: Str): (d: Str)
    ensures HasPrefix(s, d) && (d == [] || EndsWithSlash(d))
    ensures IsName(s[|d|..])
  {
    s[..LastSlash(s) + 1]
  }

  /** d is one of the directories that path p goes through. */
  predicate IsDirOf(d: Str, p: Str) {
    HasPrefix(p, d) && (d == [] || EndsWithSlash(d))
  }

  /** The directory `name` inside d. */
  function Child(d: Str, name: Str): Str { d + name + [SLASH] }

  function Parent(d: Str): Str
    requires EndsWithSlash(d)
  {
    DirOf(d[..|d| - 1])
  }

  function Basename(d: Str): Str
    requires EndsWithSlash(d)
  {
    d[|Parent(d)|..|d| - 1]
  }

  /** The number of slashes. */
  function Depth(s: Str): nat {
    if s == [] then 0 else Depth(s[..|s| - 1]) + (if s[|s| - 1] == SLASH then 1 else 0)
  }

  lemma NestedDirs(a: Str, b: Str, p: Str)
    requires IsDirOf(a, p) && IsDirOf(b, p) && |a| <= |b|
    ensures IsDirOf(a, b)
  {
    assert b[..|a|] == p[..|b|][..|a|] == p[..|a|];
  }

  lemma DirOfDir(a: Str, b: Str, p: Str)
    requires IsDirOf(a, b) && HasPrefix(p, b)
    ensures IsDirOf(a, p)
  {
    assert p[..|a|] == p[..|b|][..|a|];
  }

  lemma DirOfIsDeepest(d: Str, p: Str)
    requires IsDirOf(d, p)
    ensures |d| <= |DirOf(p)| && IsDirOf(d, DirOf(p))
  {
    if d != [] {
      assert p[|d| - 1] == p[..|d|][|d| - 1] == SLASH;
    }
    NestedDirs(d, DirOf(p), p);
  }

  lemma ParentOfChild(d: Str, name: Str)
    requires (d == [] || EndsWithSlash(d)) && IsName(name)
    ensures EndsWithSlash(Child(d, name))
    ensures Parent(Child(d, name)) == d && Basename(Child(d, name)) == name
  {
    var c := Child(d, name);
    var s := c[..|c| - 1];
    assert s == d + name;
    var r := LastSlash(s);
    assert forall k :: |d| <= k < |s| ==> s[k] == name[k - |d|];
    if d != [] { assert s[|d| - 1] == SLASH; }
    assert r == |d| - 1;
  }

  lemma ChildIsInjective(a: Str, x: Str, b: Str, y: Str)
    requires (a == [] || EndsWithSlash(a)) && (b == [] || EndsWithSlash(b)) && IsName(x) && IsName(y)
    ensures Child(a, x) == Child(b, y) <==> a == b && x == y
  {
    ParentOfChild(a, x);
    ParentOfChild(b, y);
  }

  lemma ChildOfParent(d: Str)
    requires EndsWithSlash(d)
    ensures d == Child(Parent(d), Basename(d)) && IsName(Basename(d)) && IsDirOf(Parent(d), d)
    ensures |Parent(d)| < |d|
  {
    var s := d[..|d| - 1];
    assert Basename(d) == s[|Parent(d)|..];
    assert d == s + [SLASH] && s == Parent(d) + s[|Parent(d)|..];
  }

  lemma {:induction false} DepthOfConcat(a: Str, b: Str)
    ensures Depth(a + b) == Depth(a) + Depth(b)
  {
    if b == [] {
      assert a + b == a;
    } else {
      assert (a + b)[..|a + b| - 1] == a + b[..|b| - 1];
      DepthOfConcat(a, b[..|b| - 1]);
    }
  }

  lemma {:induction false} DepthOfName(x: Str)
    requires IsName(x)
    ensures Depth(x) == 0
  {
    if x != [] {
      assert x[|x| - 1] in x;
      DepthOfName(x[..|x| - 1]);
    }
  }

  lemma DepthOfChild(d: Str, name: Str)
    requires IsName(name)
    ensures Depth(Child(d, name)) == Depth(d) + 1
  {
    assert Child(d, name)[..|Child(d, name)| - 1] == d + name;
    DepthOfConcat(d, name);
    DepthOfName(name);
  }

  /** The directories of one path are ordered by depth. */
  lemma DepthIsMonotone(a: Str, b: Str)
    requires IsDirOf(a, b) && (b == [] || EndsWithSlash(b))
    ensures Depth(a) <= Depth(b)
    ensures Depth(a) == Depth(b) ==> a == b
  {
    var rest := b[|a|..];
    assert b == a + rest;
    DepthOfConcat(a, rest);
    if rest != [] {
      assert rest[|rest| - 1] == SLASH;
      assert Depth(rest) >= 1;
    }
  }
}
