/**
 index.cc, InitDirs: one pass over the sorted index with a stack of open directories builds the directory tree.

 Case-sensitive mode. A directory points into the path of the index entry that created it (`owner`); CommonDir
 compares with that whole path, not only with the directory's own part of it.
 */
module DirTree {
  import opened ByteStrings
  import opened Paths

  /** struct IndexDir. `files` holds indices into the git index, `owner` is -1 for the root. */
  datatype Dir = Dir(path: Str, basename: Str, depth: nat, files: seq<nat>, subdirs: seq<Str>, owner: int)

  const ROOT := Dir([], [], 0, [], [], -1)

  /** The C string that dir.path.ptr points to. */
  function Source(d: Dir, index: seq<Str>): Str
    requires d.owner < |index|
  {
    if d.owner < 0 then [] else index[d.owner]
  }

  function Weight(d: Dir): nat { 1 + |d.subdirs| + |d.files| }

  function TotalWeight(dirs: seq<Dir>): nat {
    if dirs == [] then 0 else TotalWeight(dirs[..|dirs| - 1]) + Weight(dirs[|dirs| - 1])
  }

  function Reverse(s: seq<Dir>): (r: seq<Dir>)
    ensures |r| == |s|
  {
    if s == [] then [] else [s[|s| - 1]] + Reverse(s[..|s| - 1])
  }

  /** CommonDir: the longest directory that both strings go through, and its depth. */
  method CommonDir(a: Str, b: Str) returns (len: nat, depth: nat)
    ensures len <= |a| && len <= |b| && a[..len] == b[..len]
    ensures IsDirOf(a[..len], a) && depth == Depth(a[..len])
    ensures forall d :: IsDirOf(d, a) && IsDirOf(d, b) ==> |d| <= len
  {
    len, depth := 0, 0;
    var i := 0;
    while i < |a| && i < |b| && a[i] == b[i]
      invariant 0 <= len <= i <= |a| && i <= |b| && a[..i] == b[..i]
      invariant len == 0 || a[len - 1] == SLASH
      invariant depth == Depth(a[..len]) == Depth(a[..i])
      invariant forall k :: len <= k < i ==> a[k] != SLASH
    {
      assert a[..i + 1][..i] == a[..i];
      if a[i] == SLASH {
        len := i + 1;
        depth := depth + 1;
      }
      i := i + 1;
    }
    assert a[..len] == a[..i][..len] == b[..i][..len] == b[..len];
    forall d | IsDirOf(d, a) && IsDirOf(d, b) ensures |d| <= len {
      assert forall k :: 0 <= k < |d| ==> a[k] == d[k] && b[k] == d[k];
    }
  }

  /* ---- the tree that an index stands for ---- */

  ghost function PathsOf(dirs: seq<Dir>): (r: seq<Str>)
    ensures |r| == |dirs| && forall k :: 0 <= k < |dirs| ==> r[k] == dirs[k].path
  {
    seq(|dirs|, k requires 0 <= k < |dirs| => dirs[k].path)
  }

  /** d is the root or a directory of one of the first i entries, or of length at most len and one of entry i. */
  ghost predicate Known(index: seq<Str>, i: nat, len: nat, d: Str) {
    || d == []
    || (exists j :: 0 <= j < i && j < |index| && IsDirOf(d, index[j]))
    || (i < |index| && |d| <= len && IsDirOf(d, index[i]))
  }

  /** Neighbours in the list: the parent of the next directory is the previous one or one of its ancestors. */
  ghost predicate Follows(p: Str, d: Str) {
    EndsWithSlash(d) && IsDirOf(Parent(d), p)
  }

  ghost predicate Shape(paths: seq<Str>, index: seq<Str>, i: nat, len: nat) {
    && paths != [] && paths[0] == []
    && Distinct(paths)
    && (forall d :: d in paths <==> Known(index, i, len, d))
    && (forall k, l :: 0 <= k < l < |paths| && l == k + 1 ==> Follows(paths[k], paths[l]))
  }

  /** The files of d are the first i entries that lie in it, in order. */
  ghost predicate FilesOk(d: Dir, index: seq<Str>, i: nat)
    requires i <= |index|
  {
    && (forall a, b :: 0 <= a < b < |d.files| ==> d.files[a] < d.files[b])
    && (forall j :: j in d.files <==> 0 <= j < i && DirOf(index[j]) == d.path)
  }

  /** The subdirs of d are the names of its children, each once. */
  ghost predicate SubdirsOk(d: Dir, paths: seq<Str>) {
    && Distinct(d.subdirs)
    && (forall x :: x in d.subdirs <==> IsName(x) && Child(d.path, x) in paths)
  }

  ghost predicate LabelOk(d: Dir, index: seq<Str>, m: nat) {
    && d.depth == Depth(d.path)
    && (d.path == [] || (EndsWithSlash(d.path) && d.basename == Basename(d.path)))
    && d.owner < m && (d.owner < 0 ==> d.path == [])
    && (0 <= d.owner < |index| ==> HasPrefix(index[d.owner], d.path))
  }

  ghost predicate DirOk(d: Dir, paths: seq<Str>, index: seq<Str>, i: nat, m: nat)
    requires i <= |index|
  {
    LabelOk(d, index, m) && FilesOk(d, index, i) && SubdirsOk(d, paths)
  }

  ghost predicate DirsOk(dirs: seq<Dir>, index: seq<Str>, i: nat, m: nat)
    requires i <= |index|
  {
    forall k :: 0 <= k < |dirs| ==> DirOk(dirs[k], PathsOf(dirs), index, i, m)
  }

  /** dirs is exactly the directory tree of the index. */
  ghost predicate IsTreeOf(dirs: seq<Dir>, index: seq<Str>) {
    && Shape(PathsOf(dirs), index, |index|, 0)
    && DirsOk(dirs, index, |index|, |index|)
    && forall k :: 0 <= k < |dirs| ==> StrictlySorted(dirs[k].subdirs)
  }

  /** The stack: each directory is the parent of the one above it. */
  ghost predicate Chain(paths: seq<Str>, n: nat) {
    && 0 < n <= |paths|
    && paths[0] == []
    && forall k, l :: 0 <= k < l < n && l == k + 1 ==> IsParent(paths[k], paths[l])
  }

  ghost predicate IsParent(p: Str, d: Str) { EndsWithSlash(d) && Parent(d) == p }

  /* ---- facts about the stack ---- */

  lemma {:induction false} ChainHoldsAncestors(paths: seq<Str>, n: nat, k: nat)
    requires Chain(paths, n) && k < n
    ensures paths[k] == [] || EndsWithSlash(paths[k])
    ensures Depth(paths[k]) == k
    ensures forall l :: k <= l < n ==> IsDirOf(paths[k], paths[l])
    decreases k
  {
    if k > 0 {
      assert IsParent(paths[k - 1], paths[k]);
      ChainHoldsAncestors(paths, n, k - 1);
      ChildOfParent(paths[k]);
      DepthOfChild(paths[k - 1], Basename(paths[k]));
    }
    var l := k;
    while l + 1 < n
      invariant k <= l < n
      invariant forall j :: k <= j <= l ==> IsDirOf(paths[k], paths[j])
    {
      l := l + 1;
      assert IsParent(paths[l - 1], paths[l]);
      ChildOfParent(paths[l]);
      DirOfDir(paths[k], paths[l - 1], paths[l]);
    }
  }

  /** The directory of the top's path at a given depth sits at that position of the stack. */
  lemma ChainAtDepth(paths: seq<Str>, n: nat, c: Str)
    requires Chain(paths, n) && IsDirOf(c, paths[n - 1])
    ensures Depth(c) < n && paths[Depth(c)] == c
  {
    ChainHoldsAncestors(paths, n, n - 1);
    DepthIsMonotone(c, paths[n - 1]);
    var k := Depth(c);
    ChainHoldsAncestors(paths, n, k);
    if |c| <= |paths[k]| {
      NestedDirs(c, paths[k], paths[n - 1]);
      DepthIsMonotone(c, paths[k]);
    } else {
      NestedDirs(paths[k], c, paths[n - 1]);
      DepthIsMonotone(paths[k], c);
    }
  }

  /** Sortedness: a directory shared by an earlier entry and the next one is shared by all entries between. */
  lemma SharedDirIsCurrent(index: seq<Str>, j: nat, i: nat, d: Str)
    requires Sorted(index) && j < i < |index|
    requires IsDirOf(d, index[j]) && IsDirOf(d, index[i])
    ensures IsDirOf(d, index[i - 1]) && |d| <= |DirOf(index[i - 1])|
  {
    PrefixInterval(d, index[j], index[i - 1], index[i]);
    DirOfIsDeepest(d, index[i - 1]);
  }

  /** CHECK(common_depth <= prev->depth). */
  lemma CommonDirIsOnStack(paths: seq<Str>, n: nat, index: seq<Str>, i: nat, owner: int, c: Str)
    requires Sorted(index) && i < |index| && Chain(paths, n)
    requires i > 0 ==> paths[n - 1] == DirOf(index[i - 1])
    requires owner < i && (owner < 0 ==> paths[n - 1] == [])
    requires owner >= 0 ==> HasPrefix(index[owner], paths[n - 1])
    requires IsDirOf(c, if owner < 0 then [] else index[owner]) && IsDirOf(c, index[i])
    ensures IsDirOf(c, paths[n - 1])
  {
    if owner >= 0 {
      SharedDirIsCurrent(index, owner, i, c);
      NestedDirs(c, paths[n - 1], index[owner]);
    }
  }

  /* ---- one step each: pop, push, add a file ---- */

  lemma KnownIsClosed(index: seq<Str>, i: nat, len: nat, d: Str, c: Str)
    requires Known(index, i, len, c) && IsDirOf(d, c)
    ensures Known(index, i, len, d)
  {
    if j :| 0 <= j < i && j < |index| && IsDirOf(c, index[j]) {
      DirOfDir(d, c, index[j]);
    } else if c != [] {
      DirOfDir(d, c, index[i]);
    }
  }

  /** Entry i goes through c, which is already known, so all its directories up to c are. */
  lemma StartEntry(paths: seq<Str>, index: seq<Str>, i: nat, c: Str)
    requires i < |index| && Shape(paths, index, i, 0) && c in paths && IsDirOf(c, index[i])
    ensures Shape(paths, index, i, |c|)
  {
    forall d ensures d in paths <==> Known(index, i, |c|, d) {
      if |d| <= |c| && IsDirOf(d, index[i]) {
        NestedDirs(d, c, index[i]);
        KnownIsClosed(index, i, 0, d, c);
      }
    }
  }

  lemma FinishEntry(paths: seq<Str>, index: seq<Str>, i: nat, len: nat)
    requires i < |index| && Shape(paths, index, i, len) && len == |DirOf(index[i])|
    ensures Shape(paths, index, i + 1, 0)
  {
    forall d ensures Known(index, i, len, d) <==> Known(index, i + 1, 0, d) {
      if IsDirOf(d, index[i]) { DirOfIsDeepest(d, index[i]); }
      if d != [] && Known(index, i + 1, 0, d) {
        var j :| 0 <= j < i + 1 && j < |index| && IsDirOf(d, index[j]);
      }
    }
  }

  ghost function PushPath(paths: seq<Str>, n: nat, d: Str): seq<Str>
    requires n <= |paths|
  {
    paths[..n] + [d] + paths[n..]
  }

  /** The next slash of entry i opens the directory d. */
  ghost predicate OpensNext(paths: seq<Str>, n: nat, index: seq<Str>, i: nat, name: Str) {
    && Sorted(index) && i < |index| && Chain(paths, n) && IsName(name)
    && Shape(paths, index, i, |paths[n - 1]|)
    && IsDirOf(paths[n - 1], index[i])
    && IsDirOf(Child(paths[n - 1], name), index[i])
    && (i > 0 ==> !IsDirOf(Child(paths[n - 1], name), index[i - 1]))
  }

  lemma NewDirIsUnknown(paths: seq<Str>, n: nat, index: seq<Str>, i: nat, name: Str)
    requires OpensNext(paths, n, index, i, name)
    ensures Child(paths[n - 1], name) !in paths
  {
    var d := Child(paths[n - 1], name);
    if d in paths {
      assert Known(index, i, |paths[n - 1]|, d);
      var j :| 0 <= j < i && j < |index| && IsDirOf(d, index[j]);
      SharedDirIsCurrent(index, j, i, d);
    }
  }

  lemma PushKnown(index: seq<Str>, i: nat, t: Str, name: Str, e: Str)
    requires i < |index| && IsName(name) && IsDirOf(t, index[i]) && IsDirOf(Child(t, name), index[i])
    ensures Known(index, i, |Child(t, name)|, e) <==> Known(index, i, |t|, e) || e == Child(t, name)
  {
    var d := Child(t, name);
    if IsDirOf(e, index[i]) && |t| < |e| <= |d| {
      NestedDirs(e, d, index[i]);
      assert forall k :: |t| <= k < |d| - 1 ==> d[k] == name[k - |t|];
      assert e[|e| - 1] == d[|e| - 1];
    }
  }

  lemma PushShape(paths: seq<Str>, n: nat, index: seq<Str>, i: nat, name: Str)
    requires OpensNext(paths, n, index, i, name)
    ensures var d := Child(paths[n - 1], name);
            Shape(PushPath(paths, n, d), index, i, |d|) && Chain(PushPath(paths, n, d), n + 1)
  {
    var t := paths[n - 1];
    var d := Child(t, name);
    var r := PushPath(paths, n, d);
    NewDirIsUnknown(paths, n, index, i, name);
    ParentOfChild(t, name);
    forall e ensures e in r <==> Known(index, i, |d|, e) {
      PushedMember(paths, n, d, e);
      PushKnown(index, i, t, name, e);
    }
    PushDistinct(paths, n, d);
    PushOrder(paths, n, d);
  }

  lemma PushedAt(paths: seq<Str>, n: nat, d: Str)
    requires n <= |paths|
    ensures var r := PushPath(paths, n, d);
            && |r| == |paths| + 1
            && (forall k :: 0 <= k < n ==> r[k] == paths[k])
            && r[n] == d
            && (forall k :: n < k < |r| ==> r[k] == paths[k - 1])
  {
  }

  lemma PushedMember(paths: seq<Str>, n: nat, d: Str, e: Str)
    requires n <= |paths|
    ensures e in PushPath(paths, n, d) <==> e in paths || e == d
  {
    assert paths == paths[..n] + paths[n..];
  }

  lemma PushDistinct(paths: seq<Str>, n: nat, d: Str)
    requires n <= |paths| && d !in paths && Distinct(paths)
    ensures Distinct(PushPath(paths, n, d))
  {
    PushedAt(paths, n, d);
    var r := PushPath(paths, n, d);
    forall i, j | 0 <= i < j < |r| ensures r[i] != r[j] {
      var a, b := if i < n then i else i - 1, if j <= n then j else j - 1;
      if i != n && j != n {
        assert paths[a] != paths[b];
      }
    }
  }

  lemma PushOrder(paths: seq<Str>, n: nat, d: Str)
    requires Chain(paths, n) && IsParent(paths[n - 1], d)
    requires forall k, l :: 0 <= k < l < |paths| && l == k + 1 ==> Follows(paths[k], paths[l])
    ensures var r := PushPath(paths, n, d);
            && Chain(r, n + 1)
            && forall k, l :: 0 <= k < l < |r| && l == k + 1 ==> Follows(r[k], r[l])
  {
    var r := PushPath(paths, n, d);
    ChildOfParent(d);
    PushedAt(paths, n, d);
    forall k, l | 0 <= k < l < |r| && l == k + 1 ensures Follows(r[k], r[l]) {
      if l == n + 1 {
        assert Follows(paths[n - 1], paths[n]);
        DirOfDir(Parent(paths[n]), paths[n - 1], d);
      } else if l > n + 1 {
        assert Follows(paths[k - 1], paths[l - 1]);
      }
    }
  }

  ghost function PushDir(all: seq<Dir>, n: nat, name: Str, owner: int): seq<Dir>
    requires 0 < n <= |all|
  {
    var top := all[n - 1];
    all[..n - 1] + [top.(subdirs := top.subdirs + [name]), Dir(Child(top.path, name), name, n, [], [], owner)] + all[n..]
  }

  lemma PushSubdirs(d: Dir, paths: seq<Str>, n: nat, name: Str)
    requires SubdirsOk(d, paths) && 0 < n <= |paths| && IsName(name)
    requires d.path == [] || EndsWithSlash(d.path)
    requires paths[n - 1] == [] || EndsWithSlash(paths[n - 1])
    requires Child(paths[n - 1], name) !in paths
    ensures var r := PushPath(paths, n, Child(paths[n - 1], name));
            if d.path == paths[n - 1] then SubdirsOk(d.(subdirs := d.subdirs + [name]), r) else SubdirsOk(d, r)
  {
    var t := paths[n - 1];
    var c := Child(t, name);
    var r := PushPath(paths, n, c);
    var subdirs := if d.path == t then d.subdirs + [name] else d.subdirs;
    assert name in d.subdirs ==> Child(d.path, name) in paths;
    forall x ensures x in subdirs <==> IsName(x) && Child(d.path, x) in r {
      if IsName(x) { ChildIsInjective(d.path, x, t, name); }
      PushedMember(paths, n, c, Child(d.path, x));
    }
  }

  lemma PushDirPaths(all: seq<Dir>, n: nat, name: Str, owner: int)
    requires 0 < n <= |all|
    ensures PathsOf(PushDir(all, n, name, owner)) == PushPath(PathsOf(all), n, Child(all[n - 1].path, name))
  {
    PushedAt(PathsOf(all), n, Child(all[n - 1].path, name));
  }

  /** A directory that was there before the push. */
  lemma PushOther(d: Dir, paths: seq<Str>, n: nat, index: seq<Str>, i: nat, name: Str)
    requires 0 < n <= |paths| && i < |index| && IsName(name) && DirOk(d, paths, index, i, i + 1)
    requires paths[n - 1] == [] || EndsWithSlash(paths[n - 1])
    requires Child(paths[n - 1], name) !in paths
    ensures var r := PushPath(paths, n, Child(paths[n - 1], name));
            if d.path == paths[n - 1] then DirOk(d.(subdirs := d.subdirs + [name]), r, index, i, i + 1)
            else DirOk(d, r, index, i, i + 1)
  {
    PushSubdirs(d, paths, n, name);
  }

  /** One directory after the push. */
  lemma PushedElement(all: seq<Dir>, paths: seq<Str>, n: nat, index: seq<Str>, i: nat, name: Str, k: nat)
    requires 0 < n <= |all| && i < |index| && IsName(name) && k < |all| && paths == PathsOf(all)
    requires DirOk(all[k], paths, index, i, i + 1) && Distinct(paths)
    requires paths[n - 1] == [] || EndsWithSlash(paths[n - 1])
    requires Child(paths[n - 1], name) !in paths
    ensures DirOk(PushDir(all, n, name, i)[if k < n then k else k + 1],
                  PushPath(paths, n, Child(paths[n - 1], name)), index, i, i + 1)
  {
    PushOther(all[k], paths, n, index, i, name);
    assert paths[k] == paths[n - 1] ==> k == n - 1;
  }

  lemma PushDirs(all: seq<Dir>, n: nat, index: seq<Str>, i: nat, name: Str)
    requires 0 < n <= |all| && i < |index| && DirsOk(all, index, i, i + 1)
    requires OpensNext(PathsOf(all), n, index, i, name)
    ensures DirsOk(PushDir(all, n, name, i), index, i, i + 1)
  {
    hide DirOk, OpensNext, PathsOf, IsName, EndsWithSlash, Distinct, Child, PushPath;
    var paths := PathsOf(all);
    var r := PushDir(all, n, name, i);
    PushDirPaths(all, n, name, i);
    PushFacts(paths, n, index, i, name);
    PushedDirOk(all, n, index, i, name, r[n]);
    forall k | 0 <= k < |r| && k != n ensures DirOk(r[k], PathsOf(r), index, i, i + 1) {
      PushedElement(all, paths, n, index, i, name, if k < n then k else k - 1);
    }
  }

  lemma PushFacts(paths: seq<Str>, n: nat, index: seq<Str>, i: nat, name: Str)
    requires OpensNext(paths, n, index, i, name)
    ensures IsName(name) && Distinct(paths) && 0 < n <= |paths| && Child(paths[n - 1], name) !in paths
    ensures paths[n - 1] == [] || EndsWithSlash(paths[n - 1])
  {
    NewDirIsUnknown(paths, n, index, i, name);
    ChainHoldsAncestors(paths, n, n - 1);
  }

  lemma PushedDirOk(all: seq<Dir>, n: nat, index: seq<Str>, i: nat, name: Str, d: Dir)
    requires 0 < n <= |all| && i < |index| && OpensNext(PathsOf(all), n, index, i, name)
    requires d == Dir(Child(all[n - 1].path, name), name, n, [], [], i)
    ensures DirOk(d, PushPath(PathsOf(all), n, d.path), index, i, i + 1)
  {
    var paths := PathsOf(all);
    var t := paths[n - 1];
    NewDirIsUnknown(paths, n, index, i, name);
    ParentOfChild(t, name);
    ChainHoldsAncestors(paths, n, n - 1);
    DepthOfChild(t, name);
    forall j | 0 <= j < i ensures DirOf(index[j]) != d.path {
      assert IsDirOf(DirOf(index[j]), index[j]);
      assert Known(index, i, |t|, DirOf(index[j]));
    }
    forall x | IsName(x) ensures Child(d.path, x) !in PushPath(paths, n, d.path) {
      var c := Child(d.path, x);
      PushedMember(paths, n, d.path, c);
      if c in paths {
        ParentOfChild(d.path, x);
        ChildOfParent(c);
        KnownIsClosed(index, i, |t|, d.path, c);
      }
    }
  }

  lemma AddFileTo(d: Dir, index: seq<Str>, i: nat)
    requires i < |index| && FilesOk(d, index, i)
    ensures if DirOf(index[i]) == d.path then FilesOk(d.(files := d.files + [i]), index, i + 1) else FilesOk(d, index, i + 1)
  {
    assert forall a :: 0 <= a < |d.files| ==> d.files[a] in d.files;
  }

  lemma AddFileOk(all: seq<Dir>, n: nat, index: seq<Str>, i: nat, r: seq<Dir>)
    requires 0 < n <= |all| && i < |index| && DirsOk(all, index, i, i + 1) && Distinct(PathsOf(all))
    requires all[n - 1].path == DirOf(index[i])
    requires r == all[n - 1 := all[n - 1].(files := all[n - 1].files + [i])]
    ensures DirsOk(r, index, i + 1, i + 1) && PathsOf(r) == PathsOf(all)
  {
    var paths := PathsOf(all);
    assert PathsOf(r) == paths;
    forall k | 0 <= k < |r| ensures DirOk(r[k], paths, index, i + 1, i + 1) {
      AddedElement(all, paths, n, index, i, k);
    }
  }

  lemma AddedElement(all: seq<Dir>, paths: seq<Str>, n: nat, index: seq<Str>, i: nat, k: nat)
    requires 0 < n <= |all| && i < |index| && k < |all| && paths == PathsOf(all)
    requires DirOk(all[k], paths, index, i, i + 1) && Distinct(paths)
    requires all[n - 1].path == DirOf(index[i])
    ensures DirOk(all[n - 1 := all[n - 1].(files := all[n - 1].files + [i])][k], paths, index, i + 1, i + 1)
  {
    AddFileAt(all[k], paths, index, i);
    assert paths[k] == paths[n - 1] ==> k == n - 1;
  }

  lemma AddFileAt(d: Dir, paths: seq<Str>, index: seq<Str>, i: nat)
    requires i < |index| && DirOk(d, paths, index, i, i + 1)
    ensures if DirOf(index[i]) == d.path then DirOk(d.(files := d.files + [i]), paths, index, i + 1, i + 1)
            else DirOk(d, paths, index, i + 1, i + 1)
  {
    AddFileTo(d, index, i);
  }

  lemma SortTopOk(all: seq<Dir>, k: nat, index: seq<Str>, i: nat, m: nat, sorted: seq<Str>, r: seq<Dir>)
    requires k < |all| && i <= |index| && DirsOk(all, index, i, m)
    requires sorted == if IsSorted(all[k].subdirs) then all[k].subdirs else StrSort(all[k].subdirs)
    requires r == all[k := all[k].(subdirs := sorted)]
    ensures DirsOk(r, index, i, m) && PathsOf(r) == PathsOf(all) && StrictlySorted(sorted)
  {
    assert PathsOf(r) == PathsOf(all);
    SortIfNeeded(all[k].subdirs, sorted);
    assert DirOk(all[k], PathsOf(all), index, i, m);
    forall l | 0 <= l < |r| ensures DirOk(r[l], PathsOf(r), index, i, m) {
      assert DirOk(all[l], PathsOf(all), index, i, m);
    }
  }

  /* ---- InitDirs ---- */

  /** The whole list as it would be if the stack were popped now. */
  ghost function All(stack: seq<Dir>, popped: seq<Dir>): seq<Dir> { stack + Reverse(popped) }

  ghost predicate Building(stack: seq<Dir>, popped: seq<Dir>, index: seq<Str>, i: nat, len: nat, m: nat)
    requires i <= |index|
  {
    var all := All(stack, popped);
    && Shape(PathsOf(all), index, i, len)
    && DirsOk(all, index, i, m)
    && (stack != [] ==> Chain(PathsOf(all), |stack|))
    && (forall k :: |stack| <= k < |all| ==> StrictlySorted(all[k].subdirs))
  }

  lemma ReverseAppend(s: seq<Dir>, d: Dir)
    ensures Reverse(s + [d]) == [d] + Reverse(s)
  {
    assert (s + [d])[..|s|] == s;
  }

  lemma {:induction false} TotalWeightOfReverse(s: seq<Dir>)
    ensures TotalWeight(Reverse(s)) == TotalWeight(s)
  {
    if s != [] {
      TotalWeightOfReverse(s[..|s| - 1]);
      TotalWeightPrepend(s[|s| - 1], Reverse(s[..|s| - 1]));
    }
  }

  lemma {:induction false} TotalWeightPrepend(d: Dir, s: seq<Dir>)
    ensures TotalWeight([d] + s) == Weight(d) + TotalWeight(s)
  {
    if s == [] {
      assert ([d] + s)[..0] == [];
    } else {
      assert ([d] + s)[..|s|] == [d] + s[..|s| - 1];
      TotalWeightPrepend(d, s[..|s| - 1]);
    }
  }

  lemma TopOfStack(stack: seq<Dir>, popped: seq<Dir>, index: seq<Str>, i: nat, len: nat, m: nat)
    requires i <= |index| && Building(stack, popped, index, i, len, m) && stack != []
    ensures var n := |stack|; var all := All(stack, popped);
            && all[n - 1] == stack[n - 1] && PathsOf(all)[n - 1] == stack[n - 1].path
            && LabelOk(stack[n - 1], index, m) && stack[n - 1].depth + 1 == n && stack[n - 1].owner < m
            && Chain(PathsOf(all), n)
  {
    hide Shape, FilesOk, SubdirsOk;
    var all := All(stack, popped);
    assert DirOk(all[|stack| - 1], PathsOf(all), index, i, m);
    ChainHoldsAncestors(PathsOf(all), |stack|, |stack| - 1);
  }

  lemma PopAll(stack: seq<Dir>, popped: seq<Dir>, top: Dir)
    requires stack != []
    ensures All(stack[..|stack| - 1], popped + [top]) == All(stack, popped)[|stack| - 1 := top]
  {
    ReverseAppend(popped, top);
  }

  lemma PopKeepsChain(paths: seq<Str>, n: nat)
    requires Chain(paths, n) && n > 1
    ensures Chain(paths, n - 1)
  {
  }

  lemma PopKeeps(stack: seq<Dir>, popped: seq<Dir>, index: seq<Str>, i: nat, len: nat, m: nat, subdirs: seq<Str>)
    requires i <= |index| && stack != [] && Building(stack, popped, index, i, len, m)
    requires var top := stack[|stack| - 1];
             subdirs == if IsSorted(top.subdirs) then top.subdirs else StrSort(top.subdirs)
    ensures var popped' := popped + [stack[|stack| - 1].(subdirs := subdirs)];
            && Building(stack[..|stack| - 1], popped', index, i, len, m)
            && PathsOf(All(stack[..|stack| - 1], popped')) == PathsOf(All(stack, popped))
  {
    var n := |stack|;
    var all := All(stack, popped);
    var top := stack[n - 1].(subdirs := subdirs);
    PopAll(stack, popped, top);
    var r := all[n - 1 := top];
    SortTopOk(all, n - 1, index, i, m, subdirs, r);
    if n > 1 { PopKeepsChain(PathsOf(all), n); }
  }

  /** PopDir. Its CHECKs hold, and the list that will come out does not change. */
  method PopDir(stack: seq<Dir>, popped: seq<Dir>, ghost index: seq<Str>, ghost i: nat, ghost len: nat, ghost m: nat)
    returns (stack': seq<Dir>, popped': seq<Dir>)
    requires i <= |index| && stack != [] && Building(stack, popped, index, i, len, m)
    ensures stack' == stack[..|stack| - 1] 
    ensures |popped'| == |popped| + 1 && TotalWeight(popped') == TotalWeight(popped) + Weight(popped'[|popped|])
    ensures SizeOf(stack') + SizeOf(popped') == SizeOf(stack) + SizeOf(popped)
    ensures Building(stack', popped', index, i, len, m)
    ensures PathsOf(All(stack', popped')) == PathsOf(All(stack, popped))
  {
    var n := |stack|;
    var top := stack[n - 1];
    TopOfStack(stack, popped, index, i, len, m);
    assert top.depth + 1 == n;
    var subdirs := if IsSorted(top.subdirs) then top.subdirs else StrSort(top.subdirs);
    PopKeeps(stack, popped, index, i, len, m, subdirs);
    stack', popped' := stack[..n - 1], popped + [top.(subdirs := subdirs)];
    assert popped'[..|popped|] == popped;
    assert |multiset(subdirs)| == |multiset(top.subdirs)|;
  }

  /** The number of directories, subdirectory names and files in a list. */
  ghost function SizeOf(dirs: seq<Dir>): nat {
    if dirs == [] then 0
    else SizeOf(dirs[..|dirs| - 1]) + |dirs[|dirs| - 1].subdirs| + |dirs[|dirs| - 1].files| + 1
  }

  lemma SizeAfterPush(stack: seq<Dir>, name: Str, dir: Dir)
    requires stack != [] && dir.subdirs == [] && dir.files == []
    ensures var top := stack[|stack| - 1];
            SizeOf(stack[..|stack| - 1] + [top.(subdirs := top.subdirs + [name]), dir]) == SizeOf(stack) + 2
  {
    var n, top := |stack|, stack[|stack| - 1];
    var r := stack[..n - 1] + [top.(subdirs := top.subdirs + [name]), dir];
    var q := r[..n];
    assert q[..n - 1] == stack[..n - 1] && q[n - 1] == top.(subdirs := top.subdirs + [name]);
  }

  lemma SizeAfterFile(stack: seq<Dir>, i: nat)
    requires stack != []
    ensures var top := stack[|stack| - 1];
            SizeOf(stack[|stack| - 1 := top.(files := top.files + [i])]) == SizeOf(stack) + 1
  {
    var n, top := |stack|, stack[|stack| - 1];
    assert stack[n - 1 := top.(files := top.files + [i])][..n - 1] == stack[..n - 1];
  }

  lemma {:induction false} SizeIsWeight(dirs: seq<Dir>)
    ensures TotalWeight(dirs) == SizeOf(dirs)
  {
    if dirs != [] { SizeIsWeight(dirs[..|dirs| - 1]); }
  }

  /** The next '/' at or after p, or -1 (strchr). */
  function NextSlash(s: Str, p: nat): (r: int)
    requires p <= |s|
    ensures r == -1 || p <= r < |s|
    ensures r >= 0 ==> s[r] == SLASH && IsName(s[p..r])
    ensures r < 0 ==> IsName(s[p..])
    decreases |s| - p
  {
    if p == |s| then -1
    else if s[p] == SLASH then p
    else
      var r := NextSlash(s, p + 1);
      assert s[p..] == [s[p]] + s[p + 1..];
      assert r >= 0 ==> s[p..r] == [s[p]] + s[p + 1..r];
      r
  }

  lemma WeakenOwners(dirs: seq<Dir>, index: seq<Str>, i: nat)
    requires i < |index| && DirsOk(dirs, index, i, i)
    ensures DirsOk(dirs, index, i, i + 1)
  {
    forall k | 0 <= k < |dirs| ensures DirOk(dirs[k], PathsOf(dirs), index, i, i + 1) {
      assert DirOk(dirs[k], PathsOf(dirs), index, i, i);
    }
  }

  lemma PushKeeps(stack: seq<Dir>, popped: seq<Dir>, index: seq<Str>, i: nat, name: Str, stack': seq<Dir>)
    requires i < |index| && stack != []
    requires var top := stack[|stack| - 1];
             && Building(stack, popped, index, i, |top.path|, i + 1)
             && OpensNext(PathsOf(All(stack, popped)), |stack|, index, i, name)
             && stack' == stack[..|stack| - 1] + [top.(subdirs := top.subdirs + [name]),
                                                  Dir(Child(top.path, name), name, |stack|, [], [], i)]
    ensures Building(stack', popped, index, i, |stack'[|stack|].path|, i + 1)
  {
    hide Shape, DirsOk, Chain, OpensNext, Follows;
    var n := |stack|;
    var all := All(stack, popped);
    var r := PushDir(all, n, name, i);
    assert All(stack', popped) == r;
    PushDirPaths(all, n, name, i);
    PushShape(PathsOf(all), n, index, i, name);
    PushDirs(all, n, index, i, name);
    forall k | n + 1 <= k < |r| ensures StrictlySorted(r[k].subdirs) {
      assert r[k] == all[k - 1];
    }
  }

  lemma AddFileKeeps(stack: seq<Dir>, popped: seq<Dir>, index: seq<Str>, i: nat, stack': seq<Dir>)
    requires i < |index| && stack != []
    requires var top := stack[|stack| - 1];
             && top.path == DirOf(index[i])
             && Building(stack, popped, index, i, |top.path|, i + 1)
             && stack' == stack[|stack| - 1 := top.(files := top.files + [i])]
    ensures Building(stack', popped, index, i + 1, 0, i + 1)
  {
    hide Shape, DirsOk, Chain, Follows, Reverse, DirOf, PathsOf, Distinct, StrictlySorted;
    var n := |stack|;
    var all := All(stack, popped);
    var r := all[n - 1 := all[n - 1].(files := all[n - 1].files + [i])];
    assert All(stack', popped) == r;
    PathsDistinct(PathsOf(all), index, i, |DirOf(index[i])|);
    AddFileOk(all, n, index, i, r);
    FinishEntry(PathsOf(all), index, i, |DirOf(index[i])|);
  }

  lemma PathsDistinct(paths: seq<Str>, index: seq<Str>, i: nat, len: nat)
    requires Shape(paths, index, i, len)
    ensures Distinct(paths)
  {
  }

  /** What CommonDir tells about entry i: its directories up to c are on the stack, the longer ones are new. */
  lemma CommonDirSplits(paths: seq<Str>, n: nat, top: Dir, index: seq<Str>, i: nat, c: Str)
    requires Sorted(index) && i < |index| && Chain(paths, n) && top.path == paths[n - 1] && LabelOk(top, index, i)
    requires i > 0 ==> top.path == DirOf(index[i - 1])
    requires IsDirOf(c, Source(top, index)) && IsDirOf(c, index[i])
    requires forall d :: IsDirOf(d, Source(top, index)) && IsDirOf(d, index[i]) ==> |d| <= |c|
    ensures Depth(c) <= top.depth && Depth(c) < n && paths[Depth(c)] == c
    ensures i > 0 ==> forall d :: IsDirOf(d, index[i - 1]) && IsDirOf(d, index[i]) ==> |d| <= |c|
  {
    CommonDirIsOnStack(paths, n, index, i, top.owner, c);
    ChainAtDepth(paths, n, c);
    DepthIsMonotone(c, top.path);
    if i > 0 {
      forall d | IsDirOf(d, index[i - 1]) && IsDirOf(d, index[i]) ensures |d| <= |c| {
        DirOfIsDeepest(d, index[i - 1]);
        DirOfDir(d, top.path, Source(top, index));
      }
    }
  }

  lemma OpenNextDir(stack: seq<Dir>, popped: seq<Dir>, index: seq<Str>, i: nat, p: nat, name: Str)
    requires Sorted(index) && i < |index| && stack != [] && IsName(name)
    requires Building(stack, popped, index, i, p, i + 1)
    requires var t := stack[|stack| - 1].path;
             && p == |t| && IsDirOf(t, index[i]) && IsDirOf(Child(t, name), index[i])
             && (i > 0 ==> !IsDirOf(Child(t, name), index[i - 1]))
    ensures OpensNext(PathsOf(All(stack, popped)), |stack|, index, i, name)
  {
    hide Shape, DirsOk, Chain, Follows;
    assert PathsOf(All(stack, popped))[|stack| - 1] == stack[|stack| - 1].path;
  }

  /** The strchr loop: one new directory for each further slash of entry i. */
  method OpenDirs(stack0: seq<Dir>, ghost popped: seq<Dir>, index: seq<Str>, i: nat, common: nat)
    returns (stack: seq<Dir>)
    requires Sorted(index) && i < |index| && stack0 != [] && common == |stack0[|stack0| - 1].path|
    requires Building(stack0, popped, index, i, common, i + 1)
    requires IsDirOf(stack0[|stack0| - 1].path, index[i])
    requires i > 0 ==> forall d :: IsDirOf(d, index[i - 1]) && IsDirOf(d, index[i]) ==> |d| <= common
    ensures stack != [] && stack[|stack| - 1].path == DirOf(index[i])
    ensures Building(stack, popped, index, i, |stack[|stack| - 1].path|, i + 1)
    ensures |stack| >= |stack0| && SizeOf(stack) == SizeOf(stack0) + 2 * (|stack| - |stack0|)
  {
    hide Building, OpensNext, SizeOf, DirOf, LastSlash, NextSlash, Sorted, All, Leq, IsName;
    var entry := index[i];
    stack := stack0;
    var p := common;
    var slash := NextSlash(entry, p);
    while slash >= 0
      invariant stack != [] && common <= p <= |entry|
      invariant stack[|stack| - 1].path == entry[..p] && IsDirOf(entry[..p], entry)
      invariant Building(stack, popped, index, i, p, i + 1)
      invariant |stack| >= |stack0| && SizeOf(stack) == SizeOf(stack0) + 2 * (|stack| - |stack0|)
      invariant slash == NextSlash(entry, p)
      decreases |entry| - p
    {
      var n := |stack|;
      var top := stack[n - 1];
      var subdir := entry[|top.path|..slash];
      var dir := Dir(entry[..slash + 1], subdir, n, [], [], i);
      assert dir.path == Child(top.path, subdir);
      assert IsDirOf(dir.path, entry);
      OpenNextDir(stack, popped, index, i, p, subdir);
      var next := stack[..n - 1] + [top.(subdirs := top.subdirs + [subdir]), dir];
      PushKeeps(stack, popped, index, i, subdir, next);
      SizeAfterPush(stack, subdir, dir);
      stack := next;
      p := slash + 1;
      slash := NextSlash(entry, p);
    }
    NoSlashAfter(entry, p);
  }

  lemma NoSlashAfter(s: Str, p: nat)
    requires p <= |s| && IsDirOf(s[..p], s) && IsName(s[p..])
    ensures s[..p] == DirOf(s)
  {
    DirOfIsDeepest(s[..p], s);
    assert forall k :: p <= k < |s| ==> s[k] == s[p..][k - p];
  }

  /** Index::InitDirs. */
  method InitDirs(index: seq<Str>) returns (dirs: seq<Dir>, totalWeight: nat)
    requires Sorted(index)
    ensures IsTreeOf(dirs, index)
    ensures totalWeight == TotalWeight(dirs) == 2 * |dirs| - 1 + |index|
  {
    hide SizeOf, Building, Shape, DirsOk, Chain, IsTreeOf, LabelOk, Sorted, Leq, DirOf, LastSlash, Weight, Depth, TotalWeight,
         All, Reverse, PathsOf;
    NoWeight();
    dirs, totalWeight := [], 0;
    var stack := [ROOT];
    InitialStack(index);
    for i := 0 to |index|
      invariant stack != [] && Building(stack, dirs, index, i, 0, i)
      invariant i > 0 ==> stack[|stack| - 1].path == DirOf(index[i - 1])
      invariant totalWeight == TotalWeight(dirs)
      invariant SizeOf(stack) + SizeOf(dirs) == 2 * (|stack| + |dirs|) - 1 + i
    {
      var prev := stack[|stack| - 1];
      TopOfStack(stack, dirs, index, i, 0, i);
      var commonLen, commonDepth := CommonDir(Source(prev, index), index[i]);
      ghost var c := index[i][..commonLen];
      ghost var paths := PathsOf(All(stack, dirs));
      CommonDirSplits(paths, |stack|, prev, index, i, c);
      assert commonDepth <= prev.depth;
      for k := commonDepth to prev.depth
        invariant |stack| == prev.depth + 1 - (k - commonDepth)
        invariant Building(stack, dirs, index, i, 0, i)
        invariant PathsOf(All(stack, dirs)) == paths
        invariant totalWeight == TotalWeight(dirs)
        invariant SizeOf(stack) + SizeOf(dirs) == 2 * (|stack| + |dirs|) - 1 + i
      {
        stack, dirs := PopDir(stack, dirs, index, i, 0, i);
        totalWeight := totalWeight + Weight(dirs[|dirs| - 1]);
      }
      TopOfStack(stack, dirs, index, i, 0, i);
      BeginEntry(stack, dirs, index, i, c);
      stack := OpenDirs(stack, dirs, index, i, commonLen);
      var top := stack[|stack| - 1];
      var next := stack[|stack| - 1 := top.(files := top.files + [i])];
      AddFileKeeps(stack, dirs, index, i, next);
      SizeAfterFile(stack, i);
      stack := next;
    }
    while stack != []
      invariant Building(stack, dirs, index, |index|, 0, |index|)
      invariant totalWeight == TotalWeight(dirs)
      invariant SizeOf(stack) + SizeOf(dirs) == 2 * (|stack| + |dirs|) - 1 + |index|
      decreases |stack|
    {
      stack, dirs := PopDir(stack, dirs, index, |index|, 0, |index|);
      totalWeight := totalWeight + Weight(dirs[|dirs| - 1]);
    }
    SizeIsWeight(dirs);
    TotalWeightOfReverse(dirs);
    AllPopped(dirs, index);
    dirs := Reverse(dirs);
  }

  lemma NoWeight()
    ensures TotalWeight([]) == 0 && SizeOf([]) == 0 && SizeOf([ROOT]) == 1
  {
  }

  lemma BeginEntry(stack: seq<Dir>, popped: seq<Dir>, index: seq<Str>, i: nat, c: Str)
    requires i < |index| && stack != [] && Building(stack, popped, index, i, 0, i)
    requires stack[|stack| - 1].path == c && IsDirOf(c, index[i])
    ensures Building(stack, popped, index, i, |c|, i + 1)
  {
    hide Shape, DirsOk, Chain;
    var paths := PathsOf(All(stack, popped));
    assert paths[|stack| - 1] == c;
    StartEntry(paths, index, i, c);
    WeakenOwners(All(stack, popped), index, i);
  }

  lemma AllPopped(popped: seq<Dir>, index: seq<Str>)
    requires Building([], popped, index, |index|, 0, |index|)
    ensures IsTreeOf(Reverse(popped), index)
  {
    hide Shape, DirsOk;
    assert All([], popped) == Reverse(popped);
  }

  lemma InitialStack(index: seq<Str>)
    ensures Building([ROOT], [], index, 0, 0, 0)
  {
    var all := All([ROOT], []);
    assert all == [ROOT] && PathsOf(all) == [[]];
    forall x ensures Child([], x) !in PathsOf(all) { assert |Child([], x)| > 0; }
  }

  /* ---- what the scan relies on ---- */

  /** The name of an index entry inside directory d. */
  function NameIn(d: Dir, entry: Str): Str
    requires HasPrefix(entry, d.path)
  {
    entry[|d.path|..]
  }

  lemma FilesLieInTheirDir(dirs: seq<Dir>, index: seq<Str>, k: nat, a: nat)
    requires IsTreeOf(dirs, index) && k < |dirs| && a < |dirs[k].files|
    ensures dirs[k].files[a] < |index| && DirOf(index[dirs[k].files[a]]) == dirs[k].path
  {
    assert DirOk(dirs[k], PathsOf(dirs), index, |index|, |index|);
    assert dirs[k].files[a] in dirs[k].files;
  }

  /** The files of a directory are in basename order. */
  lemma FilesInBasenameOrder(dirs: seq<Dir>, index: seq<Str>, k: nat, a: nat, b: nat)
    requires Sorted(index) && IsTreeOf(dirs, index) && k < |dirs| && a < b < |dirs[k].files|
    ensures var i, j := dirs[k].files[a], dirs[k].files[b];
            && i < j < |index| && HasPrefix(index[i], dirs[k].path) && HasPrefix(index[j], dirs[k].path)
            && Leq(NameIn(dirs[k], index[i]), NameIn(dirs[k], index[j]))
  {
    FilesLieInTheirDir(dirs, index, k, a);
    FilesLieInTheirDir(dirs, index, k, b);
    var d := dirs[k];
    var i, j := d.files[a], d.files[b];
    assert DirOk(d, PathsOf(dirs), index, |index|, |index|);
    assert Leq(index[i], index[j]);
    LessAfterPrefix(d.path, NameIn(d, index[i]), NameIn(d, index[j]));
    assert index[i] == d.path + NameIn(d, index[i]) && index[j] == d.path + NameIn(d, index[j]);
  }

  /** Every index entry is a file of exactly one directory. */
  lemma EachEntryOnce(dirs: seq<Dir>, index: seq<Str>, j: nat) returns (k: nat)
    requires IsTreeOf(dirs, index) && j < |index|
    ensures k < |dirs| && j in dirs[k].files
    ensures forall l :: 0 <= l < |dirs| && j in dirs[l].files ==> l == k
  {
    var paths := PathsOf(dirs);
    var d := DirOf(index[j]);
    assert IsDirOf(d, index[j]);
    assert Known(index, |index|, 0, d);
    assert d in paths;
    k :| 0 <= k < |paths| && paths[k] == d;
    assert DirOk(dirs[k], paths, index, |index|, |index|);
    forall l | 0 <= l < |dirs| && j in dirs[l].files ensures l == k {
      assert DirOk(dirs[l], paths, index, |index|, |index|);
      assert paths[l] == d;
    }
  }

  /** The first directory is the root; each later one hangs off its predecessor or an ancestor of it. */
  lemma DepthGrowsByAtMostOne(dirs: seq<Dir>, index: seq<Str>, k: nat)
    requires IsTreeOf(dirs, index) && 0 < k < |dirs|
    ensures dirs[0].path == [] && dirs[0].depth == 0
    ensures EndsWithSlash(dirs[k].path) && IsDirOf(Parent(dirs[k].path), dirs[k - 1].path)
    ensures 0 < dirs[k].depth <= dirs[k - 1].depth + 1
  {
    var paths := PathsOf(dirs);
    assert paths[0] == [] && Follows(paths[k - 1], paths[k]);
    assert DirOk(dirs[0], paths, index, |index|, |index|);
    assert DirOk(dirs[k - 1], paths, index, |index|, |index|);
    assert DirOk(dirs[k], paths, index, |index|, |index|);
    ChildOfParent(dirs[k].path);
    DepthOfChild(Parent(dirs[k].path), Basename(dirs[k].path));
    DepthIsMonotone(Parent(dirs[k].path), dirs[k - 1].path);
  }
}
