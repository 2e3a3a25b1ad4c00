/**
 Indices of nested directories with any given weights, to show that the condition on InitSplits' CHECK is about real
 indices: directory i holds the subdirectory "d" and files "f", "ff", "fff", ...
 */
module NestedIndex {
  import opened ByteStrings
  import opened Paths
  import opened DirTree
  import opened Scan
  import opened Candidates

  const NAME: Str := [100]
  const DOWN: Str := [100, SLASH]
  const LETTER: Byte := 102

  /** The path p one directory further down. */
  function Down(p: Str): Str { DOWN + p }

  lemma DownIsInjective(a: Str, b: Str)
    ensures Down(a) == Down(b) <==> a == b
  {
    assert a == Down(a)[2..] && b == Down(b)[2..];
  }

  lemma DirsDown(x: Str, p: Str)
    ensures IsDirOf(x, Down(p)) <==> x == [] || (|x| >= 2 && x == Down(x[2..]) && IsDirOf(x[2..], p))
    ensures IsDirOf(Down(x), Down(p)) <==> IsDirOf(x, p)
  {
    assert Down(x)[2..] == x;
    var q := Down(p);
    if |x| >= 2 && |x| <= |q| {
      assert q[..|x|] == DOWN + p[..|x| - 2];
      assert x == q[..|x|] <==> x == Down(x[2..]) && x[2..] == p[..|x| - 2];
    }
    assert q[..1] == [100];
    assert q[..2] == DOWN;
    assert |x| <= |p| ==> q[..|x| + 2] == DOWN + p[..|x|];
  }

  lemma DirOfDown(p: Str)
    ensures DirOf(Down(p)) == Down(DirOf(p))
  {
    hide LastSlash;
    var q := Down(p);
    var r, s := LastSlash(p), LastSlash(q);
    assert forall k :: 0 <= k < |p| ==> q[k + 2] == p[k];
    assert q[1] == SLASH;
    if r >= 0 { assert q[r + 2] == SLASH; }
    assert s == r + 2;
  }

  lemma DepthDown(p: Str)
    ensures Depth(Down(p)) == Depth(p) + 1
  {
    DepthOfConcat(DOWN, p);
    DepthOfChild([], NAME);
    assert DOWN == Child([], NAME);
  }

  lemma ParentDown(d: Str)
    requires EndsWithSlash(d)
    ensures EndsWithSlash(Down(d)) && Parent(Down(d)) == Down(Parent(d)) && Basename(Down(d)) == Basename(d)
  {
    var s := d[..|d| - 1];
    assert Down(d)[..|Down(d)| - 1] == Down(s);
    DirOfDown(s);
  }

  lemma TopDown()
    ensures EndsWithSlash(Down([])) && Parent(Down([])) == [] && Basename(Down([])) == NAME
  {
    assert Down([]) == Child([], NAME);
    ParentOfChild([], NAME);
  }

  /** Only "d" names a directory right below the root of a tree moved down. */
  lemma ChildDown(x: Str, e: Str)
    requires IsName(x)
    ensures Child([], x) == Down(e) <==> x == NAME && e == []
  {
    var c := Child([], x);
    assert forall k :: 0 <= k < |x| ==> c[k] == x[k] && x[k] in x;
    if c == Down(e) {
      assert c[1] == SLASH && c[0] == 100;
      assert |x| == 1;
      assert x == [x[0]];
      assert Down(e)[2..] == e && c[2..] == [];
    }
    assert Child([], NAME) == Down([]);
  }

  /* ---- the files of one directory ---- */

  function FileName(k: nat): (f: Str)
    ensures |f| == k + 1 && forall i :: 0 <= i < |f| ==> f[i] == LETTER
  {
    seq(k + 1, _ => LETTER)
  }

  function FileList(k: nat): (r: seq<Str>)
    ensures |r| == k && forall i :: 0 <= i < k ==> r[i] == FileName(i)
  {
    seq(k, i requires 0 <= i < k => FileName(i))
  }

  lemma FileHasNoDir(k: nat, x: Str)
    ensures DirOf(FileName(k)) == [] && (IsDirOf(x, FileName(k)) <==> x == [])
  {
    var f := FileName(k);
    assert LastSlash(f) == -1;
    if IsDirOf(x, f) && x != [] { DirOfIsDeepest(x, f); }
  }

  lemma FilesIncrease(i: nat, j: nat)
    requires i < j
    ensures Less(FileName(i), FileName(j))
  {
    var a, b := FileName(i), FileName(j);
    assert b[..i + 1] == a == a[..i + 1];
    LessAt(a, b, i + 1);
  }

  /* ---- one level ---- */

  function NestIndex(index: seq<Str>, k: nat): (r: seq<Str>)
    ensures |r| == |index| + k
    ensures forall i :: 0 <= i < |index| ==> r[i] == Down(index[i])
    ensures forall i :: |index| <= i < |r| ==> r[i] == FileName(i - |index|)
  {
    seq(|index|, i requires 0 <= i < |index| => Down(index[i])) + FileList(k)
  }

  function Lower(d: Dir): Dir {
    Dir(Down(d.path), if d.path == [] then NAME else d.basename, d.depth + 1, d.files, d.subdirs,
        if d.owner < 0 then 0 else d.owner)
  }

  function RootDir(n: nat, k: nat, subdirs: seq<Str>): Dir {
    Dir([], [], 0, seq(k, i requires 0 <= i < k => n + i), subdirs, -1)
  }

  function NestDirs(dirs: seq<Dir>, n: nat, k: nat): (r: seq<Dir>)
    ensures |r| == |dirs| + 1 && r[0] == RootDir(n, k, [NAME])
    ensures forall i :: 0 < i < |r| ==> r[i] == Lower(dirs[i - 1])
  {
    [RootDir(n, k, [NAME])] + seq(|dirs|, i requires 0 <= i < |dirs| => Lower(dirs[i]))
  }

  /** The paths of a tree moved down, under a new root. */
  ghost predicate PathsDown(paths: seq<Str>, r: seq<Str>) {
    |r| == |paths| + 1 && r[0] == [] && forall i :: 0 <= i < |paths| ==> r[i + 1] == Down(paths[i])
  }

  lemma PathsDownMember(paths: seq<Str>, r: seq<Str>, x: Str)
    requires PathsDown(paths, r)
    ensures x in r <==> x == [] || (|x| >= 2 && x == Down(x[2..]) && x[2..] in paths)
    ensures Down(x) in r <==> x in paths
  {
    assert Down(x)[2..] == x;
    if x in r && x != [] {
      var i :| 0 <= i < |r| && r[i] == x;
      assert x == Down(paths[i - 1]) && x[2..] == paths[i - 1];
    }
    if x in paths {
      var i :| 0 <= i < |paths| && paths[i] == x;
      assert r[i + 1] == Down(x);
    }
    if |x| >= 2 && x == Down(x[2..]) && x[2..] in paths {
      var i :| 0 <= i < |paths| && paths[i] == x[2..];
      assert r[i + 1] == x;
    }
    if Down(x) in r {
      var i :| 0 <= i < |r| && r[i] == Down(x);
      assert Down(x) == Down(paths[i - 1]);
      DownIsInjective(x, paths[i - 1]);
    }
  }

  lemma KnownDown(index: seq<Str>, k: nat, d: Str)
    requires index != []
    ensures var r := NestIndex(index, k);
            Known(r, |r|, 0, d) <==> d == [] || (|d| >= 2 && d == Down(d[2..]) && Known(index, |index|, 0, d[2..]))
  {
    var r := NestIndex(index, k);
    if d != [] && Known(r, |r|, 0, d) {
      var j :| 0 <= j < |r| && IsDirOf(d, r[j]);
      if j < |index| { DirsDown(d, index[j]); } else { FileHasNoDir(j - |index|, d); }
    }
    if |d| >= 2 && d == Down(d[2..]) && Known(index, |index|, 0, d[2..]) {
      var j: nat := 0;
      if d[2..] != [] { j :| 0 <= j < |index| && IsDirOf(d[2..], index[j]); }
      DirsDown(d, index[j]);
      assert IsDirOf(d, r[j]);
    }
  }

  lemma FollowsDown(p: Str, d: Str)
    requires Follows(p, d)
    ensures Follows(Down(p), Down(d))
  {
    ParentDown(d);
    DirsDown(Parent(d), p);
  }

  lemma ShapeDown(paths: seq<Str>, index: seq<Str>, k: nat, r: seq<Str>)
    requires index != [] && Shape(paths, index, |index|, 0) && PathsDown(paths, r)
    ensures Shape(r, NestIndex(index, k), |index| + k, 0)
  {
    var index' := NestIndex(index, k);
    forall d ensures d in r <==> Known(index', |index'|, 0, d) {
      PathsDownMember(paths, r, d);
      KnownDown(index, k, d);
    }
    forall i, j | 0 <= i < j < |r| ensures r[i] != r[j] {
      assert r[j] == Down(paths[j - 1]);
      if i > 0 { DownIsInjective(paths[i - 1], paths[j - 1]); }
    }
    forall i, j | 0 <= i < j < |r| && j == i + 1 ensures Follows(r[i], r[j]) {
      TopDown();
      assert r[j] == Down(paths[j - 1]);
      if i > 0 { FollowsDown(paths[i - 1], paths[j - 1]); }
    }
  }

  lemma LabelDown(d: Dir, index: seq<Str>, k: nat)
    requires index != [] && LabelOk(d, index, |index|)
    ensures LabelOk(Lower(d), NestIndex(index, k), |index| + k)
  {
    DepthDown(d.path);
    TopDown();
    if d.path != [] { ParentDown(d.path); }
    var o := Lower(d).owner;
    assert HasPrefix(index[o], d.path);
    assert Down(index[o])[..|d.path| + 2] == DOWN + index[o][..|d.path|];
  }

  lemma FilesDown(d: Dir, index: seq<Str>, k: nat)
    requires FilesOk(d, index, |index|)
    ensures FilesOk(Lower(d), NestIndex(index, k), |index| + k)
  {
    var r := NestIndex(index, k);
    forall j ensures j in d.files <==> 0 <= j < |r| && DirOf(r[j]) == Down(d.path) {
      if 0 <= j < |index| {
        DirOfDown(index[j]);
        DownIsInjective(DirOf(index[j]), d.path);
      } else if |index| <= j < |r| {
        FileHasNoDir(j - |index|, []);
      }
    }
  }

  lemma SubdirsDown(d: Dir, paths: seq<Str>, r: seq<Str>)
    requires SubdirsOk(d, paths) && PathsDown(paths, r)
    ensures SubdirsOk(Lower(d), r)
  {
    forall x ensures Child(Down(d.path), x) in r <==> Child(d.path, x) in paths {
      assert Child(Down(d.path), x) == Down(Child(d.path, x));
      PathsDownMember(paths, r, Child(d.path, x));
    }
  }

  lemma RootFiles(n: nat, k: nat, subdirs: seq<Str>, r: seq<Str>)
    requires |r| == n + k && forall j :: 0 <= j < |r| ==> (DirOf(r[j]) == [] <==> n <= j)
    ensures FilesOk(RootDir(n, k, subdirs), r, |r|)
  {
    var files := RootDir(n, k, subdirs).files;
    forall j ensures j in files <==> 0 <= j < |r| && DirOf(r[j]) == [] {
      if n <= j < n + k { assert files[j - n] == j; }
    }
  }

  lemma RootOk(paths: seq<Str>, index: seq<Str>, k: nat, r: seq<Str>)
    requires PathsDown(paths, r) && [] in paths
    ensures DirOk(RootDir(|index|, k, [NAME]), r, NestIndex(index, k), |index| + k, |index| + k)
  {
    var index' := NestIndex(index, k);
    forall j | 0 <= j < |index'| ensures DirOf(index'[j]) == [] <==> |index| <= j {
      if j < |index| { DirOfDown(index[j]); } else { FileHasNoDir(j - |index|, []); }
    }
    RootFiles(|index|, k, [NAME], index');
    forall x ensures x in [NAME] <==> IsName(x) && Child([], x) in r {
      var c := Child([], x);
      PathsDownMember(paths, r, c);
      if IsName(x) {
        ChildDown(x, []);
        if |c| >= 2 { ChildDown(x, c[2..]); }
        assert Down([])[2..] == [];
      }
    }
  }

  lemma NestIsTree(dirs: seq<Dir>, index: seq<Str>, k: nat)
    requires index != [] && IsTreeOf(dirs, index)
    ensures IsTreeOf(NestDirs(dirs, |index|, k), NestIndex(index, k))
  {
    var paths, r, index' := PathsOf(dirs), NestDirs(dirs, |index|, k), NestIndex(index, k);
    var paths' := PathsOf(r);
    assert PathsDown(paths, paths');
    ShapeDown(paths, index, k, paths');
    RootOk(paths, index, k, paths');
    forall i | 0 <= i < |r| ensures DirOk(r[i], paths', index', |index'|, |index'|) && StrictlySorted(r[i].subdirs) {
      if i > 0 {
        var d := dirs[i - 1];
        assert DirOk(d, paths, index, |index|, |index|);
        LabelDown(d, index, k);
        FilesDown(d, index, k);
        SubdirsDown(d, paths, paths');
      }
    }
  }

  lemma NestIsGood(index: seq<Str>, k: nat)
    requires GoodIndex(index) && StrictlySorted(index)
    ensures GoodIndex(NestIndex(index, k)) && StrictlySorted(NestIndex(index, k))
  {
    var r := NestIndex(index, k);
    forall i, j | 0 <= i < j < |r| ensures Less(r[i], r[j]) {
      if j < |index| {
        LessAfterPrefix(DOWN, index[i], index[j]);
      } else if i < |index| {
        LessAt(r[i], r[j], 0);
      } else {
        FilesIncrease(i - |index|, j - |index|);
      }
    }
    forall i | 0 <= i < |r| ensures WellFormed(r[i]) {
      if i < |index| { assert WellFormed(index[i]); }
    }
  }

  /* ---- chains ---- */

  ghost predicate ChainWeights(ws: seq<nat>) { ws != [] && forall i :: 0 <= i < |ws| ==> ws[i] >= 2 }

  /** Nested directories whose weights are ws, outermost first. */
  function ChainIndex(ws: seq<nat>): seq<Str>
    requires ChainWeights(ws)
  {
    if |ws| == 1 then FileList(ws[0] - 1) else NestIndex(ChainIndex(ws[1..]), ws[0] - 2)
  }

  function ChainDirs(ws: seq<nat>): seq<Dir>
    requires ChainWeights(ws)
  {
    if |ws| == 1 then [RootDir(0, ws[0] - 1, [])]
    else NestDirs(ChainDirs(ws[1..]), |ChainIndex(ws[1..])|, ws[0] - 2)
  }

  lemma LeafIsTree(k: nat)
    requires k > 0
    ensures IsTreeOf([RootDir(0, k, [])], FileList(k)) && GoodIndex(FileList(k)) && StrictlySorted(FileList(k))
  {
    var index, d := FileList(k), RootDir(0, k, []);
    var paths := PathsOf([d]);
    assert paths == [[]];
    forall j, x | 0 <= j < k ensures DirOf(index[j]) == [] && (IsDirOf(x, index[j]) <==> x == []) { FileHasNoDir(j, x); }
    RootFiles(0, k, [], index);
    forall x ensures Child([], x) !in paths { assert |Child([], x)| > 0; }
    forall i, j | 0 <= i < j < k ensures Less(index[i], index[j]) { FilesIncrease(i, j); }
  }

  lemma LeafWeight(k: nat)
    ensures Weights([RootDir(0, k, [])]) == [k + 1]
  {
  }

  lemma NestWeights(dirs: seq<Dir>, n: nat, k: nat)
    ensures Weights(NestDirs(dirs, n, k)) == [k + 2] + Weights(dirs)
  {
  }

  /** For any weights of at least two there is an index of distinct, well-formed, sorted paths with such directories. */
  lemma {:induction false} ChainIsTree(ws: seq<nat>)
    requires ChainWeights(ws)
    ensures GoodIndex(ChainIndex(ws)) && StrictlySorted(ChainIndex(ws)) && ChainIndex(ws) != []
    ensures IsTreeOf(ChainDirs(ws), ChainIndex(ws)) && Weights(ChainDirs(ws)) == ws
  {
    hide IsTreeOf, GoodIndex, StrictlySorted, NestDirs, NestIndex, Weights, FileList, RootDir;
    if |ws| == 1 {
      LeafIsTree(ws[0] - 1);
      LeafWeight(ws[0] - 1);
      assert ws == [ws[0]];
    } else {
      ChainIsTree(ws[1..]);
      NestWeights(ChainDirs(ws[1..]), |ChainIndex(ws[1..])|, ws[0] - 2);
      assert ws == [ws[0]] + ws[1..];
      NestIsTree(ChainDirs(ws[1..]), ChainIndex(ws[1..]), ws[0] - 2);
      NestIsGood(ChainIndex(ws[1..]), ws[0] - 2);
    }
  }

  lemma TreeWeights(dirs: seq<Dir>, index: seq<Str>)
    requires index != [] && IsTreeOf(dirs, index)
    ensures forall j :: 0 <= j < |dirs| ==> Weights(dirs)[j] >= 2
    ensures Sum(Weights(dirs)) == TotalWeight(dirs)
  {
    hide IsTreeOf;
    forall j | 0 <= j < |dirs| ensures Weights(dirs)[j] >= 2 { DirsWeighAtLeastTwo(dirs, index, j); }
    TotalIsSum(dirs, |dirs|);
    assert dirs[..|dirs|] == dirs;
  }

  /**
   The CHECK at the end of InitSplits, over indices: it holds for every index whose directories weigh `total` together
   if and only if total is below 512 for each of the 16 * numThreads shards or exceeds a multiple of their number by at
   most one.
   */
  lemma SplitCheckOverIndices(total: nat, numThreads: nat)
    requires numThreads > 0
    ensures (forall dirs, index ::
               GoodIndex(index) && index != [] && IsTreeOf(dirs, index) && TotalWeight(dirs) == total ==>
                 SplitCheckHolds(Weights(dirs), numThreads))
            <==> total < 8192 * numThreads || total % (16 * numThreads) <= 1
  {
    hide IsTreeOf, GoodIndex, SplitCheckHolds, TotalWeight, Sum, Weights;
    if SafeTotal(total, numThreads) {
      SplitCheckCondition(total, numThreads);
      forall dirs, index | GoodIndex(index) && index != [] && IsTreeOf(dirs, index) && TotalWeight(dirs) == total
        ensures SplitCheckHolds(Weights(dirs), numThreads)
      {
        TreeWeights(dirs, index);
      }
    } else {
      var ws := SplitCheckFailsOn(total, numThreads);
      ChainIsTree(ws);
      TreeWeights(ChainDirs(ws), ChainIndex(ws));
    }
  }

  /* ---- the tree of a chain is unique ---- */

  /** If the directories of a tree form one chain, every list of that tree comes in the same order. */
  lemma {:induction false} ChainOrder(a: seq<Str>, b: seq<Str>, index: seq<Str>, i: nat)
    requires Shape(a, index, |index|, 0) && Shape(b, index, |index|, 0) && Chain(a, |a|) && i < |b|
    ensures i < |a| && b[i] == a[i]
    decreases i
  {
    if i > 0 {
      ChainOrder(a, b, index, i - 1);
      var m := PlaceOf(a, b, index, i);
      if m > 0 {
        assert IsParent(a[m - 1], a[m]) && Follows(b[i - 1], b[i]);
        ChainHoldsAncestors(a, |a|, m - 1);
        ChainHoldsAncestors(a, |a|, i - 1);
        hide Shape, Chain, Depth, IsDirOf;
        DepthIsMonotone(a[m - 1], a[i - 1]);
        if m < i {
          ChainOrder(a, b, index, m);
          EachPathOnce(b, index, m, i);
        }
      }
    }
  }

  lemma PlaceOf(a: seq<Str>, b: seq<Str>, index: seq<Str>, i: nat) returns (m: nat)
    requires Shape(a, index, |index|, 0) && Shape(b, index, |index|, 0) && i < |b|
    ensures m < |a| && a[m] == b[i]
  {
    assert b[i] in b && b[i] in a;
    m :| 0 <= m < |a| && a[m] == b[i];
  }

  lemma EachPathOnce(paths: seq<Str>, index: seq<Str>, i: nat, j: nat)
    requires Shape(paths, index, |index|, 0) && i < |paths| && j < |paths| && paths[i] == paths[j]
    ensures i == j
  {
  }

  lemma ChainPaths(a: seq<Str>, b: seq<Str>, index: seq<Str>)
    requires Shape(a, index, |index|, 0) && Shape(b, index, |index|, 0) && Chain(a, |a|)
    ensures a == b
  {
    hide Shape, Chain;
    forall i | 0 <= i < |b| ensures i < |a| && b[i] == a[i] { ChainOrder(a, b, index, i); }
    if |b| > 0 { ChainOrder(a, b, index, |b| - 1); }
    if |b| < |a| {
      var m := PlaceOf(b, a, index, |b|);
      EachPathOnce(a, index, m, |b|);
    }
  }

  lemma {:induction false} ChainIsChain(ws: seq<nat>)
    requires ChainWeights(ws)
    ensures ChainDirs(ws) != [] && Chain(PathsOf(ChainDirs(ws)), |ChainDirs(ws)|)
  {
    hide Chain, NestDirs, NestIndex, PathsOf, RootDir;
    if |ws| == 1 {
      LeafIsChain(ws[0] - 1);
    } else {
      ChainIsChain(ws[1..]);
      NestIsChain(ChainDirs(ws[1..]), |ChainIndex(ws[1..])|, ws[0] - 2);
    }
  }

  lemma LeafIsChain(k: nat)
    ensures Chain(PathsOf([RootDir(0, k, [])]), 1)
  {
  }

  lemma NestIsChain(dirs: seq<Dir>, n: nat, k: nat)
    requires dirs != [] && Chain(PathsOf(dirs), |dirs|)
    ensures Chain(PathsOf(NestDirs(dirs, n, k)), |dirs| + 1)
  {
    var r := NestDirs(dirs, n, k);
    forall i, j | 0 <= i < j < |r| && j == i + 1 ensures IsParent(r[i].path, r[j].path) {
      TopDown();
      assert r[j].path == Down(dirs[j - 1].path) && PathsOf(dirs)[j - 1] == dirs[j - 1].path;
      if i > 0 {
        assert PathsOf(dirs)[i - 1] == dirs[i - 1].path && IsParent(dirs[i - 1].path, dirs[j - 1].path);
        ParentDown(dirs[j - 1].path);
      }
    }
  }

  predicate Increasing(s: seq<nat>) { forall i, j :: 0 <= i < j < |s| ==> s[i] < s[j] }

  lemma {:induction false} IncreasingIsCanonical(s: seq<nat>, t: seq<nat>)
    requires Increasing(s) && Increasing(t) && forall x :: x in s <==> x in t
    ensures s == t
  {
    if s == [] {
      assert forall i :: 0 <= i < |t| ==> t[i] in t;
    } else {
      assert s[0] in t && t != [] && t[0] in s;
      assert s[0] == t[0];
      forall x ensures x in s[1..] <==> x in t[1..] {
        assert x in s[1..] <==> x in s && x != s[0];
        assert x in t[1..] <==> x in t && x != t[0];
      }
      IncreasingIsCanonical(s[1..], t[1..]);
      assert s == [s[0]] + s[1..] && t == [t[0]] + t[1..];
    }
  }

  /** The directories of a tree are determined by its list of paths. */
  lemma SameWeights(a: seq<Dir>, b: seq<Dir>, index: seq<Str>)
    requires IsTreeOf(a, index) && IsTreeOf(b, index) && PathsOf(a) == PathsOf(b)
    ensures Weights(a) == Weights(b)
  {
    var paths := PathsOf(a);
    forall i | 0 <= i < |a| ensures Weight(a[i]) == Weight(b[i]) {
      assert paths[i] == a[i].path == b[i].path;
      assert DirOk(a[i], paths, index, |index|, |index|) && DirOk(b[i], paths, index, |index|, |index|);
      IncreasingIsCanonical(a[i].files, b[i].files);
      StrictlySortedIsCanonical(a[i].subdirs, b[i].subdirs);
    }
  }

  /** Whatever list of directories is built for a chain, its weights are those of the chain. */
  lemma ChainHasOneTree(ws: seq<nat>, dirs: seq<Dir>)
    requires ChainWeights(ws) && IsTreeOf(dirs, ChainIndex(ws))
    ensures Weights(dirs) == ws
  {
    hide Chain, Shape, DirsOk, ChainDirs, ChainIndex;
    ChainIsTree(ws);
    ChainIsChain(ws);
    ChainPaths(PathsOf(ChainDirs(ws)), PathsOf(dirs), ChainIndex(ws));
    SameWeights(ChainDirs(ws), dirs, ChainIndex(ws));
  }

  /** Beyond the bound there is an index that makes the CHECK fail, however its directory list is ordered. */
  lemma SplitCheckFails(total: nat, numThreads: nat) returns (index: seq<Str>)
    requires numThreads > 0 && !(total < 8192 * numThreads || total % (16 * numThreads) <= 1)
    ensures GoodIndex(index) && StrictlySorted(index) && index != []
    ensures forall dirs :: IsTreeOf(dirs, index) ==>
              TotalWeight(dirs) == total && !SplitCheckHolds(Weights(dirs), numThreads)
  {
    hide IsTreeOf, GoodIndex, StrictlySorted, SplitCheckHolds, TotalWeight, Sum, Weights, ChainIndex, ChainDirs;
    var ws := SplitCheckFailsOn(total, numThreads);
    ChainIsTree(ws);
    index := ChainIndex(ws);
    forall dirs | IsTreeOf(dirs, index) ensures TotalWeight(dirs) == total && !SplitCheckHolds(Weights(dirs), numThreads) {
      ChainHasOneTree(ws, dirs);
      TreeWeights(dirs, index);
    }
  }

  /** Sixteen nested directories of weight 512 and one of weight 2: the CHECK fails with one thread. */
  lemma SplitCheckFailsOnIndex()
    ensures var ws := FullShards(16, 512, 2);
            && ChainWeights(ws) && GoodIndex(ChainIndex(ws))
            && forall dirs :: IsTreeOf(dirs, ChainIndex(ws)) ==> !SplitCheckHolds(Weights(dirs), 1)
  {
    hide IsTreeOf, GoodIndex, SplitCheckHolds, ChainIndex, ChainDirs;
    var ws := FullShards(16, 512, 2);
    SplitCheckCanFail();
    ChainIsTree(ws);
    forall dirs | IsTreeOf(dirs, ChainIndex(ws)) ensures !SplitCheckHolds(Weights(dirs), 1) {
      ChainHasOneTree(ws, dirs);
    }
  }
}
