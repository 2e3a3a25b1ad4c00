/**
 index.cc, OpenTail and the five-slot stack of open directory handles in ScanDirs.

 The file system is a step function from a node and a name to a node (symbolic links and search permission
 included) and a predicate for the nodes that open with O_RDONLY | O_DIRECTORY. It does not change during a scan.
 */
module Handles {
  import opened Basics
  import opened ByteStrings
  import opened Paths

  type Node = int

  datatype Files = Files(step: (Node, Str) -> Option<Node>, readable: Node -> bool)

  const DOT: Str := [46]

  ghost predicate DotIsSelf(fs: Files) { forall n :: fs.step(n, [46]) == Some(n) }

  /** The components of a path. */
  function Split(s: Str): (r: seq<Str>)
    decreases |s|
  {
    var q := LastSlash(s);
    if q < 0 then [s] else Split(s[..q]) + [s[q + 1..]]
  }

  function Walk(fs: Files, n: Node, comps: seq<Str>): Option<Node>
    decreases |comps|
  {
    if comps == [] then Some(n)
    else match Walk(fs, n, comps[..|comps| - 1])
      case None => None
      case Some(m) => fs.step(m, comps[|comps| - 1])
  }

  /** openat(fd of n, path): look every component up, then the last node must open. */
  function OpenAt(fs: Files, n: Node, path: Str): Option<Node> {
    match Walk(fs, n, Split(path))
    case None => None
    case Some(m) => if fs.readable(m) then Some(m) else None
  }

  /** The node that a directory's full path denotes. */
  function NodeOf(fs: Files, root: Node, dir: Str): Option<Node> {
    if dir == [] then Some(root) else Walk(fs, root, Split(dir[..|dir| - 1]))
  }

  /** Opening a directory by its full path from the root: the reference. The root is only duplicated. */
  function OpenFromRoot(fs: Files, root: Node, dir: Str): Option<Node> {
    if dir == [] then Some(root) else OpenAt(fs, root, dir[..|dir| - 1])
  }

  ghost predicate IsDir(d: Str) { d == [] || EndsWithSlash(d) }

  /** The reference name by name: the root is itself, a child is one step away, and all but the root must be readable. */
  lemma OpenFromRootByName(fs: Files, root: Node, dir: Str, name: Str)
    requires IsDir(dir) && IsName(name)
    ensures OpenFromRoot(fs, root, []) == Some(root) == NodeOf(fs, root, [])
    ensures NodeOf(fs, root, dir + name + [47]) ==
            match NodeOf(fs, root, dir) case None => None case Some(m) => fs.step(m, name)
    ensures OpenFromRoot(fs, root, dir + name + [47]) ==
            match NodeOf(fs, root, dir + name + [47])
            case None => None
            case Some(m) => if fs.readable(m) then Some(m) else None
  {
    assert dir + name + [47] == Child(dir, name);
    NodeOfChild(fs, root, dir, name);
  }

  /** The i-th ancestor of a directory; the 0-th is itself. */
  ghost function Ancestor(dir: Str, i: nat): (a: Str)
    requires IsDir(dir) && i <= Depth(dir)
    ensures IsDir(a)
    decreases i
  {
    if i == 0 then dir
    else
      DepthOfParent(dir);
      Ancestor(Parent(dir), i - 1)
  }

  lemma DepthOfParent(dir: Str)
    requires IsDir(dir) && Depth(dir) > 0
    ensures EndsWithSlash(dir) && IsDir(Parent(dir)) && Depth(Parent(dir)) == Depth(dir) - 1
  {
    ChildOfParent(dir);
    DepthOfChild(Parent(dir), Basename(dir));
  }

  lemma DepthIsPositive(dir: Str)
    requires EndsWithSlash(dir)
    ensures Depth(dir) > 0
  {
  }

  lemma {:induction false} AncestorIsDirOf(dir: Str, i: nat)
    requires IsDir(dir) && i <= Depth(dir)
    ensures IsDirOf(Ancestor(dir, i), dir) && Depth(Ancestor(dir, i)) == Depth(dir) - i
    decreases i
  {
    if i > 0 {
      DepthOfParent(dir);
      ChildOfParent(dir);
      AncestorIsDirOf(Parent(dir), i - 1);
      DirOfDir(Ancestor(dir, i), Parent(dir), dir);
    }
  }

  lemma {:induction false} AncestorOfAncestor(dir: Str, i: nat, j: nat)
    requires IsDir(dir) && i + j <= Depth(dir)
    ensures Depth(Ancestor(dir, i)) == Depth(dir) - i
    ensures Ancestor(Ancestor(dir, i), j) == Ancestor(dir, i + j)
    decreases i
  {
    hide Depth, LastSlash, DirOf;
    if i > 0 {
      DepthOfParent(dir);
      AncestorOfAncestor(Parent(dir), i - 1, j);
    }
  }

  /** The parent of the next directory is the ancestor of the previous one at the distance the scan computes. */
  lemma ParentIsAncestor(prev: Str, dir: Str)
    requires IsDir(prev) && EndsWithSlash(dir) && IsDirOf(Parent(dir), prev)
    ensures Depth(dir) <= Depth(prev) + 1
    ensures Ancestor(prev, Depth(prev) + 1 - Depth(dir)) == Parent(dir)
  {
    hide Depth, LastSlash, DirOf, Ancestor, Parent, IsDirOf;
    DepthIsPositive(dir);
    DepthOfParent(dir);
    DepthIsMonotone(Parent(dir), prev);
    var a := Ancestor(prev, Depth(prev) + 1 - Depth(dir));
    AncestorIsDirOf(prev, Depth(prev) + 1 - Depth(dir));
    if |a| <= |Parent(dir)| {
      NestedDirs(a, Parent(dir), prev);
      DepthIsMonotone(a, Parent(dir));
    } else {
      NestedDirs(Parent(dir), a, prev);
      DepthIsMonotone(Parent(dir), a);
    }
  }

  lemma SplitName(x: Str)
    requires IsName(x)
    ensures Split(x) == [x]
  {
    assert forall k :: 0 <= k < |x| ==> x[k] in x;
  }

  lemma SplitChild(dir: Str, name: Str)
    requires EndsWithSlash(dir) && IsName(name)
    ensures Split(dir + name) == Split(dir[..|dir| - 1]) + [name]
  {
    var s := dir + name;
    assert forall k :: |dir| <= k < |s| ==> s[k] == name[k - |dir|];
    assert s[|dir| - 1] == SLASH;
    assert LastSlash(s) == |dir| - 1;
    assert s[..|dir| - 1] == dir[..|dir| - 1] && s[|dir|..] == name;
  }

  /** A child's node is one step from its parent's. */
  lemma NodeOfChild(fs: Files, root: Node, dir: Str, name: Str)
    requires IsDir(dir) && IsName(name)
    ensures NodeOf(fs, root, Child(dir, name)) ==
            match NodeOf(fs, root, dir) case None => None case Some(m) => fs.step(m, name)
  {
    var c := Child(dir, name);
    assert c[..|c| - 1] == dir + name;
    if dir == [] {
      assert dir + name == name;
      SplitName(name);
      assert Walk(fs, root, []) == Some(root);
      assert [name][..0] == [];
    } else {
      SplitChild(dir, name);
      var w := Split(dir[..|dir| - 1]);
      assert (w + [name])[..|w|] == w;
    }
  }

  /** Opening a name relative to a handle of the parent is opening the full path from the root. */
  lemma OpenRelative(fs: Files, root: Node, dir: Str, parent: Node)
    requires EndsWithSlash(dir) && NodeOf(fs, root, Parent(dir)) == Some(parent)
    ensures OpenAt(fs, parent, Basename(dir)) == OpenFromRoot(fs, root, dir)
    ensures OpenFromRoot(fs, root, dir).Some? ==> NodeOf(fs, root, dir) == OpenFromRoot(fs, root, dir)
  {
    ChildOfParent(dir);
    NodeOfChild(fs, root, Parent(dir), Basename(dir));
    SplitName(Basename(dir));
    assert [Basename(dir)][..0] == [];
    assert Walk(fs, parent, [Basename(dir)]) == fs.step(parent, Basename(dir));
  }

  lemma OpenDot(fs: Files, n: Node)
    requires DotIsSelf(fs)
    ensures OpenAt(fs, n, DOT) == if fs.readable(n) then Some(n) else None
  {
    SplitName(DOT);
    assert [DOT][..0] == [];
    assert Walk(fs, n, [DOT]) == fs.step(n, DOT);
  }

  /* ---- the table of open handles ---- */

  const STACK_SIZE := 5

  /** Slot i is empty or holds a handle of the i-th ancestor of dir. */
  ghost predicate SlotsOk(fs: Files, root: Node, dir: Str, slots: seq<int>, open: map<int, Node>)
    requires IsDir(dir)
  {
    forall i :: 0 <= i < |slots| && slots[i] != -1 ==>
      && slots[i] in open && i <= Depth(dir)
      && NodeOf(fs, root, Ancestor(dir, i)) == Some(open[slots[i]])
  }

  /** The open handles are the caller's and those in the slots, each in one slot. */
  ghost predicate TableOk(base: map<int, Node>, slots: seq<int>, open: map<int, Node>, next: int) {
    && (forall fd :: fd in open <==> fd in base || (fd in slots && fd != -1))
    && (forall fd :: fd in base ==> open[fd] == base[fd] && 0 <= fd)
    && (forall i :: 0 <= i < |slots| ==> slots[i] == -1 || (0 <= slots[i] && slots[i] !in base))
    && (forall i, j :: 0 <= i < j < |slots| && slots[i] == slots[j] ==> slots[i] == -1)
    && (forall fd :: fd in open ==> fd < next)
    && 0 <= next
  }

  lemma CloseKeepsTable(base: map<int, Node>, slots: seq<int>, open: map<int, Node>, next: int, i: nat)
    requires TableOk(base, slots, open, next) && i < |slots| && slots[i] != -1
    ensures slots[i] in open && TableOk(base, slots[i := -1], open - {slots[i]}, next)
  {
    assert slots[i] in slots;
    var r := slots[i := -1];
    forall fd ensures fd in r && fd != -1 <==> fd in slots && fd != -1 && fd != slots[i] {
      if fd in slots && fd != slots[i] {
        var j :| 0 <= j < |slots| && slots[j] == fd;
        assert r[j] == fd;
      }
      if fd in r && fd != -1 {
        var j :| 0 <= j < |r| && r[j] == fd;
        assert slots[j] == fd && j != i;
      }
    }
  }

  lemma OpenKeepsTable(base: map<int, Node>, slots: seq<int>, open: map<int, Node>, next: int, i: nat, n: Node)
    requires TableOk(base, slots, open, next) && i < |slots| && slots[i] == -1
    ensures TableOk(base, slots[i := next], open[next := n], next + 1)
  {
    var r := slots[i := next];
    assert r[i] == next;
    assert forall j :: 0 <= j < |slots| ==> slots[j] in slots;
    forall fd ensures fd in r && fd != -1 <==> (fd in slots && fd != -1) || fd == next {
      if fd in slots && fd != -1 {
        var j :| 0 <= j < |slots| && slots[j] == fd;
        assert r[j] == fd;
      }
    }
    forall j | 0 <= j < |slots| && slots[j] != -1 ensures slots[j] < next { assert slots[j] in open; }
    assert next !in base;
  }

  lemma RotateKeepsTable(base: map<int, Node>, slots: seq<int>, open: map<int, Node>, next: int, m: nat)
    requires TableOk(base, slots, open, next) && m <= |slots|
    ensures TableOk(base, slots[m..] + slots[..m], open, next)
  {
    var r := slots[m..] + slots[..m];
    forall fd ensures fd in r <==> fd in slots { RotateMember(slots, m, fd); }
    forall i | 0 <= i < |r| ensures r[i] in slots { assert r[i] in r; }
    RotateDistinct(slots, m);
  }

  lemma RotateMember(slots: seq<int>, m: nat, fd: int)
    requires m <= |slots|
    ensures fd in slots[m..] + slots[..m] <==> fd in slots
  {
    assert slots == slots[..m] + slots[m..];
  }

  lemma RotateDistinct(slots: seq<int>, m: nat)
    requires m <= |slots| && forall i, j :: 0 <= i < j < |slots| && slots[i] == slots[j] ==> slots[i] == -1
    ensures var r := slots[m..] + slots[..m]; forall i, j :: 0 <= i < j < |r| && r[i] == r[j] ==> r[i] == -1
  {
    var r := slots[m..] + slots[..m];
    forall i, j | 0 <= i < j < |r| && r[i] == r[j] ensures r[i] == -1 {
      var a := if i < |slots| - m then i + m else i - (|slots| - m);
      var b := if j < |slots| - m then j + m else j - (|slots| - m);
      assert r[i] == slots[a] && r[j] == slots[b] && a != b;
    }
  }

  /** A handle just opened counts as the caller's until it is put into a slot. */
  lemma HoldHandle(base: map<int, Node>, slots: seq<int>, open: map<int, Node>, next: int, n: Node)
    requires TableOk(base, slots, open, next)
    ensures next !in base && TableOk(base[next := n], slots, open[next := n], next + 1)
  {
    assert forall j :: 0 <= j < |slots| ==> slots[j] in slots;
  }

  lemma PlaceHandle(base: map<int, Node>, slots: seq<int>, open: map<int, Node>, next: int, fd: int, n: Node)
    requires TableOk(base[fd := n], slots, open, next) && slots != [] && slots[0] == -1 && fd !in base
    ensures TableOk(base, slots[0 := fd], open, next) && fd in open && open[fd] == n
  {
    var r := slots[0 := fd];
    assert fd in base[fd := n];
    assert forall x :: x in base ==> x in base[fd := n] && base[fd := n][x] == base[x];
    forall x ensures x in r && x != -1 <==> (x in slots && x != -1) || x == fd {
      if x in slots && x != -1 {
        var j :| 0 <= j < |slots| && slots[j] == x;
        assert r[j] == x;
      }
      assert r[0] == fd;
    }
  }

  /** The slots after the scan has moved from one directory to the next. */
  ghost predicate Shifted(before: seq<int>, d: nat, after: seq<int>) {
    && |before| == |after| == STACK_SIZE
    && forall i :: 1 <= i < STACK_SIZE ==> after[i] == if d + i - 1 < STACK_SIZE then before[d + i - 1] else -1
  }

  lemma AncestorShift(prev: Str, dir: Str, i: nat)
    requires IsDir(prev) && EndsWithSlash(dir) && IsDirOf(Parent(dir), prev) && i >= 1
    requires Depth(dir) <= Depth(prev) + 1 && Depth(prev) + 1 - Depth(dir) + (i - 1) <= Depth(prev)
    ensures i <= Depth(dir)
    ensures Ancestor(dir, i) == Ancestor(prev, Depth(prev) + 1 - Depth(dir) + (i - 1))
  {
    hide Depth, LastSlash, DirOf;
    DepthIsPositive(dir);
    DepthOfParent(dir);
    ParentIsAncestor(prev, dir);
    AncestorOfAncestor(prev, Depth(prev) + 1 - Depth(dir), i - 1);
  }

  lemma ShiftKeepsSlots(fs: Files, root: Node, prev: Str, dir: Str, before: seq<int>, open0: map<int, Node>,
                        after: seq<int>, open: map<int, Node>, n: Node)
    requires IsDir(prev) && EndsWithSlash(dir) && IsDirOf(Parent(dir), prev) && Depth(dir) <= Depth(prev) + 1
    requires SlotsOk(fs, root, prev, before, open0)
    requires Shifted(before, Depth(prev) + 1 - Depth(dir), after)
    requires NodeOf(fs, root, dir) == Some(n) && after[0] in open && open[after[0]] == n
    requires forall i :: 1 <= i < |after| && after[i] != -1 && after[i] in open0 ==>
               after[i] in open && open[after[i]] == open0[after[i]]
    ensures SlotsOk(fs, root, dir, after, open)
  {
    hide Depth, NodeOf, LastSlash, DirOf;
    forall i | 0 <= i < |after| && after[i] != -1
      ensures after[i] in open && i <= Depth(dir) && NodeOf(fs, root, Ancestor(dir, i)) == Some(open[after[i]])
    {
      if i > 0 {
        var k := Depth(prev) + 1 - Depth(dir) + (i - 1);
        assert after[i] == before[k];
        AncestorShift(prev, dir, i);
      }
    }
  }

  /** FindLast of algorithm.h on [0, end): the last match, or 0 when there is none. */
  method FindLast(s: Str, end: nat, v: Byte) returns (r: nat)
    requires end <= |s|
    ensures r <= end && (forall k :: r < k < end ==> s[k] != v)
    ensures (r < end && s[r] == v) || (r == 0 && forall k :: 0 <= k < end ==> s[k] != v)
  {
    r := end;
    while r != 0
      invariant r <= end && forall k :: r <= k < end ==> s[k] != v
      decreases r
    {
      r := r - 1;
      if s[r] == v { return; }
    }
  }

  /** The n-th name OpenTail opens: basenames of ancestors, then the rest of the path, or "." for the root. */
  ghost function TailName(dirname: Str, n: nat, i: nat): Str
    requires IsDir(dirname) && i <= n <= Depth(dirname)
  {
    if i < n then
      AncestorIsDirOf(dirname, i);
      Basename(Ancestor(dirname, i))
    else if n == Depth(dirname) then DOT
    else
      AncestorIsDirOf(dirname, n);
      Ancestor(dirname, n)[..|Ancestor(dirname, n)| - 1]
  }

  lemma NextAncestor(dirname: Str, i: nat, s: Str, q: nat)
    requires IsDir(dirname) && i < Depth(dirname) && Ancestor(dirname, i) == s + [SLASH] && s != [] && s[0] != SLASH
    requires q <= |s| && (forall k :: q < k < |s| ==> s[k] != SLASH)
    requires (q < |s| && s[q] == SLASH) || (q == 0 && forall k :: 0 <= k < |s| ==> s[k] != SLASH)
    ensures EndsWithSlash(s + [SLASH])
    ensures q > 0 ==> Basename(s + [SLASH]) == s[q + 1..] && Parent(s + [SLASH]) == s[..q] + [SLASH]
    ensures q == 0 ==> Basename(s + [SLASH]) == s && Parent(s + [SLASH]) == []
  {
    var d := s + [SLASH];
    assert d[..|d| - 1] == s;
    if q > 0 {
      assert LastSlash(s) == q;
      assert s[..q + 1] == s[..q] + [SLASH];
    } else {
      assert LastSlash(s) == -1;
      assert d[0..|d| - 1] == s;
    }
  }

  lemma {:induction false} AncestorStep(dir: Str, i: nat)
    requires IsDir(dir) && i < Depth(dir)
    ensures EndsWithSlash(Ancestor(dir, i)) && Ancestor(dir, i + 1) == Parent(Ancestor(dir, i))
    ensures Depth(Ancestor(dir, i)) == Depth(dir) - i
  {
    hide Depth, LastSlash, DirOf;
    AncestorIsDirOf(dir, i);
    DepthOfParent(Ancestor(dir, i));
    AncestorOfAncestor(dir, i, 1);
    assert Ancestor(Ancestor(dir, i), 1) == Ancestor(Parent(Ancestor(dir, i)), 0);
  }

  /** The string part of OpenTail: cutting the last names off the path, innermost first. */
  method TailNames(dirname: Str, nfds: nat) returns (subdirs: seq<Str>)
    requires EndsWithSlash(dirname) && |dirname| > 1 && dirname[0] != SLASH && nfds > 0
    ensures 2 <= |subdirs| <= nfds + 1 && |subdirs| - 1 == Min(nfds, Depth(dirname))
    ensures forall i :: 0 <= i < |subdirs| ==> subdirs[i] == TailName(dirname, |subdirs| - 1, i)
  {
    hide Depth, LastSlash, DirOf, Parent, Basename, Ancestor;
    var s := dirname[..|dirname| - 1];
    var end := |s|;
    subdirs := [];
    DepthIsPositive(dirname);
    AncestorZero(dirname);
    assert dirname == s[..end] + [SLASH];
    var more := true;
    while more && |subdirs| < nfds
      invariant 0 < end <= |s| && |subdirs| <= nfds
      invariant |subdirs| < Depth(dirname)
      invariant Ancestor(dirname, |subdirs|) == s[..end] + [SLASH]
      invariant forall i :: 0 <= i < |subdirs| ==> subdirs[i] == NameAt(dirname, i)
      invariant !more ==> NameAt(dirname, |subdirs|) == s[..end] && |subdirs| + 1 == Depth(dirname) && |subdirs| < nfds
      decreases more, nfds - |subdirs|
    {
      var sep := FindLast(s, end, SLASH);
      AncestorStep(dirname, |subdirs|);
      NextAncestor(dirname, |subdirs|, s[..end], sep);
      if sep == 0 {
        more := false;
        RootIsLast(dirname, |subdirs|);
      } else {
        assert s[..end][sep + 1..] == s[sep + 1..end] && s[..end][..sep] == s[..sep];
        NotRootYet(dirname, |subdirs|);
        subdirs := subdirs + [s[sep + 1..end]];
        end := sep;
      }
    }
    ghost var k := |subdirs|;
    subdirs := subdirs + [s[..end]];
    if |subdirs| < nfds + 1 { subdirs := subdirs + [DOT]; }
    forall i | 0 <= i < |subdirs| ensures subdirs[i] == TailName(dirname, |subdirs| - 1, i) {
      if i == k && k == nfds {
        assert subdirs[i] == Ancestor(dirname, k)[..|Ancestor(dirname, k)| - 1];
      }
    }
  }

  ghost function NameAt(dirname: Str, i: nat): Str
    requires IsDir(dirname) && i < Depth(dirname)
  {
    AncestorStep(dirname, i);
    Basename(Ancestor(dirname, i))
  }

  lemma AncestorZero(dir: Str)
    requires IsDir(dir)
    ensures Ancestor(dir, 0) == dir
  {
  }

  lemma RootIsLast(dir: Str, i: nat)
    requires IsDir(dir) && i < Depth(dir) && EndsWithSlash(Ancestor(dir, i)) && Parent(Ancestor(dir, i)) == []
    ensures i + 1 == Depth(dir)
  {
    AncestorStep(dir, i);
    DepthOfParent(Ancestor(dir, i));
  }

  lemma NotRootYet(dir: Str, i: nat)
    requires IsDir(dir) && i < Depth(dir) && EndsWithSlash(Ancestor(dir, i)) && Parent(Ancestor(dir, i)) != []
    ensures i + 1 < Depth(dir)
  {
    hide LastSlash, DirOf, Ancestor;
    AncestorStep(dir, i);
    DepthOfParent(Ancestor(dir, i));
    AncestorIsDirOf(dir, i + 1);
    DepthIsPositive(Parent(Ancestor(dir, i)));
  }

  /** dir_fd and the kernel's table of descriptors. Descriptor numbers are not reused. */
  class HandleStack {
    var open: map<int, Node>
    var next: int
    var slots: seq<int>

    /** At the start of ScanDirs only the root's handle is open. */
    constructor (rootFd: nat, root: Node)
      ensures slots == [-1, -1, -1, -1, -1] && open == map[rootFd := root]
      ensures TableOk(open, slots, open, next)
    {
      open, next, slots := map[rootFd := root], rootFd + 1, [-1, -1, -1, -1, -1];
    }

    /** OpenDir: openat relative to an open handle. */
    method OpenDir(fs: Files, fd: int, path: Str) returns (r: int)
      requires fd in open
      modifies this`open, this`next
      ensures match OpenAt(fs, old(open[fd]), path)
              case None => r == -1 && open == old(open) && next == old(next)
              case Some(n) => r == old(next) && open == old(open)[r := n] && next == old(next) + 1
    {
      match OpenAt(fs, open[fd], path) {
        case None =>
          r := -1;
        case Some(n) =>
          r := next;
          open, next := open[r := n], next + 1;
      }
    }

    /** The Close lambda on slot i: its CHECK(!close(fd)) holds because the handle is open. */
    method CloseSlot(i: nat, ghost base: map<int, Node>)
      requires i < |slots| && TableOk(base, slots, open, next)
      modifies this`open, this`slots
      ensures slots == old(slots)[i := -1] && TableOk(base, slots, open, next)
      ensures open == if old(slots)[i] == -1 then old(open) else old(open) - {old(slots)[i]}
    {
      if slots[i] >= 0 {
        CloseKeepsTable(base, slots, open, next, i);
        open := open - {slots[i]};
        slots := slots[i := -1];
      }
    }

    /** Close slots lo..hi-1; CloseAll is the whole range. */
    method CloseRange(hi: nat, ghost base: map<int, Node>)
      requires hi <= |slots| && TableOk(base, slots, open, next)
      modifies this`open, this`slots
      ensures |slots| == |old(slots)| && TableOk(base, slots, open, next)
      ensures forall i :: 0 <= i < |slots| ==> slots[i] == if i < hi then -1 else old(slots)[i]
      ensures forall fd :: fd in open ==> fd in old(open) && open[fd] == old(open)[fd]
    {
      hide TableOk;
      for k := 0 to hi
        invariant |slots| == |old(slots)| && TableOk(base, slots, open, next)
        invariant forall i :: 0 <= i < |slots| ==> slots[i] == if i < k then -1 else old(slots)[i]
        invariant forall fd :: fd in open ==> fd in old(open) && open[fd] == old(open)[fd]
      {
        CloseSlot(k, base);
      }
    }

    /** OpenTail: after it, slot i holds the i-th ancestor of the first directory's parent, or every slot is empty. */
    method OpenTail(fs: Files, ghost root: Node, rootFd: int, dirname: Str, ghost base: map<int, Node>)
      requires |slots| == STACK_SIZE && TableOk(base, slots, open, next)
      requires forall i :: 0 <= i < |slots| ==> slots[i] == -1
      requires rootFd in base && base[rootFd] == root && fs.readable(root) && DotIsSelf(fs)
      requires dirname == [] || (EndsWithSlash(dirname) && |dirname| > 1 && dirname[0] != SLASH)
      modifies this
      ensures |slots| == STACK_SIZE && TableOk(base, slots, open, next)
      ensures dirname == [] ==> slots == old(slots)
      ensures dirname != [] ==> IsDir(Parent(dirname)) && SlotsOk(fs, root, Parent(dirname), slots, open)
      ensures dirname != [] ==>
                || (forall i :: 0 <= i < Min(STACK_SIZE, Depth(dirname)) ==> slots[i] != -1)
                || (exists i :: 0 < i <= Min(STACK_SIZE, Depth(dirname)) &&
                      OpenFromRoot(fs, root, Ancestor(dirname, i)) == None)
    {
      hide TableOk, Depth, LastSlash, DirOf, NodeOf, OpenFromRoot, OpenAt, Ancestor, SlotsOk;
      if dirname == [] { return; }
      var subdirs := TailNames(dirname, STACK_SIZE);
      var n := |subdirs| - 1;
      var fd := rootFd;
      var i := n;
      RootIsHeld(base, slots, open, next, rootFd);
      AncestorsOpen0(fs, root, dirname, n, slots, open);
      while i != 0
        invariant 0 <= i <= n && |slots| == STACK_SIZE && TableOk(base, slots, open, next)
        invariant AncestorsOpen(fs, root, dirname, n, i, slots, open)
        invariant fd in open && (if i == n then fd == rootFd && open[fd] == root else fd == slots[i])
        decreases i
      {
        TailOpens(fs, root, dirname, n, i, slots, open, open[fd]);
        ghost var was := open;
        NextIsFree(base, slots, open, next);
        fd := OpenDir(fs, fd, subdirs[i]);
        if fd < 0 {
          CloseRange(STACK_SIZE, base);
          EmptySlots(fs, root, Parent(dirname), slots, open);
          return;
        }
        OpenKeepsTable(base, slots, was, fd, i - 1, open[fd]);
        AncestorsOpenStep(fs, root, dirname, n, i, slots, was, fd, open[fd]);
        slots := slots[i - 1 := fd];
        i := i - 1;
      }
      AncestorsAreSlots(fs, root, dirname, n, slots, open);
    }

    /** Closing the slots below d, rotating, and putting the new handle into slot 0. */
    method Store(fd: int, d: nat, ghost base: map<int, Node>, ghost base': map<int, Node>)
      requires |slots| == STACK_SIZE && d < STACK_SIZE && TableOk(base', slots, open, next) && fd >= -1
      requires if fd < 0 then base' == base else fd !in base && fd in open && base' == base[fd := open[fd]]
      modifies this`open, this`slots
      ensures |slots| == STACK_SIZE && TableOk(base, slots, open, next)
      ensures slots[0] == fd && Shifted(old(slots), d, slots)
      ensures fd >= 0 ==> fd in open && open[fd] == old(open)[fd]
      ensures forall x :: x in open ==> x in old(open) && open[x] == old(open)[x]
    {
      hide TableOk;
      ghost var before := slots;
      CloseRange(d, base');
      var m := (if d != 0 then d else STACK_SIZE) - 1;
      RotateKeepsTable(base', slots, open, next, m);
      RotateShifts(before, d, slots, m);
      slots := slots[m..] + slots[..m];
      CloseSlot(0, base');
      if fd >= 0 {
        PlaceHandle(base, slots, open, next, fd, base'[fd]);
      } else {
        assert slots[0 := fd] == slots;
      }
      slots := slots[0 := fd];
    }

    /** The first branch: open by basename relative to slot d, close the slots below it, rotate. */
    method EnterRelative(fs: Files, ghost root: Node, ghost prev: Str, dir: Str, d: nat, ghost base: map<int, Node>)
      requires |slots| == STACK_SIZE && TableOk(base, slots, open, next)
      requires IsDir(prev) && SlotsOk(fs, root, prev, slots, open)
      requires EndsWithSlash(dir) && IsDirOf(Parent(dir), prev)
      requires d < STACK_SIZE && Depth(dir) <= Depth(prev) + 1 && d == Depth(prev) + 1 - Depth(dir) && slots[d] != -1
      modifies this
      ensures |slots| == STACK_SIZE && TableOk(base, slots, open, next)
      ensures OpenFromRoot(fs, root, dir) == None ==> slots[0] == -1
      ensures OpenFromRoot(fs, root, dir).Some? ==>
                && slots[0] in open && slots[0] >= 0 && OpenFromRoot(fs, root, dir) == Some(open[slots[0]])
                && SlotsOk(fs, root, dir, slots, open) && Shifted(old(slots), d, slots)
    {
      hide Depth, LastSlash, DirOf, NodeOf, OpenFromRoot, OpenAt, Ancestor, TableOk, Parent, Basename, SlotsOk, IsDirOf;
      ghost var before, was := slots, open;
      ParentInSlot(fs, root, prev, dir, slots, open);
      OpenRelative(fs, root, dir, open[slots[d]]);
      NextIsFree(base, slots, open, next);
      var fd := OpenDir(fs, slots[d], Basename(dir));
      ghost var base' := if fd < 0 then base else base[fd := open[fd]];
      if fd >= 0 { HoldHandle(base, slots, was, fd, open[fd]); }
      Store(fd, d, base, base');
      if fd >= 0 {
        hide Shifted;
        StillOpen(base, slots, open, next);
        ShiftKeepsSlots(fs, root, prev, dir, before, was, slots, open, open[fd]);
      }
    }

    /** The second branch: close everything and open by the full path. */
    method EnterFromRoot(fs: Files, ghost root: Node, rootFd: int, dir: Str, ghost base: map<int, Node>)
      requires |slots| == STACK_SIZE && TableOk(base, slots, open, next)
      requires rootFd in base && base[rootFd] == root && IsDir(dir)
      modifies this
      ensures |slots| == STACK_SIZE && TableOk(base, slots, open, next)
      ensures forall i :: 1 <= i < STACK_SIZE ==> slots[i] == -1
      ensures OpenFromRoot(fs, root, dir) == None ==> slots[0] == -1
      ensures OpenFromRoot(fs, root, dir).Some? ==>
                && slots[0] in open && slots[0] >= 0 && OpenFromRoot(fs, root, dir) == Some(open[slots[0]])
                && SlotsOk(fs, root, dir, slots, open)
    {
      hide TableOk, Depth, LastSlash;
      CloseRange(STACK_SIZE, base);
      RootIsHeld(base, slots, open, next, rootFd);
      NextIsFree(base, slots, open, next);
      ghost var was := open;
      var fd;
      if dir != [] {
        fd := OpenDir(fs, rootFd, dir[..|dir| - 1]);
      } else {
        // dup(root_fd); VERIFY demands that it succeeds.
        fd := next;
        open, next := open[fd := open[rootFd]], next + 1;
      }
      if fd >= 0 {
        OpenKeepsTable(base, slots, was, fd, 0, open[fd]);
      } else {
        assert slots[0 := fd] == slots;
      }
      slots := slots[0 := fd];
    }

    /**
     One step of the scan: after it slot 0 is the handle of dir, exactly as if dir had been opened by its full path
     from the root, and every other slot is empty or the matching ancestor.
     */
    method Enter(fs: Files, ghost root: Node, rootFd: int, ghost prev: Str, prevDepth: nat, dir: Str, depth: nat, first: bool,
                 ghost base: map<int, Node>)
      returns (ok: bool)
      requires |slots| == STACK_SIZE && TableOk(base, slots, open, next)
      requires rootFd in base && base[rootFd] == root
      requires IsDir(prev) && IsDir(dir) && prevDepth == Depth(prev) && depth == Depth(dir)
      requires SlotsOk(fs, root, prev, slots, open)
      requires if dir == [] then first && slots[0] == -1 else IsDirOf(Parent(dir), prev)
      requires first && dir != [] ==> prev == Parent(dir)
      modifies this
      ensures |slots| == STACK_SIZE && TableOk(base, slots, open, next)
      ensures ok <==> OpenFromRoot(fs, root, dir).Some?
      ensures ok ==> slots[0] in open && OpenFromRoot(fs, root, dir) == Some(open[slots[0]])
      ensures SlotsOk(fs, root, dir, slots, open)
      ensures !ok ==> forall i :: 0 <= i < STACK_SIZE ==> slots[i] == -1
      ensures var d := if first then 0 else prevDepth + 1 - depth;
              ok && 0 <= d < 5 && old(slots)[d] >= 0 ==> Shifted(old(slots), d, slots)
    {
      hide Depth, LastSlash, DirOf, NodeOf, OpenFromRoot, OpenAt, Ancestor, TableOk, SlotsOk;
      if dir != [] {
        ParentIsAncestor(prev, dir);
        if first { FirstDistance(dir); }
      }
      var d := if first then 0 else prevDepth + 1 - depth;
      if d < STACK_SIZE && slots[d] >= 0 {
        EnterRelative(fs, root, prev, dir, d, base);
      } else {
        EnterFromRoot(fs, root, rootFd, dir, base);
      }
      ok := slots[0] >= 0;
      if !ok {
        CloseRange(STACK_SIZE, base);
        EmptySlots(fs, root, dir, slots, open);
      }
    }
  }

  lemma RotateShifts(before: seq<int>, d: nat, closed: seq<int>, m: nat)
    requires |before| == |closed| == STACK_SIZE && d < STACK_SIZE
    requires forall i :: 0 <= i < STACK_SIZE ==> closed[i] == if i < d then -1 else before[i]
    requires m == (if d != 0 then d else STACK_SIZE) - 1
    ensures Shifted(before, d, closed[m..] + closed[..m])
  {
  }

  lemma FirstDistance(dir: Str)
    requires EndsWithSlash(dir)
    ensures IsDir(Parent(dir)) && Depth(Parent(dir)) + 1 == Depth(dir)
  {
    DepthIsPositive(dir);
    DepthOfParent(dir);
  }

  lemma ParentInSlot(fs: Files, root: Node, prev: Str, dir: Str, slots: seq<int>, open: map<int, Node>)
    requires IsDir(prev) && EndsWithSlash(dir) && IsDirOf(Parent(dir), prev) && SlotsOk(fs, root, prev, slots, open)
    requires Depth(dir) <= Depth(prev) + 1 && Depth(prev) + 1 - Depth(dir) < |slots|
    requires slots[Depth(prev) + 1 - Depth(dir)] != -1
    ensures var fd := slots[Depth(prev) + 1 - Depth(dir)];
            fd in open && NodeOf(fs, root, Parent(dir)) == Some(open[fd])
  {
    ParentIsAncestor(prev, dir);
  }

  lemma StillOpen(base: map<int, Node>, slots: seq<int>, open: map<int, Node>, next: int)
    requires TableOk(base, slots, open, next)
    ensures forall i :: 0 <= i < |slots| && slots[i] != -1 ==> slots[i] in open
  {
    assert forall i :: 0 <= i < |slots| ==> slots[i] in slots;
  }

  /** Slots i..n-1 hold the ancestors i+1..n of dirname; the others are empty. */
  ghost predicate AncestorsOpen(fs: Files, root: Node, dirname: Str, n: nat, i: nat, slots: seq<int>, open: map<int, Node>)
  {
    && IsDir(dirname) && n <= Depth(dirname) && n <= |slots| && i <= n
    && forall k :: 0 <= k < |slots| ==>
         if i <= k < n then
           slots[k] in open && slots[k] != -1 && NodeOf(fs, root, Ancestor(dirname, k + 1)) == Some(open[slots[k]])
         else slots[k] == -1
  }

  lemma AncestorsOpen0(fs: Files, root: Node, dirname: Str, n: nat, slots: seq<int>, open: map<int, Node>)
    requires IsDir(dirname) && n <= Depth(dirname) && n <= |slots|
    requires forall i :: 0 <= i < |slots| ==> slots[i] == -1
    ensures AncestorsOpen(fs, root, dirname, n, n, slots, open)
  {
  }

  lemma RootIsHeld(base: map<int, Node>, slots: seq<int>, open: map<int, Node>, next: int, fd: int)
    requires TableOk(base, slots, open, next) && fd in base
    ensures fd in open && open[fd] == base[fd]
  {
  }

  lemma NextIsFree(base: map<int, Node>, slots: seq<int>, open: map<int, Node>, next: int)
    requires TableOk(base, slots, open, next)
    ensures 0 <= next && next !in open
  {
  }

  /** The next name opens the next ancestor, as its full path from the root would. */
  lemma TailOpens(fs: Files, root: Node, dirname: Str, n: nat, i: nat, slots: seq<int>, open: map<int, Node>, cur: Node)
    requires AncestorsOpen(fs, root, dirname, n, i, slots, open) && 0 < i
    requires fs.readable(root) && DotIsSelf(fs)
    requires if i == n then cur == root else i < |slots| && slots[i] in open && cur == open[slots[i]]
    ensures var a := Ancestor(dirname, i);
            && OpenAt(fs, cur, TailName(dirname, n, i)) == OpenFromRoot(fs, root, a)
            && (OpenFromRoot(fs, root, a).Some? ==> NodeOf(fs, root, a) == OpenFromRoot(fs, root, a))
  {
    hide Depth, LastSlash, DirOf, Ancestor;
    if i < n {
      AncestorStep(dirname, i);
      OpenRelative(fs, root, Ancestor(dirname, i), cur);
    } else if n == Depth(dirname) {
      AncestorIsDirOf(dirname, n);
      RootByDepth(Ancestor(dirname, n));
      OpenDot(fs, root);
    } else {
      AncestorStep(dirname, n);
    }
  }

  lemma RootByDepth(d: Str)
    requires IsDir(d) && Depth(d) == 0
    ensures d == []
  {
  }

  lemma AncestorsOpenStep(fs: Files, root: Node, dirname: Str, n: nat, i: nat, slots: seq<int>, open: map<int, Node>,
                          fd: int, node: Node)
    requires AncestorsOpen(fs, root, dirname, n, i, slots, open) && 0 < i && fd != -1 && fd !in open
    requires NodeOf(fs, root, Ancestor(dirname, i)) == Some(node)
    ensures AncestorsOpen(fs, root, dirname, n, i - 1, slots[i - 1 := fd], open[fd := node])
  {
  }

  lemma AncestorsAreSlots(fs: Files, root: Node, dirname: Str, n: nat, slots: seq<int>, open: map<int, Node>)
    requires EndsWithSlash(dirname) && AncestorsOpen(fs, root, dirname, n, 0, slots, open)
    ensures IsDir(Parent(dirname)) && SlotsOk(fs, root, Parent(dirname), slots, open)
    ensures forall k :: 0 <= k < n ==> slots[k] != -1
  {
    hide NodeOf, LastSlash, DirOf;
    DepthIsPositive(dirname);
    DepthOfParent(dirname);
    forall k | 0 <= k < |slots| && slots[k] != -1
      ensures k <= Depth(Parent(dirname)) && Ancestor(Parent(dirname), k) == Ancestor(dirname, k + 1)
    {
    }
  }

  lemma EmptySlots(fs: Files, root: Node, dir: Str, slots: seq<int>, open: map<int, Node>)
    requires IsDir(dir) && forall i :: 0 <= i < |slots| ==> slots[i] == -1
    ensures SlotsOk(fs, root, dir, slots, open)
  {
  }
}
