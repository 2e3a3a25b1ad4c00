/**
 index.cc, ScanDirs: the walk over a slice of the directory list, and the cache of untracked entries.

 A `Disk` is the file system as it stands during one scan. IsModified and fstatat are folded into `clean`.
 */
module Scan {
  import opened Basics
  import opened ByteStrings
  import opened Paths
  import opened DirTree
  import opened Merge
  import opened Handles

  /** The fields StatEq compares. */
  datatype Stat = Stat(sec: int, nsec: int, size: int, ino: int, mode: int)

  const NO_STAT := Stat(0, 0, 0, 0, 0)

  datatype Tribool = False | True | Unknown

  datatype ScanOpts = ScanOpts(includeUntracked: bool, cache: Tribool)

  /** clean(n, j): fstatat of entry j's name in node n succeeds and IsModified says no. */
  datatype Disk = Disk(fs: Files, root: Node, stat: Node -> Option<Stat>, list: Node -> Option<seq<Entry>>,
                       clean: (Node, nat) -> bool)

  /** The part of IndexDir that survives from scan to scan. */
  datatype DirState = DirState(st: Stat, unmatched: seq<Str>)

  const NEW_DIR := DirState(NO_STAT, [])

  /** Components of index paths are non-empty and hold no NUL. */
  ghost predicate WellFormed(p: Str) {
    && NoNul(p)
    && forall i :: 0 <= i < |p| && p[i] == SLASH ==> 0 < i && p[i - 1] != SLASH
  }

  ghost predicate GoodIndex(index: seq<Str>) {
    Sorted(index) && forall j :: 0 <= j < |index| ==> WellFormed(index[j])
  }

  function EntryName(p: Str): Str { p[|DirOf(p)|..] }

  /** The file system is consistent while it is scanned, and conflict stages are never clean. */
  ghost predicate ValidDisk(disk: Disk, index: seq<Str>) {
    && DotIsSelf(disk.fs) && disk.fs.readable(disk.root)
    && (forall n :: disk.stat(n) != Some(NO_STAT))
    && (forall n :: disk.list(n).Some? ==> GoodListing(disk.list(n).value))
    && (forall n, j :: 0 <= j < |index| && disk.clean(n, j) && disk.list(n).Some? ==>
          Lists(disk.list(n).value, EntryName(index[j])))
    && (forall n, i, j :: 0 <= i < j < |index| && index[i] == index[j] ==> !disk.clean(n, i) && !disk.clean(n, j))
  }

  ghost predicate FilesValid(d: Dir, index: seq<Str>) {
    forall a :: 0 <= a < |d.files| ==> d.files[a] < |index| && DirOf(index[d.files[a]]) == d.path
  }

  function FileNames(d: Dir, index: seq<Str>): (r: seq<Str>)
    requires FilesValid(d, index)
    ensures |r| == |d.files| && forall a :: 0 <= a < |r| ==> r[a] == EntryName(index[d.files[a]])
  {
    seq(|d.files|, a requires 0 <= a < |d.files| => EntryName(index[d.files[a]]))
  }

  function DirtyFiles(d: Dir, disk: Disk, n: Node): (r: seq<bool>)
    ensures |r| == |d.files| && forall a :: 0 <= a < |r| ==> r[a] == !disk.clean(n, d.files[a])
  {
    seq(|d.files|, a requires 0 <= a < |d.files| => !disk.clean(n, d.files[a]))
  }

  /* ---- what one directory contributes ---- */

  /** StatFiles. */
  ghost predicate StatReports(d: Dir, index: seq<Str>, disk: Disk, n: Node, p: Str)
    requires FilesValid(d, index)
  {
    exists a :: 0 <= a < |d.files| && !disk.clean(n, d.files[a]) && p == d.path + EntryName(index[d.files[a]])
  }

  /** The candidates the scan of one directory reports, given what it remembers. */
  ghost predicate Reported(sc: bool, d: Dir, index: seq<Str>, disk: Disk, opts: ScanOpts, state: DirState,
                           h: Option<Node>, p: Str)
    requires FilesValid(d, index)
  {
    match h
    case None => p == d.path
    case Some(n) =>
      if !opts.includeUntracked then StatReports(d, index, disk, n, p)
      else if opts.cache != False && disk.stat(n) == None then p == d.path
      else if opts.cache == True && disk.stat(n) == Some(state.st) then
        StatReports(d, index, disk, n, p) || p in state.unmatched
      else if disk.list(n) == None then p == d.path
      else
        var l := disk.list(n).value;
        || p in Unmatched(sc, d, index, l)
        || FileCandidate(d.path, FileNames(d, index), DirtyFiles(d, disk, n), l, |d.files|, p)
  }

  /** What it remembers afterwards. */
  ghost function NextState(sc: bool, d: Dir, index: seq<Str>, disk: Disk, opts: ScanOpts, state: DirState,
                           h: Option<Node>): DirState
    requires FilesValid(d, index)
  {
    match h
    case None => DirState(NO_STAT, [d.path])
    case Some(n) =>
      if !opts.includeUntracked then state
      else if opts.cache != False && disk.stat(n) == None then DirState(NO_STAT, [d.path])
      else if opts.cache == True && disk.stat(n) == Some(state.st) then state
      else if disk.list(n) == None then DirState(NO_STAT, [d.path])
      else
        DirState(if opts.cache != False then disk.stat(n).value else state.st, Unmatched(sc, d, index, disk.list(n).value))
  }

  function Unmatched(sc: bool, d: Dir, index: seq<Str>, l: seq<Entry>): seq<Str>
    requires FilesValid(d, index)
  {
    UnmatchedPaths(d.path, Untracked(sc, FileNames(d, index), d.subdirs, 0, l))
  }

  /** The reference: what is dirty when every directory is listed afresh, by the set definition. */
  ghost predicate Fresh(d: Dir, index: seq<Str>, disk: Disk, opts: ScanOpts, h: Option<Node>, p: Str)
    requires FilesValid(d, index)
  {
    match h
    case None => p == d.path
    case Some(n) =>
      if !opts.includeUntracked then StatReports(d, index, disk, n, p)
      else if opts.cache != False && disk.stat(n) == None then p == d.path
      else if disk.list(n) == None then p == d.path
      else DirtyPath(d.path, FileNames(d, index), DirtyFiles(d, disk, n), d.subdirs, disk.list(n).value, p)
  }

  /* ---- a directory of the tree meets the merge's preconditions ---- */

  lemma TreeDirIsGood(dirs: seq<Dir>, index: seq<Str>, k: nat)
    requires GoodIndex(index) && IsTreeOf(dirs, index) && k < |dirs|
    ensures FilesValid(dirs[k], index) && Sorted(FileNames(dirs[k], index))
    ensures StrictlySorted(dirs[k].subdirs) && GoodNames(dirs[k].subdirs)
  {
    hide Shape, DirsOk, Known;
    var d := dirs[k];
    forall a | 0 <= a < |d.files| ensures d.files[a] < |index| && DirOf(index[d.files[a]]) == d.path {
      FilesLieInTheirDir(dirs, index, k, a);
    }
    var names := FileNames(d, index);
    forall a, b | 0 <= a < b < |names| ensures Leq(names[a], names[b]) {
      FilesInBasenameOrder(dirs, index, k, a, b);
    }
    forall i | 0 <= i < |d.subdirs| ensures GoodName(d.subdirs[i]) {
      SubdirIsGood(dirs, index, k, d.subdirs[i]);
    }
  }

  lemma SubdirIsGood(dirs: seq<Dir>, index: seq<Str>, k: nat, x: Str)
    requires GoodIndex(index) && IsTreeOf(dirs, index) && k < |dirs| && x in dirs[k].subdirs
    ensures GoodName(x)
  {
    var d := dirs[k];
    var paths := PathsOf(dirs);
    assert DirOk(d, paths, index, |index|, |index|);
    var c := Child(d.path, x);
    assert c in paths && Known(index, |index|, 0, c);
    assert |c| > 0;
    var j :| 0 <= j < |index| && IsDirOf(c, index[j]);
    ComponentIsGood(index[j], d.path, x);
  }

  lemma ComponentIsGood(p: Str, dir: Str, x: Str)
    requires WellFormed(p) && IsDirOf(Child(dir, x), p) && (dir == [] || EndsWithSlash(dir)) && IsName(x)
    ensures GoodName(x)
  {
    var c := Child(dir, x);
    assert forall i :: 0 <= i < |c| ==> p[i] == c[i];
    assert forall i :: 0 <= i < |x| ==> c[|dir| + i] == x[i];
    assert c[|c| - 1] == SLASH && (dir != [] ==> c[|dir| - 1] == SLASH);
  }

  lemma StagesAreDirty(d: Dir, index: seq<Str>, disk: Disk, n: Node)
    requires ValidDisk(disk, index) && FilesValid(d, index)
    requires forall a, b :: 0 <= a < b < |d.files| ==> d.files[a] < d.files[b]
    ensures StagesDirty(FileNames(d, index), DirtyFiles(d, disk, n))
  {
    var names := FileNames(d, index);
    forall i, j | 0 <= i < j < |names| && names[i] == names[j]
      ensures !disk.clean(n, d.files[i]) && !disk.clean(n, d.files[j])
    {
      var a, b := index[d.files[i]], index[d.files[j]];
      assert a == DirOf(a) + EntryName(a) && b == DirOf(b) + EntryName(b);
    }
  }

  /** On an unchanged disk, a file that stats clean is listed, so the merge and StatFiles agree about files. */
  lemma FilesAgree(d: Dir, index: seq<Str>, disk: Disk, n: Node, p: Str)
    requires ValidDisk(disk, index) && FilesValid(d, index) && disk.list(n).Some?
    ensures StatReports(d, index, disk, n, p) <==>
            FileCandidate(d.path, FileNames(d, index), DirtyFiles(d, disk, n), disk.list(n).value, |d.files|, p)
  {
    var names, dirty, l := FileNames(d, index), DirtyFiles(d, disk, n), disk.list(n).value;
    if FileCandidate(d.path, names, dirty, l, |d.files|, p) {
      var a :| 0 <= a < |names| && p == d.path + names[a] && (dirty[a] || !Lists(l, names[a]));
      assert !disk.clean(n, d.files[a]);
    }
    if StatReports(d, index, disk, n, p) {
      var a :| 0 <= a < |d.files| && !disk.clean(n, d.files[a]) && p == d.path + EntryName(index[d.files[a]]);
      assert dirty[a] && p == d.path + names[a];
    }
  }

  /* ---- the cache over a whole run ---- */

  /** The node a directory has on a disk, or None if it cannot be opened. */
  function HandleOf(disk: Disk, d: Dir): Option<Node> { OpenFromRoot(disk.fs, disk.root, d.path) }

  /** On this disk the directory has this stat and this listing. */
  ghost predicate Saw(disk: Disk, d: Dir, st: Stat, l: seq<Entry>) {
    var h := HandleOf(disk, d);
    h.Some? && disk.stat(h.value) == Some(st) && disk.list(h.value) == Some(l)
  }

  /** The directory's stat determines its listing, over a history of disks. */
  ghost predicate StatDetermines(disks: seq<Disk>, d: Dir) {
    forall s, t :: 0 <= s < |disks| && 0 <= t < |disks| ==>
      var a, b := HandleOf(disks[s], d), HandleOf(disks[t], d);
      a.Some? && b.Some? && disks[s].stat(a.value).Some? && disks[s].stat(a.value) == disks[t].stat(b.value) ==>
        disks[s].list(a.value) == disks[t].list(b.value)
  }

  /** The remembered entries are those of a disk on which the directory had the remembered stat. */
  ghost predicate CacheOk(sc: bool, d: Dir, index: seq<Str>, state: DirState, disks: seq<Disk>, t: nat)
    requires t <= |disks| && FilesValid(d, index)
  {
    state.st == NO_STAT ||
    exists s, l :: 0 <= s < t && Saw(disks[s], d, state.st, l) && state.unmatched == Unmatched(sc, d, index, l)
  }

  /** What is remembered before scan t. */
  ghost function StateBefore(sc: bool, d: Dir, index: seq<Str>, disks: seq<Disk>, opts: seq<ScanOpts>, t: nat): DirState
    requires t <= |disks| == |opts| && FilesValid(d, index)
  {
    if t == 0 then NEW_DIR
    else NextState(sc, d, index, disks[t - 1], opts[t - 1], StateBefore(sc, d, index, disks, opts, t - 1),
                   HandleOf(disks[t - 1], d))
  }

  /** The flag moves at most once, from Unknown to its final value. */
  ghost predicate FlagSettles(opts: seq<ScanOpts>) {
    forall s, t :: 0 <= s < t < |opts| && opts[s].cache != Unknown ==> opts[t].cache == opts[s].cache
  }

  lemma CacheOkStep(sc: bool, d: Dir, index: seq<Str>, state: DirState, disks: seq<Disk>, opts: ScanOpts, t: nat)
    requires t < |disks| && FilesValid(d, index) && CacheOk(sc, d, index, state, disks, t) && opts.cache != False
    ensures CacheOk(sc, d, index, NextState(sc, d, index, disks[t], opts, state, HandleOf(disks[t], d)), disks, t + 1)
  {
    var h := HandleOf(disks[t], d);
    var next := NextState(sc, d, index, disks[t], opts, state, h);
    if next == state {
      if state.st != NO_STAT {
        var s, l :| 0 <= s < t && Saw(disks[s], d, state.st, l) && state.unmatched == Unmatched(sc, d, index, l);
        assert 0 <= s < t + 1;
      }
    } else if next.st != NO_STAT {
      var l := disks[t].list(h.value).value;
      assert Saw(disks[t], d, next.st, l) && next.unmatched == Unmatched(sc, d, index, l);
    }
  }

  lemma {:induction false} CacheStaysOk(sc: bool, d: Dir, index: seq<Str>, disks: seq<Disk>, opts: seq<ScanOpts>, t: nat)
    requires t <= |disks| == |opts| && FilesValid(d, index)
    requires forall s :: 0 <= s < t ==> opts[s].cache != False
    ensures CacheOk(sc, d, index, StateBefore(sc, d, index, disks, opts, t), disks, t)
    decreases t
  {
    if t > 0 {
      CacheStaysOk(sc, d, index, disks, opts, t - 1);
      CacheOkStep(sc, d, index, StateBefore(sc, d, index, disks, opts, t - 1), disks, opts[t - 1], t - 1);
    }
  }

  /** One scan with a sound cache reports what listing afresh would. */
  lemma ReportedIsFresh(sc: bool, d: Dir, index: seq<Str>, state: DirState, disks: seq<Disk>, opts: ScanOpts, t: nat, p: Str)
    requires t < |disks| && FilesValid(d, index) && ValidDisk(disks[t], index) && StatDetermines(disks, d)
    requires StrictlySorted(d.subdirs) && GoodNames(d.subdirs) && (!sc || AllAscii(d.subdirs))
    requires opts.cache == True ==> CacheOk(sc, d, index, state, disks, t)
    ensures Reported(sc, d, index, disks[t], opts, state, HandleOf(disks[t], d), p) <==>
            Fresh(d, index, disks[t], opts, HandleOf(disks[t], d), p)
  {
    var disk := disks[t];
    var h := HandleOf(disk, d);
    if h.Some? && opts.includeUntracked {
      var n := h.value;
      if opts.cache == True && disk.stat(n) == Some(state.st) {
        var s, l :| 0 <= s < t && Saw(disks[s], d, state.st, l) && state.unmatched == Unmatched(sc, d, index, l);
        assert disks[s].list(HandleOf(disks[s], d).value) == disk.list(n);
      }
      if disk.list(n).Some? {
        hide Less, DirtyPath, FileCandidate, Untracked, UnmatchedPaths, StatDetermines, CacheOk, Saw;
        FilesAgree(d, index, disk, n, p);
        MergeIsSetDefinition(sc, d.path, FileNames(d, index), DirtyFiles(d, disk, n), d.subdirs, disk.list(n).value, p);
      }
    }
  }

  /**
   The cache is used: a scan with the cache on or undecided remembers the stat and the untracked entries of a listed
   directory, and a scan with the cache on that meets the remembered stat does not look at the listing.
   */
  lemma CacheIsUsed(sc: bool, d: Dir, index: seq<Str>, disk: Disk, opts: ScanOpts, state: DirState, n: Node)
    requires FilesValid(d, index) && opts.includeUntracked && opts.cache != False && disk.stat(n).Some?
    ensures disk.list(n).Some? && !(opts.cache == True && disk.stat(n).value == state.st) ==>
              NextState(sc, d, index, disk, opts, state, Some(n)) ==
              DirState(disk.stat(n).value, Unmatched(sc, d, index, disk.list(n).value))
    ensures opts.cache == True && disk.stat(n).value == state.st ==>
              && NextState(sc, d, index, disk, opts, state, Some(n)) == state
              && forall list, p ::
                   Reported(sc, d, index, disk, opts, state, Some(n), p) <==>
                   Reported(sc, d, index, disk.(list := list), opts, state, Some(n), p)
  {
  }

  /**
   The untracked cache agrees with a full rescan: over every run of scans of a changing disk on which a directory's
   stat determines its listing, each scan reports exactly what listing the directory afresh would.
   */
  lemma CacheAgreesWithRescan(sc: bool, dirs: seq<Dir>, index: seq<Str>, k: nat, disks: seq<Disk>, opts: seq<ScanOpts>,
                              t: nat, p: Str)
    requires GoodIndex(index) && IsTreeOf(dirs, index) && k < |dirs| && (!sc || AllAscii(dirs[k].subdirs))
    requires t < |disks| == |opts| && FlagSettles(opts)
    requires forall s :: 0 <= s < |disks| ==> ValidDisk(disks[s], index)
    requires StatDetermines(disks, dirs[k])
    ensures FilesValid(dirs[k], index)
    ensures Reported(sc, dirs[k], index, disks[t], opts[t], StateBefore(sc, dirs[k], index, disks, opts, t),
                     HandleOf(disks[t], dirs[k]), p) <==>
            Fresh(dirs[k], index, disks[t], opts[t], HandleOf(disks[t], dirs[k]), p)
  {
    hide Reported, Fresh, NextState, CacheOk, IsTreeOf, ValidDisk, StatDetermines, HandleOf;
    TreeDirIsGood(dirs, index, k);
    if opts[t].cache == True {
      CacheStaysOk(sc, dirs[k], index, disks, opts, t);
    }
    ReportedIsFresh(sc, dirs[k], index, StateBefore(sc, dirs[k], index, disks, opts, t), disks, opts[t], t, p);
  }

  /** What is remembered does not depend on later scans. */
  lemma {:induction false} StatePrefix(sc: bool, d: Dir, index: seq<Str>, disks: seq<Disk>, opts: seq<ScanOpts>, disk: Disk,
                                       o: ScanOpts, t: nat)
    requires t <= |disks| == |opts| && FilesValid(d, index)
    ensures StateBefore(sc, d, index, disks + [disk], opts + [o], t) == StateBefore(sc, d, index, disks, opts, t)
  {
    hide NextState, HandleOf;
    if t > 0 { StatePrefix(sc, d, index, disks, opts, disk, o, t - 1); }
  }

  lemma StatesPrefix(sc: bool, dirs: seq<Dir>, index: seq<Str>, disks: seq<Disk>, opts: seq<ScanOpts>, disk: Disk,
                     o: ScanOpts, states: seq<DirState>)
    requires |disks| == |opts| && StatesBefore(sc, dirs, index, disks, opts, |disks|, states)
    ensures StatesBefore(sc, dirs, index, disks + [disk], opts + [o], |disks|, states)
  {
    hide FilesValid;
    forall k | 0 <= k < |dirs|
      ensures FilesValid(dirs[k], index) && states[k] == StateBefore(sc, dirs[k], index, disks + [disk], opts + [o], |disks|)
    {
      StatePrefix(sc, dirs[k], index, disks, opts, disk, o, |disks|);
    }
  }

  /** The remembered states advance with each scan (DirRemembers at every directory). */
  ghost predicate StatesBefore(sc: bool, dirs: seq<Dir>, index: seq<Str>, disks: seq<Disk>, opts: seq<ScanOpts>, t: nat,
                               states: seq<DirState>)
    requires t <= |disks| == |opts|
  {
    && |states| == |dirs|
    && forall k :: 0 <= k < |dirs| ==>
         FilesValid(dirs[k], index) && states[k] == StateBefore(sc, dirs[k], index, disks, opts, t)
  }

  lemma StatesAdvance(sc: bool, dirs: seq<Dir>, index: seq<Str>, disks: seq<Disk>, opts: seq<ScanOpts>, t: nat,
                      states: seq<DirState>, next: seq<DirState>)
    requires t < |disks| == |opts| && StatesBefore(sc, dirs, index, disks, opts, t, states) && |next| == |states|
    requires forall k :: 0 <= k < |dirs| ==> DirRemembers(sc, dirs, index, disks[t], opts[t], states, k, next[k])
    ensures StatesBefore(sc, dirs, index, disks, opts, t + 1, next)
  {
    forall k | 0 <= k < |dirs|
      ensures FilesValid(dirs[k], index) && next[k] == StateBefore(sc, dirs[k], index, disks, opts, t + 1)
    {
      assert DirRemembers(sc, dirs, index, disks[t], opts[t], states, k, next[k]);
    }
  }

  /** Over a whole run, what the directories report together is what they would report listed afresh. */
  lemma RunAgreesWithRescan(sc: bool, dirs: seq<Dir>, index: seq<Str>, disks: seq<Disk>, opts: seq<ScanOpts>, t: nat,
                            states: seq<DirState>, p: Str)
    requires GoodIndex(index) && IsTreeOf(dirs, index)
    requires !sc || forall k :: 0 <= k < |dirs| ==> AllAscii(dirs[k].subdirs)
    requires t < |disks| == |opts| && FlagSettles(opts)
    requires forall s :: 0 <= s < |disks| ==> ValidDisk(disks[s], index)
    requires forall k :: 0 <= k < |dirs| ==> StatDetermines(disks, dirs[k])
    requires StatesBefore(sc, dirs, index, disks, opts, t, states)
    ensures (exists k :: 0 <= k < |dirs| && DirReports(sc, dirs, index, disks[t], opts[t], states, k, p)) <==>
            (exists k :: 0 <= k < |dirs| && FilesValid(dirs[k], index) &&
                         Fresh(dirs[k], index, disks[t], opts[t], HandleOf(disks[t], dirs[k]), p))
  {
    hide Reported, Fresh, StateBefore, IsTreeOf, ValidDisk, StatDetermines, HandleOf, FilesValid;
    forall k | 0 <= k < |dirs|
      ensures DirReports(sc, dirs, index, disks[t], opts[t], states, k, p) <==>
              FilesValid(dirs[k], index) && Fresh(dirs[k], index, disks[t], opts[t], HandleOf(disks[t], dirs[k]), p)
    {
      CacheAgreesWithRescan(sc, dirs, index, k, disks, opts, t, p);
    }
  }

  /* ---- the reference in terms of the index alone ---- */

  /** dir is the root or a directory that some index path goes through. */
  ghost predicate IndexDir(index: seq<Str>, dir: Str) {
    dir == [] || (dir[|dir| - 1] == 47 && exists j :: 0 <= j < |index| && HasPrefix(index[j], dir))
  }

  /** The path is that of a file right inside dir. */
  ghost predicate LiesIn(dir: Str, path: Str) { HasPrefix(path, dir) && 47 !in path[|dir|..] }

  /** No index entry has the path of this listed name, and none lies below it. */
  ghost predicate NotInIndex(dir: Str, index: seq<Str>, name: Str) {
    forall j :: 0 <= j < |index| ==> index[j] != dir + name && !HasPrefix(index[j], dir + name + [47])
  }

  /**
   What a full comparison of directory dir with the index finds: dir itself if it cannot be opened or listed, each
   index entry in it that does not stat clean, and each listed name that the index does not know.
   */
  ghost predicate DirtyIn(dir: Str, index: seq<Str>, disk: Disk, opts: ScanOpts, p: Str) {
    match OpenFromRoot(disk.fs, disk.root, dir)
    case None => p == dir
    case Some(n) =>
      if opts.includeUntracked && (disk.list(n) == None || (opts.cache != False && disk.stat(n) == None)) then p == dir
      else
        || (exists j :: 0 <= j < |index| && LiesIn(dir, index[j]) && !disk.clean(n, j) && p == index[j])
        || (opts.includeUntracked &&
            exists e :: e in disk.list(n).value && NotInIndex(dir, index, e.name) && ShowsAs(dir, e, p))
  }

  /** What a full comparison of the index with the disk finds. */
  ghost predicate Dirty(index: seq<Str>, disk: Disk, opts: ScanOpts, p: Str) {
    exists dir :: IndexDir(index, dir) && DirtyIn(dir, index, disk, opts, p)
  }

  lemma LiesInIsDirOf(dir: Str, path: Str)
    requires IsDir(dir)
    ensures LiesIn(dir, path) <==> DirOf(path) == dir
  {
    if LiesIn(dir, path) { NoSlashAfter(path, |dir|); }
  }

  lemma FilesByPath(d: Dir, index: seq<Str>, disk: Disk, n: Node, p: Str)
    requires FilesValid(d, index) && FilesOk(d, index, |index|) && IsDir(d.path)
    ensures StatReports(d, index, disk, n, p) <==>
            exists j :: 0 <= j < |index| && LiesIn(d.path, index[j]) && !disk.clean(n, j) && p == index[j]
  {
    hide LastSlash, DirOf;
    if StatReports(d, index, disk, n, p) {
      var a :| 0 <= a < |d.files| && !disk.clean(n, d.files[a]) && p == d.path + EntryName(index[d.files[a]]);
      var j := d.files[a];
      LiesInIsDirOf(d.path, index[j]);
      assert p == index[j];
    }
    if j :| 0 <= j < |index| && LiesIn(d.path, index[j]) && !disk.clean(n, j) && p == index[j] {
      LiesInIsDirOf(d.path, index[j]);
      assert j in d.files;
      var a :| 0 <= a < |d.files| && d.files[a] == j;
      assert p == d.path + EntryName(index[d.files[a]]);
    }
  }

  lemma NameInFiles(d: Dir, index: seq<Str>, x: Str)
    requires FilesValid(d, index) && FilesOk(d, index, |index|) && IsDir(d.path) && IsName(x)
    ensures x in FileNames(d, index) <==> exists j :: 0 <= j < |index| && index[j] == d.path + x
  {
    hide LastSlash, DirOf;
    var names := FileNames(d, index);
    if x in names {
      var a :| 0 <= a < |names| && names[a] == x;
      var q := index[d.files[a]];
      assert q == DirOf(q) + EntryName(q);
    }
    if j :| 0 <= j < |index| && index[j] == d.path + x {
      var q := index[j];
      assert q[|d.path|..] == x && q[..|d.path|] == d.path;
      LiesInIsDirOf(d.path, q);
      assert EntryName(q) == x;
      assert j in d.files;
      var a :| 0 <= a < |d.files| && d.files[a] == j;
      assert names[a] == x;
    }
  }

  lemma NameInSubdirs(dirs: seq<Dir>, index: seq<Str>, k: nat, x: Str)
    requires IsTreeOf(dirs, index) && k < |dirs| && IsName(x)
    ensures x in dirs[k].subdirs <==> exists j :: 0 <= j < |index| && HasPrefix(index[j], dirs[k].path + x + [47])
  {
    var c := Child(dirs[k].path, x);
    assert DirOk(dirs[k], PathsOf(dirs), index, |index|, |index|);
    assert c == dirs[k].path + x + [47] && c != [] && EndsWithSlash(c);
    assert c in PathsOf(dirs) <==> Known(index, |index|, 0, c);
    assert forall j :: 0 <= j < |index| ==> (IsDirOf(c, index[j]) <==> HasPrefix(index[j], c));
  }

  lemma UnknownNames(dirs: seq<Dir>, index: seq<Str>, k: nat, x: Str)
    requires IsTreeOf(dirs, index) && k < |dirs| && IsName(x) && FilesValid(dirs[k], index)
    ensures x !in FileNames(dirs[k], index) && x !in dirs[k].subdirs <==> NotInIndex(dirs[k].path, index, x)
  {
    assert DirOk(dirs[k], PathsOf(dirs), index, |index|, |index|);
    NameInFiles(dirs[k], index, x);
    NameInSubdirs(dirs, index, k, x);
  }

  lemma FreshIsDirtyIn(dirs: seq<Dir>, index: seq<Str>, k: nat, disk: Disk, opts: ScanOpts, p: Str)
    requires GoodIndex(index) && IsTreeOf(dirs, index) && k < |dirs| && ValidDisk(disk, index)
    ensures FilesValid(dirs[k], index)
    ensures Fresh(dirs[k], index, disk, opts, HandleOf(disk, dirs[k]), p) <==> DirtyIn(dirs[k].path, index, disk, opts, p)
  {
    var d, h := dirs[k], HandleOf(disk, dirs[k]);
    TreeDirIsGood(dirs, index, k);
    assert DirOk(d, PathsOf(dirs), index, |index|, |index|);
    hide IsTreeOf, Less, GoodIndex, FilesValid, OpenFromRoot, FileNames, DirtyFiles;
    if h.Some? {
      var n := h.value;
      FilesByPath(d, index, disk, n, p);
      if opts.includeUntracked && disk.list(n).Some? {
        FilesAgree(d, index, disk, n, p);
        forall e | e in disk.list(n).value
          ensures e.name !in FileNames(d, index) && e.name !in d.subdirs <==> NotInIndex(d.path, index, e.name)
        {
          UnknownNames(dirs, index, k, e.name);
        }
      }
    }
  }

  lemma TreePaths(dirs: seq<Dir>, index: seq<Str>, dir: Str)
    requires IsTreeOf(dirs, index)
    ensures IndexDir(index, dir) <==> exists k :: 0 <= k < |dirs| && dirs[k].path == dir
  {
    var paths := PathsOf(dirs);
    assert dir in paths <==> Known(index, |index|, 0, dir);
    assert forall k :: 0 <= k < |dirs| ==> paths[k] == dirs[k].path;
    if dir != [] && dir[|dir| - 1] == 47 {
      assert forall j :: 0 <= j < |index| ==> (IsDirOf(dir, index[j]) <==> HasPrefix(index[j], dir));
    }
  }

  /** The directories of the tree report afresh exactly what the index's directories have dirty. */
  lemma TreeIsDirty(dirs: seq<Dir>, index: seq<Str>, disk: Disk, opts: ScanOpts, p: Str)
    requires GoodIndex(index) && IsTreeOf(dirs, index) && ValidDisk(disk, index)
    ensures (exists k :: 0 <= k < |dirs| && FilesValid(dirs[k], index) &&
                         Fresh(dirs[k], index, disk, opts, HandleOf(disk, dirs[k]), p)) <==>
            Dirty(index, disk, opts, p)
  {
    hide IsTreeOf, Fresh, DirtyIn, IndexDir, ValidDisk, GoodIndex, HandleOf, FilesValid;
    if k :| 0 <= k < |dirs| && FilesValid(dirs[k], index) && Fresh(dirs[k], index, disk, opts, HandleOf(disk, dirs[k]), p) {
      FreshIsDirtyIn(dirs, index, k, disk, opts, p);
      TreePaths(dirs, index, dirs[k].path);
    }
    if dir :| IndexDir(index, dir) && DirtyIn(dir, index, disk, opts, p) {
      TreePaths(dirs, index, dir);
      var k :| 0 <= k < |dirs| && dirs[k].path == dir;
      FreshIsDirtyIn(dirs, index, k, disk, opts, p);
    }
  }

  /* ---- the scan itself ---- */

  /** StatFiles. */
  method StatFiles(d: Dir, index: seq<Str>, disk: Disk, n: Node) returns (cands: seq<Str>)
    requires FilesValid(d, index)
    ensures forall p :: p in cands <==> StatReports(d, index, disk, n, p)
  {
    cands := [];
    for a := 0 to |d.files|
      invariant forall p :: p in cands <==>
        exists b :: 0 <= b < a && !disk.clean(n, d.files[b]) && p == d.path + EntryName(index[d.files[b]])
    {
      if !disk.clean(n, d.files[a]) {
        cands := cands + [d.path + EntryName(index[d.files[a]])];
      }
    }
  }

  /** The body of the loop in ScanDirs once the handle of the directory is known. */
  method ScanDir(sc: bool, d: Dir, index: seq<Str>, disk: Disk, opts: ScanOpts, state: DirState, h: Option<Node>)
    returns (cands: seq<Str>, next: DirState)
    requires FilesValid(d, index) && Sorted(FileNames(d, index)) && ValidDisk(disk, index)
    requires forall a, b :: 0 <= a < b < |d.files| ==> d.files[a] < d.files[b]
    requires GoodNames(d.subdirs)
    ensures forall p :: p in cands <==> Reported(sc, d, index, disk, opts, state, h, p)
    ensures next == NextState(sc, d, index, disk, opts, state, h)
  {
    hide Untracked, UnmatchedPaths, FileCandidate, StatReports, GoodNames, Sorted, FilesValid;
    next := state;
    if h == None {
      next, cands := DirState(NO_STAT, [d.path]), [d.path];
      return;
    }
    var n := h.value;
    if !opts.includeUntracked {
      cands := StatFiles(d, index, disk, n);
      return;
    }
    if opts.cache != False {
      if disk.stat(n) == None {
        next, cands := DirState(NO_STAT, [d.path]), [d.path];
        return;
      }
      var st := disk.stat(n).value;
      if opts.cache == True && st == next.st {
        cands := StatFiles(d, index, disk, n);
        cands := cands + next.unmatched;
        return;
      }
      next := next.(st := st);
    }
    if disk.list(n) == None {
      next, cands := DirState(NO_STAT, [d.path]), [d.path];
      return;
    }
    var entries := disk.list(n).value;
    StagesAreDirty(d, index, disk, n);
    var unmatched;
    cands, unmatched := MergeListing(sc, d.path, FileNames(d, index), DirtyFiles(d, disk, n), d.subdirs, entries);
    next := next.(unmatched := unmatched);
  }

  /** Directory k of the tree reports p. */
  ghost predicate DirReports(sc: bool, dirs: seq<Dir>, index: seq<Str>, disk: Disk, opts: ScanOpts, states: seq<DirState>,
                             k: nat, p: Str)
    requires k < |dirs| == |states|
  {
    && FilesValid(dirs[k], index)
    && Reported(sc, dirs[k], index, disk, opts, states[k], HandleOf(disk, dirs[k]), p)
  }

  ghost predicate DirRemembers(sc: bool, dirs: seq<Dir>, index: seq<Str>, disk: Disk, opts: ScanOpts, states: seq<DirState>,
                               k: nat, next: DirState)
    requires k < |dirs| == |states|
  {
    && FilesValid(dirs[k], index)
    && next == NextState(sc, dirs[k], index, disk, opts, states[k], HandleOf(disk, dirs[k]))
  }

  lemma TreeDirScans(dirs: seq<Dir>, index: seq<Str>, k: nat)
    requires GoodIndex(index) && IsTreeOf(dirs, index) && k < |dirs|
    ensures FilesValid(dirs[k], index) && Sorted(FileNames(dirs[k], index)) && GoodNames(dirs[k].subdirs)
    ensures forall a, b :: 0 <= a < b < |dirs[k].files| ==> dirs[k].files[a] < dirs[k].files[b]
    ensures IsDir(dirs[k].path) && dirs[k].depth == Depth(dirs[k].path)
    ensures dirs[k].path == [] <==> k == 0
    ensures k > 0 ==> |dirs[k].path| > 1 && dirs[k].path[0] != SLASH
    ensures k > 0 ==> EndsWithSlash(dirs[k].path) && dirs[k].basename == Basename(dirs[k].path) &&
                      IsDirOf(Parent(dirs[k].path), dirs[k - 1].path)
  {
    TreeDirIsGood(dirs, index, k);
    hide Shape, Known;
    assert DirOk(dirs[k], PathsOf(dirs), index, |index|, |index|);
    if k > 0 {
      DepthGrowsByAtMostOne(dirs, index, k);
      TreeDirStartsWithName(dirs, index, k);
    } else {
      RootIsFirst(dirs, index);
    }
  }

  lemma RootIsFirst(dirs: seq<Dir>, index: seq<Str>)
    requires IsTreeOf(dirs, index)
    ensures dirs != [] && dirs[0].path == []
  {
    assert PathsOf(dirs)[0] == [];
  }

  lemma TreeDirStartsWithName(dirs: seq<Dir>, index: seq<Str>, k: nat)
    requires GoodIndex(index) && IsTreeOf(dirs, index) && k < |dirs| && EndsWithSlash(dirs[k].path)
    ensures |dirs[k].path| > 1 && dirs[k].path[0] != SLASH
  {
    var c := dirs[k].path;
    var paths := PathsOf(dirs);
    assert paths[k] == c;
    assert c in paths && Known(index, |index|, 0, c);
    var j :| 0 <= j < |index| && IsDirOf(c, index[j]);
    assert c[0] == index[j][0] && c[|c| - 1] == index[j][|c| - 1];
  }

  /**
   ScanDirs over the slice lo..hi-1 of the directory list. Each directory is scanned through the node its full path
   denotes, its CHECKs hold, and the handles that were opened are closed again.
   */
  method ScanDirs(sc: bool, dirs: seq<Dir>, index: seq<Str>, lo: nat, hi: nat, disk: Disk, opts: ScanOpts,
                  states: seq<DirState>, hs: HandleStack, rootFd: int)
    returns (cands: seq<Str>, next: seq<DirState>)
    requires GoodIndex(index) && IsTreeOf(dirs, index) && lo <= hi <= |dirs| == |states| && ValidDisk(disk, index)
    requires hs.slots == [-1, -1, -1, -1, -1] && TableOk(hs.open, hs.slots, hs.open, hs.next)
    requires rootFd in hs.open && hs.open[rootFd] == disk.root
    modifies hs
    ensures forall p :: p in cands <==>
              exists k :: lo <= k < hi && DirReports(sc, dirs, index, disk, opts, states, k, p)
    ensures |next| == |states|
    ensures forall k :: 0 <= k < |next| ==>
              if lo <= k < hi then DirRemembers(sc, dirs, index, disk, opts, states, k, next[k]) else next[k] == states[k]
    ensures hs.open == old(hs.open) && hs.slots == old(hs.slots)
  {
    hide Reported, NextState, TableOk, SlotsOk, Depth, LastSlash, DirOf, IsTreeOf, GoodIndex, ValidDisk, OpenFromRoot,
         FilesValid, Parent, Basename, GoodNames, Sorted;
    ghost var base := hs.open;
    cands, next := [], states;
    if lo == hi { return; }
    DiskIsOpenable(disk, index);
    TreeDirScans(dirs, index, lo);
    hs.OpenTail(disk.fs, disk.root, rootFd, dirs[lo].path, base);
    ghost var prev: Str := if dirs[lo].path == [] then [] else Parent(dirs[lo].path);
    if dirs[lo].path == [] {
      EmptySlots(disk.fs, disk.root, [], hs.slots, hs.open);
      RootHasDepthZero();
    } else {
      ParentIsDirOfItself(dirs[lo].path);
    }
    var prevDepth := 0;
    if dirs[lo].path != [] { prevDepth := dirs[lo].depth - 1; }
    for k := lo to hi
      invariant |hs.slots| == STACK_SIZE && TableOk(base, hs.slots, hs.open, hs.next)
      invariant IsDir(prev) && SlotsOk(disk.fs, disk.root, prev, hs.slots, hs.open) && prevDepth == Depth(prev)
      invariant k > lo ==> prev == dirs[k - 1].path
      invariant k == lo ==> if dirs[k].path == [] then hs.slots[0] == -1 else prev == Parent(dirs[k].path) && IsDirOf(prev, prev)
      invariant |next| == |states|
      invariant forall j :: 0 <= j < |next| ==>
                  if lo <= j < k then DirRemembers(sc, dirs, index, disk, opts, states, j, next[j]) else next[j] == states[j]
      invariant forall p :: p in cands <==>
                  exists j :: lo <= j < k && DirReports(sc, dirs, index, disk, opts, states, j, p)
    {
      var dir := dirs[k];
      TreeDirScans(dirs, index, k);
      var ok := hs.Enter(disk.fs, disk.root, rootFd, prev, prevDepth, dir.path, dir.depth, k == lo, base);
      var h := if ok then Some(hs.open[hs.slots[0]]) else None;
      var more, state := ScanDir(sc, dir, index, disk, opts, states[k], h);
      assert h == HandleOf(disk, dir);
      assert DirRemembers(sc, dirs, index, disk, opts, states, k, state);
      ReportsGrow(sc, dirs, index, disk, opts, states, lo, k, cands, more);
      cands := cands + more;
      next := next[k := state];
      prev := dir.path;
      prevDepth := dir.depth;
    }
    hs.CloseRange(STACK_SIZE, base);
    AllClosed(base, hs.slots, hs.open, hs.next);
  }

  lemma RootHasDepthZero()
    ensures Depth([]) == 0
  {
  }

  lemma DiskIsOpenable(disk: Disk, index: seq<Str>)
    requires ValidDisk(disk, index)
    ensures DotIsSelf(disk.fs) && disk.fs.readable(disk.root)
  {
  }

  lemma ParentIsDirOfItself(d: Str)
    requires EndsWithSlash(d)
    ensures IsDirOf(Parent(d), Parent(d)) && Depth(Parent(d)) == Depth(d) - 1
  {
    DepthIsPositive(d);
    DepthOfParent(d);
  }

  lemma ReportsGrow(sc: bool, dirs: seq<Dir>, index: seq<Str>, disk: Disk, opts: ScanOpts, states: seq<DirState>,
                    lo: nat, k: nat, cands: seq<Str>, more: seq<Str>)
    requires lo <= k < |dirs| == |states|
    requires forall p :: p in cands <==>
               exists j :: lo <= j < k && DirReports(sc, dirs, index, disk, opts, states, j, p)
    requires forall p :: p in more <==> DirReports(sc, dirs, index, disk, opts, states, k, p)
    ensures forall p :: p in cands + more <==>
              exists j :: lo <= j < k + 1 && DirReports(sc, dirs, index, disk, opts, states, j, p)
  {
    hide DirReports;
    forall p ensures p in cands + more <==>
                     exists j :: lo <= j < k + 1 && DirReports(sc, dirs, index, disk, opts, states, j, p)
    {
      if p in cands {
        var j :| lo <= j < k && DirReports(sc, dirs, index, disk, opts, states, j, p);
        assert lo <= j < k + 1;
      }
    }
  }

  lemma AllClosed(base: map<int, Node>, slots: seq<int>, open: map<int, Node>, next: int)
    requires TableOk(base, slots, open, next) && |slots| == STACK_SIZE
    requires forall i :: 0 <= i < |slots| ==> slots[i] == -1
    ensures open == base && slots == [-1, -1, -1, -1, -1]
  {
    assert slots == [-1, -1, -1, -1, -1];
    assert forall fd :: fd in slots ==> fd == -1;
    assert forall fd :: fd in open <==> fd in base;
    assert forall fd :: fd in base ==> open[fd] == base[fd];
    assert open == base;
  }
}
