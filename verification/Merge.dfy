/**
 index.cc, the inside of ScanDirs: one pass over a directory's sorted listing, its sorted index files and its
 sorted subdirectories.

 Files are compared with entries by strcmp, subdirectories by StrCmp<1>(StringView, const char*), which subtracts
 plain chars; `sc` says whether plain char is signed.
 */
module Merge {
  import opened ByteStrings

  /** A directory entry as listed; isDir is `entry[-1] == DT_DIR`. */
  datatype Entry = Entry(name: Str, isDir: bool)

  const DOT_GIT: Str := [46, 103, 105, 116, SLASH]

  /** The name AddUnmached gets: directories carry a slash. */
  function Shown(e: Entry): Str { if e.isDir then e.name + [SLASH] else e.name }

  ghost predicate GoodName(x: Str) { x != [] && NoNul(x) && SLASH !in x }

  ghost predicate GoodNames(s: seq<Str>) { forall i :: 0 <= i < |s| ==> GoodName(s[i]) }

  /** What readdir and ListDir promise: distinct names, in strcmp order. */
  ghost predicate GoodListing(entries: seq<Entry>) {
    && (forall i :: 0 <= i < |entries| ==> GoodName(entries[i].name))
    && (forall i, j :: 0 <= i < j < |entries| ==> Less(entries[i].name, entries[j].name))
  }

  predicate Lists(entries: seq<Entry>, x: Str) {
    exists i :: 0 <= i < |entries| && entries[i].name == x
  }

  /* ---- the subdirectory cursor ---- */

  /** The first subdirectory at or after c that does not compare less than the entry. */
  function SkipSubdirs(sc: bool, subdirs: seq<Str>, c: nat, name: Str): (k: nat)
    requires c <= |subdirs|
    ensures c <= k <= |subdirs|
    ensures forall i :: c <= i < k ==> PlainCmp(sc, subdirs[i], name) < 0
    ensures k < |subdirs| ==> PlainCmp(sc, subdirs[k], name) >= 0
    decreases |subdirs| - c
  {
    if c == |subdirs| || PlainCmp(sc, subdirs[c], name) >= 0 then c
    else SkipSubdirs(sc, subdirs, c + 1, name)
  }

  predicate SubdirAt(sc: bool, subdirs: seq<Str>, k: nat, name: Str) {
    k < |subdirs| && PlainCmp(sc, subdirs[k], name) == 0
  }

  /** The entries that the pass finds in neither list, with the subdirectory cursor at c. */
  function Untracked(sc: bool, files: seq<Str>, subdirs: seq<Str>, c: nat, entries: seq<Entry>): seq<Entry>
    requires c <= |subdirs|
    decreases |entries|
  {
    if entries == [] then []
    else
      var e := entries[0];
      if e.name in files then Untracked(sc, files, subdirs, c, entries[1..])
      else
        var k := SkipSubdirs(sc, subdirs, c, e.name);
        if SubdirAt(sc, subdirs, k, e.name) then Untracked(sc, files, subdirs, k + 1, entries[1..])
        else [e] + Untracked(sc, files, subdirs, k, entries[1..])
  }

  /** The reference: the entries that are in neither list. */
  function NotTracked(files: seq<Str>, subdirs: seq<Str>, entries: seq<Entry>): seq<Entry> {
    if entries == [] then []
    else
      var rest := NotTracked(files, subdirs, entries[1..]);
      if entries[0].name in files || entries[0].name in subdirs then rest else [entries[0]] + rest
  }

  lemma {:induction false} NotTrackedMember(files: seq<Str>, subdirs: seq<Str>, entries: seq<Entry>, e: Entry)
    ensures e in NotTracked(files, subdirs, entries) <==>
            e in entries && e.name !in files && e.name !in subdirs
  {
    if entries != [] {
      assert entries == [entries[0]] + entries[1..];
      NotTrackedMember(files, subdirs, entries[1..], e);
    }
  }

  lemma PlainCmpZero(sc: bool, x: Str, y: Str)
    requires NoNul(x) && NoNul(y)
    ensures PlainCmp(sc, x, y) == 0 <==> x == y
  {
    if x != y { PlainCmpIsStrcmp(sc, x, y); } else { StopIsFirstDifference(x, y, |x|); }
  }

  /** A smaller entry never compares equal to or above an ASCII subdirectory. */
  lemma AsciiIsNotPassed(sc: bool, sub: Str, name: Str)
    requires NoNul(sub) && NoNul(name) && (!sc || Ascii(sub)) && Less(name, sub)
    ensures PlainCmp(sc, sub, name) > 0
  {
    LessAsymmetric(name, sub);
    var d := StopAt(sub, name);
    LessAt(name, sub, d);
  }

  lemma AsciiIsSkipped(sc: bool, a: Str, b: Str)
    requires NoNul(a) && NoNul(b) && (!sc || (Ascii(a) && Ascii(b))) && Less(a, b)
    ensures PlainCmp(sc, a, b) < 0
  {
    LessAsymmetric(a, b);
    PlainCmpIsStrcmp(sc, a, b);
  }

  ghost predicate AllAscii(s: seq<Str>) { forall i :: 0 <= i < |s| ==> Ascii(s[i]) }

  /** No subdirectory before the cursor is still to be listed. */
  ghost predicate CursorSafe(subdirs: seq<Str>, c: nat, entries: seq<Entry>)
    requires c <= |subdirs|
  {
    forall i, k :: 0 <= i < c && 0 <= k < |entries| ==> subdirs[i] != entries[k].name
  }

  lemma SkipFinds(sc: bool, subdirs: seq<Str>, c: nat, name: Str, j: nat)
    requires c <= j < |subdirs| && subdirs[j] == name
    requires StrictlySorted(subdirs) && GoodNames(subdirs) && (!sc || AllAscii(subdirs))
    ensures SkipSubdirs(sc, subdirs, c, name) == j && SubdirAt(sc, subdirs, j, name)
  {
    var k := SkipSubdirs(sc, subdirs, c, name);
    PlainCmpZero(sc, subdirs[j], name);
    if k < j {
      AsciiIsSkipped(sc, subdirs[k], subdirs[j]);
    }
  }

  lemma SkipMisses(sc: bool, subdirs: seq<Str>, c: nat, name: Str)
    requires c <= |subdirs| && name !in subdirs && GoodNames(subdirs) && GoodName(name)
    ensures !SubdirAt(sc, subdirs, SkipSubdirs(sc, subdirs, c, name), name)
  {
    var k := SkipSubdirs(sc, subdirs, c, name);
    if k < |subdirs| { PlainCmpZero(sc, subdirs[k], name); }
  }

  lemma TailIsGood(subdirs: seq<Str>, c: nat, entries: seq<Entry>)
    requires c <= |subdirs| && entries != [] && GoodListing(entries) && CursorSafe(subdirs, c, entries)
    ensures GoodListing(entries[1..]) && CursorSafe(subdirs, c, entries[1..])
  {
  }

  lemma CursorBefore(subdirs: seq<Str>, c: nat, entries: seq<Entry>, j: nat)
    requires c <= |subdirs| && entries != [] && CursorSafe(subdirs, c, entries)
    requires j < |subdirs| && subdirs[j] == entries[0].name
    ensures c <= j
  {
  }

  lemma MatchedIsSafe(subdirs: seq<Str>, j: nat, entries: seq<Entry>)
    requires j < |subdirs| && StrictlySorted(subdirs) && GoodListing(entries)
    requires entries != [] && subdirs[j] == entries[0].name
    ensures CursorSafe(subdirs, j + 1, entries[1..])
  {
    forall i, l | 0 <= i < j + 1 && 0 <= l < |entries| - 1 ensures subdirs[i] != entries[1..][l].name {
      LeqTransitive(subdirs[i], subdirs[j], entries[l + 1].name);
      LessAsymmetric(subdirs[i], entries[l + 1].name);
    }
  }

  lemma SkippedIsSafe(sc: bool, subdirs: seq<Str>, c: nat, entries: seq<Entry>)
    requires c <= |subdirs| && GoodListing(entries) && GoodNames(subdirs) && (!sc || AllAscii(subdirs))
    requires entries != [] && CursorSafe(subdirs, c, entries)
    ensures CursorSafe(subdirs, SkipSubdirs(sc, subdirs, c, entries[0].name), entries[1..])
  {
    var name := entries[0].name;
    var k := SkipSubdirs(sc, subdirs, c, name);
    forall i, l | 0 <= i < k && 0 <= l < |entries| - 1 ensures subdirs[i] != entries[1..][l].name {
      if i >= c && subdirs[i] == entries[l + 1].name { AsciiIsNotPassed(sc, subdirs[i], name); }
    }
  }

  lemma {:induction false} UntrackedFrom(sc: bool, files: seq<Str>, subdirs: seq<Str>, c: nat, entries: seq<Entry>)
    requires c <= |subdirs| && GoodListing(entries)
    requires StrictlySorted(subdirs) && GoodNames(subdirs) && (!sc || AllAscii(subdirs))
    requires CursorSafe(subdirs, c, entries)
    ensures Untracked(sc, files, subdirs, c, entries) == NotTracked(files, subdirs, entries)
    decreases |entries|
  {
    hide PlainCmp, Less, NoNul, StrictlySorted, GoodNames, AllAscii, GoodListing, GoodName, CursorSafe, SkipSubdirs, SubdirAt;
    if entries != [] {
      TailIsGood(subdirs, c, entries);
      EntryIsGood(entries, 0);
      var name := entries[0].name;
      var k := SkipSubdirs(sc, subdirs, c, name);
      if name in files {
        UntrackedFrom(sc, files, subdirs, c, entries[1..]);
      } else if name in subdirs {
        var j :| 0 <= j < |subdirs| && subdirs[j] == name;
        CursorBefore(subdirs, c, entries, j);
        SkipFinds(sc, subdirs, c, name, j);
        MatchedIsSafe(subdirs, j, entries);
        UntrackedFrom(sc, files, subdirs, k + 1, entries[1..]);
      } else {
        SkipMisses(sc, subdirs, c, name);
        SkippedIsSafe(sc, subdirs, c, entries);
        UntrackedFrom(sc, files, subdirs, k, entries[1..]);
      }
    }
  }

  /** With unsigned chars, or ASCII subdirectory names, the pass finds exactly the untracked entries. */
  lemma UntrackedIsExact(sc: bool, files: seq<Str>, subdirs: seq<Str>, entries: seq<Entry>)
    requires GoodListing(entries) && StrictlySorted(subdirs) && GoodNames(subdirs)
    requires !sc || AllAscii(subdirs)
    ensures Untracked(sc, files, subdirs, 0, entries) == NotTracked(files, subdirs, entries)
  {
    UntrackedFrom(sc, files, subdirs, 0, entries);
  }

  /* ---- signed chars: the ASCII condition is also necessary ---- */

  /** A string whose byte order is the signed-char order of s: bytes shifted by 128, terminator included. */
  ghost function SignedKey(s: Str): (k: Str)
    ensures |k| == |s| + 1 && k[|s|] == 128
    ensures forall i :: 0 <= i < |s| ==> k[i] == Shift(s[i])
  {
    seq(|s|, i requires 0 <= i < |s| => Shift(s[i])) + [128]
  }

  function Shift(b: Byte): Byte { if b < 128 then b + 128 else b - 128 }

  lemma SignedKeyPrefix(x: Str, y: Str, d: nat)
    requires d <= |x| && d <= |y| && x[..d] == y[..d]
    ensures SignedKey(x)[..d] == SignedKey(y)[..d]
  {
    forall i | 0 <= i < d ensures SignedKey(x)[i] == SignedKey(y)[i] {
      assert x[i] == x[..d][i] && y[i] == y[..d][i];
    }
  }

  lemma SignedOrder(x: Str, y: Str)
    requires NoNul(x) && NoNul(y)
    ensures PlainCmp(true, x, y) < 0 <==> Less(SignedKey(x), SignedKey(y))
    ensures PlainCmp(true, x, y) > 0 <==> Less(SignedKey(y), SignedKey(x))
  {
    var d := StopAt(x, y);
    var kx, ky := SignedKey(x), SignedKey(y);
    if x == y {
      PlainCmpZero(true, x, y);
      NotLess(kx, ky);
      NotLess(ky, kx);
    } else {
      assert x == x[..d] + x[d..] && y == y[..d] + y[d..];
      SignedKeyPrefix(x, y, d);
      hide Less, StopAt;
      LessAt(kx, ky, d);
      LessAt(ky, kx, d);
    }
  }

  function MaxLen(s: seq<Str>): (m: nat)
    ensures forall i :: 0 <= i < |s| ==> |s[i]| <= m
  {
    if s == [] then 0
    else
      var m := MaxLen(s[1..]);
      assert forall i :: 0 < i < |s| ==> s[i] == s[1..][i - 1];
      if |s[0]| > m then |s[0]| else m
  }

  /** An entry that sorts before the non-ASCII subdirectory but compares after it. */
  ghost function Intruder(subdirs: seq<Str>, j: nat, d: nat): (e: Str)
    requires j < |subdirs| && d < |subdirs[j]|
    ensures |e| > MaxLen(subdirs) && |e| > d && e[..d] == subdirs[j][..d] && e[d] == 1
    ensures GoodName(subdirs[j]) ==> GoodName(e)
  {
    subdirs[j][..d] + seq(MaxLen(subdirs) + 1, _ => 1)
  }

  /** A listing of that entry and the subdirectory makes the pass report the subdirectory as untracked. */
  lemma SignedCharsMisplace(subdirs: seq<Str>, j: nat, d: nat)
    requires StrictlySorted(subdirs) && GoodNames(subdirs)
    requires j < |subdirs| && d < |subdirs[j]| && subdirs[j][d] >= 128
    ensures var entries := [Entry(Intruder(subdirs, j, d), false), Entry(subdirs[j], true)];
            && GoodListing(entries)
            && Entry(subdirs[j], true) in Untracked(true, [], subdirs, 0, entries)
            && Entry(subdirs[j], true) !in NotTracked([], subdirs, entries)
  {
    var s, e := subdirs[j], Intruder(subdirs, j, d);
    var a, b := Entry(e, false), Entry(s, true);
    var entries := [a, b];
    LessAt(e, s, d);
    NotTrackedMember([], subdirs, entries, b);
    StopIsFirstDifference(s, e, d);
    assert PlainCmp(true, s, e) < 0;
    SkipMisses(true, subdirs, 0, e);
    var k := SkipSubdirs(true, subdirs, 0, e);
    assert Untracked(true, [], subdirs, 0, entries) == [a] + Untracked(true, [], subdirs, k, entries[1..]);
    assert entries[1..] == [b];
    var l := SkipSubdirs(true, subdirs, k, s);
    if SubdirAt(true, subdirs, l, s) {
      PlainCmpZero(true, subdirs[l], s);
      StrictlySortedIsDistinct(subdirs, l, j);
      BlockedBefore(subdirs, k, j, e);
    }
    assert Untracked(true, [], subdirs, k, [b]) == [b] + Untracked(true, [], subdirs, l, []);
  }

  lemma BlockedBefore(subdirs: seq<Str>, k: nat, j: nat, e: Str)
    requires k <= j < |subdirs| && GoodNames(subdirs) && NoNul(e) && e !in subdirs
    requires PlainCmp(true, subdirs[k], e) >= 0 && PlainCmp(true, subdirs[j], e) < 0
    ensures SkipSubdirs(true, subdirs, k, subdirs[j]) == k < j
  {
    PlainCmpZero(true, subdirs[k], e);
    SignedOrder(subdirs[k], e);
    SignedOrder(subdirs[j], e);
    LessTransitive(SignedKey(subdirs[j]), SignedKey(e), SignedKey(subdirs[k]));
    SignedOrder(subdirs[k], subdirs[j]);
  }

  /** On a signed platform the pass is right on every listing if and only if the subdirectory names are ASCII. */
  lemma SignedCharsNeedAscii(subdirs: seq<Str>)
    requires StrictlySorted(subdirs) && GoodNames(subdirs)
    ensures (forall files, entries :: GoodListing(entries) ==>
               Untracked(true, files, subdirs, 0, entries) == NotTracked(files, subdirs, entries))
            <==> AllAscii(subdirs)
  {
    if AllAscii(subdirs) {
      forall files, entries | GoodListing(entries)
        ensures Untracked(true, files, subdirs, 0, entries) == NotTracked(files, subdirs, entries)
      {
        UntrackedIsExact(true, files, subdirs, entries);
      }
    } else {
      var j :| 0 <= j < |subdirs| && !Ascii(subdirs[j]);
      var d :| 0 <= d < |subdirs[j]| && subdirs[j][d] >= 128;
      SignedCharsMisplace(subdirs, j, d);
    }
  }

  /* ---- candidates ---- */

  /** AddUnmached for a listed entry. */
  function UnmatchedPaths(dir: Str, entries: seq<Entry>): seq<Str> {
    if entries == [] then []
    else
      var rest := UnmatchedPaths(dir, entries[1..]);
      if Shown(entries[0]) == DOT_GIT then rest else [dir + Shown(entries[0])] + rest
  }

  lemma {:induction false} UnmatchedPathsMember(dir: Str, entries: seq<Entry>, p: Str)
    ensures p in UnmatchedPaths(dir, entries) <==>
            exists e :: e in entries && Shown(e) != DOT_GIT && p == dir + Shown(e)
  {
    if entries != [] {
      assert entries == [entries[0]] + entries[1..];
      UnmatchedPathsMember(dir, entries[1..], p);
      if p in UnmatchedPaths(dir, entries) && p !in UnmatchedPaths(dir, entries[1..]) {
        assert entries[0] in entries && p == dir + Shown(entries[0]);
      }
    }
  }

  lemma {:induction false} UnmatchedPathsAppend(dir: Str, a: seq<Entry>, b: seq<Entry>)
    ensures UnmatchedPaths(dir, a + b) == UnmatchedPaths(dir, a) + UnmatchedPaths(dir, b)
  {
    if a == [] {
      assert a + b == b;
    } else {
      assert (a + b)[1..] == a[1..] + b;
      UnmatchedPathsAppend(dir, a[1..], b);
    }
  }

  /** p is the path of one of the first n files that is absent, unreadable or modified. */
  ghost predicate FileCandidate(dir: Str, files: seq<Str>, dirty: seq<bool>, entries: seq<Entry>, n: nat, p: Str)
    requires n <= |files| == |dirty|
  {
    exists i :: 0 <= i < n && p == dir + files[i] && (dirty[i] || !Lists(entries, files[i]))
  }

  /** The path under which an untracked entry is reported: a directory ends in a slash, ".git/" is left out. */
  ghost predicate ShowsAs(dir: Str, e: Entry, p: Str) {
    if e.isDir then e.name != [46, 103, 105, 116] && p == dir + e.name + [47] else p == dir + e.name
  }

  lemma ShownInBytes(dir: Str, e: Entry, p: Str)
    requires SLASH !in e.name
    ensures Shown(e) != DOT_GIT && p == dir + Shown(e) <==> ShowsAs(dir, e, p)
  {
    assert DOT_GIT == [46, 103, 105, 116] + [47] && DOT_GIT[4] == SLASH;
    assert dir + (e.name + [47]) == dir + e.name + [47];
    assert (e.name + [47])[..|e.name|] == e.name && DOT_GIT[..4] == [46, 103, 105, 116];
  }

  /** The set definition: what is dirty in a directory, by membership only. */
  ghost predicate DirtyPath(dir: Str, files: seq<Str>, dirty: seq<bool>, subdirs: seq<Str>, entries: seq<Entry>, p: Str)
    requires |files| == |dirty|
  {
    || FileCandidate(dir, files, dirty, entries, |files|, p)
    || (exists e :: e in entries && e.name !in files && e.name !in subdirs && ShowsAs(dir, e, p))
  }

  /** Two entries with one path are conflict stages, which IsModified always reports. */
  ghost predicate StagesDirty(files: seq<Str>, dirty: seq<bool>)
    requires |files| == |dirty|
  {
    forall i, j :: 0 <= i < j < |files| && files[i] == files[j] ==> dirty[i] && dirty[j]
  }

  ghost predicate CandidatesSoFar(dir: Str, files: seq<Str>, dirty: seq<bool>, entries: seq<Entry>, f: nat,
                                  unmatched: seq<Str>, cands: seq<Str>)
    requires f <= |files| == |dirty|
  {
    forall p :: p in cands <==> p in unmatched || FileCandidate(dir, files, dirty, entries, f, p)
  }

  lemma AddFileCandidate(dir: Str, files: seq<Str>, dirty: seq<bool>, entries: seq<Entry>, f: nat,
                         unmatched: seq<Str>, cands: seq<Str>)
    requires f < |files| == |dirty|
    requires CandidatesSoFar(dir, files, dirty, entries, f, unmatched, cands)
    ensures dirty[f] || !Lists(entries, files[f]) ==>
              CandidatesSoFar(dir, files, dirty, entries, f + 1, unmatched, cands + [dir + files[f]])
    ensures !(dirty[f] || !Lists(entries, files[f])) ==>
              CandidatesSoFar(dir, files, dirty, entries, f + 1, unmatched, cands)
  {
    forall p ensures FileCandidate(dir, files, dirty, entries, f + 1, p) <==>
                     FileCandidate(dir, files, dirty, entries, f, p) ||
                     (p == dir + files[f] && (dirty[f] || !Lists(entries, files[f])))
    {
    }
  }

  lemma AddUnmatchedCandidate(dir: Str, files: seq<Str>, dirty: seq<bool>, entries: seq<Entry>, f: nat,
                              unmatched: seq<Str>, cands: seq<Str>, q: Str)
    requires f <= |files| == |dirty|
    requires CandidatesSoFar(dir, files, dirty, entries, f, unmatched, cands)
    ensures CandidatesSoFar(dir, files, dirty, entries, f, unmatched + [q], cands + [q])
  {
  }

  /** Files before the cursor are less than the next entry; files after it are greater than the last one,
      or further stages of the file just before the cursor. */
  ghost predicate FileCursor(files: seq<Str>, f: nat, entries: seq<Entry>, k: nat)
    requires f <= |files| && k <= |entries|
  {
    && (k < |entries| ==> forall i :: 0 <= i < f ==> Less(files[i], entries[k].name))
    && (k > 0 ==> forall i :: f <= i < |files| ==>
          Less(entries[k - 1].name, files[i]) || (f > 0 && files[f - 1] == files[i]))
  }

  /** A file between the last entry and the next one is absent, or one of several conflict stages. */
  lemma SkippedFileIsDirty(files: seq<Str>, dirty: seq<bool>, entries: seq<Entry>, f: nat, k: nat)
    requires |dirty| == |files| && StagesDirty(files, dirty) && GoodListing(entries)
    requires f < |files| && k <= |entries| && FileCursor(files, f, entries, k)
    requires k < |entries| ==> Less(files[f], entries[k].name)
    ensures dirty[f] || !Lists(entries, files[f])
  {
    if Lists(entries, files[f]) {
      var l :| 0 <= l < |entries| && entries[l].name == files[f];
      if k <= l {
        LeqTransitive(files[f], entries[k].name, entries[l].name);
        LessAsymmetric(files[f], entries[l].name);
      } else if !(f > 0 && files[f - 1] == files[f]) {
        LeqTransitive(entries[l].name, entries[k - 1].name, files[f]);
        LessAsymmetric(entries[l].name, files[f]);
      }
    }
  }

  lemma SkipFile(files: seq<Str>, f: nat, entries: seq<Entry>, k: nat)
    requires Sorted(files) && f < |files| && k < |entries| && FileCursor(files, f, entries, k)
    requires Less(files[f], entries[k].name)
    ensures FileCursor(files, f + 1, entries, k)
  {
    forall i | f + 1 <= i < |files| && k > 0
      ensures Less(entries[k - 1].name, files[i]) || files[f] == files[i]
    {
      if f > 0 && files[f - 1] == files[i] && files[f] != files[i] {
        LeqTransitive(files[f - 1], files[f], files[i]);
        LessAsymmetric(files[f], files[i]);
      }
    }
  }

  lemma PassEntry(files: seq<Str>, f: nat, entries: seq<Entry>, k: nat, matched: bool)
    requires Sorted(files) && f <= |files| && k < |entries| && GoodListing(entries)
    requires matched ==> f > 0 && files[f - 1] == entries[k].name
    requires forall i :: 0 <= i < f - (if matched then 1 else 0) ==> Less(files[i], entries[k].name)
    requires !matched && f < |files| ==> Less(entries[k].name, files[f])
    ensures FileCursor(files, f, entries, k + 1)
  {
    if k + 1 < |entries| {
      forall i | 0 <= i < f ensures Less(files[i], entries[k + 1].name) {
        LeqTransitive(files[i], entries[k].name, entries[k + 1].name);
      }
    }
    forall i | f <= i < |files|
      ensures Less(entries[k].name, files[i]) || (f > 0 && files[f - 1] == files[i])
    {
      if !matched { LeqTransitive(entries[k].name, files[f], files[i]); }
    }
  }

  lemma MatchedIffFile(files: seq<Str>, f: nat, name: Str, matched: bool)
    requires Sorted(files) && f <= |files|
    requires matched ==> f > 0 && files[f - 1] == name
    requires !matched ==> forall i :: 0 <= i < f ==> Less(files[i], name)
    requires !matched && f < |files| ==> Less(name, files[f])
    ensures matched <==> name in files
  {
    if !matched && name in files {
      var i :| 0 <= i < |files| && files[i] == name;
      if i < f { LessAsymmetric(files[i], name); }
      else { LeqTransitive(name, files[f], files[i]); LessAsymmetric(name, files[i]); }
    }
  }

  /** The file loop for one entry. */
  method MatchFile(dir: Str, files: seq<Str>, dirty: seq<bool>, entries: seq<Entry>, k: nat, f0: nat,
                   cands0: seq<Str>, ghost unmatched: seq<Str>)
    returns (f: nat, matched: bool, cands: seq<Str>)
    requires Sorted(files) && |dirty| == |files| && StagesDirty(files, dirty) && GoodListing(entries)
    requires k < |entries| && f0 <= |files| && FileCursor(files, f0, entries, k)
    requires CandidatesSoFar(dir, files, dirty, entries, f0, unmatched, cands0)
    ensures f0 <= f <= |files| && FileCursor(files, f, entries, k + 1)
    ensures CandidatesSoFar(dir, files, dirty, entries, f, unmatched, cands)
    ensures matched <==> entries[k].name in files
  {
    hide CandidatesSoFar, StagesDirty, GoodListing, Less, Sorted, Lists;
    f, matched, cands := f0, false, cands0;
    while f != |files|
      invariant f0 <= f <= |files| && FileCursor(files, f, entries, k)
      invariant CandidatesSoFar(dir, files, dirty, entries, f, unmatched, cands)
      decreases |files| - f
    {
      AddFileCandidate(dir, files, dirty, entries, f, unmatched, cands);
      if Less(files[f], entries[k].name) {
        SkippedFileIsDirty(files, dirty, entries, f, k);
        SkipFile(files, f, entries, k);
        cands := cands + [dir + files[f]];
      } else if files[f] == entries[k].name {
        ListedAt(entries, k);
        if dirty[f] { cands := cands + [dir + files[f]]; }
        f, matched := f + 1, true;
        break;
      } else {
        NotLess(files[f], entries[k].name);
        break;
      }
      f := f + 1;
    }
    PassEntry(files, f, entries, k, matched);
    MatchedIffFile(files, f, entries[k].name, matched);
  }

  lemma ListedAt(entries: seq<Entry>, k: nat)
    requires k < |entries|
    ensures Lists(entries, entries[k].name)
  {
  }

  /** The subdirectory loop for one entry. */
  method MatchSubdir(sc: bool, subdirs: seq<Str>, c0: nat, name: Str) returns (c: nat, matched: bool)
    requires c0 <= |subdirs| && GoodNames(subdirs) && GoodName(name)
    ensures var k := SkipSubdirs(sc, subdirs, c0, name);
            && matched == SubdirAt(sc, subdirs, k, name)
            && c == if matched then k + 1 else k
    ensures c <= |subdirs|
  {
    c, matched := c0, false;
    while c != |subdirs|
      invariant c0 <= c <= |subdirs| && !matched
      invariant SkipSubdirs(sc, subdirs, c, name) == SkipSubdirs(sc, subdirs, c0, name)
      decreases |subdirs| - c
    {
      var cmp := CmpViewCStr(sc, subdirs[c], name);
      if cmp > 0 { break; }
      if cmp == 0 {
        c, matched := c + 1, true;
        break;
      }
      c := c + 1;
    }
  }

  /** What has been found and what is still to be found. */
  ghost function Whole(found: seq<Entry>, more: seq<Entry>): seq<Entry> { found + more }

  lemma NothingFound(more: seq<Entry>)
    ensures Whole([], more) == more
  {
  }

  lemma UntrackedStep(sc: bool, files: seq<Str>, subdirs: seq<Str>, c: nat, entries: seq<Entry>, k: nat, found: seq<Entry>)
    requires c <= |subdirs| && k < |entries|
    ensures var e, rest := entries[k], entries[k + 1..];
            var d := SkipSubdirs(sc, subdirs, c, e.name);
            Whole(found, Untracked(sc, files, subdirs, c, entries[k..])) ==
            if e.name in files then Whole(found, Untracked(sc, files, subdirs, c, rest))
            else if SubdirAt(sc, subdirs, d, e.name) then Whole(found, Untracked(sc, files, subdirs, d + 1, rest))
            else Whole(found + [e], Untracked(sc, files, subdirs, d, rest))
  {
    hide SkipSubdirs, SubdirAt;
    assert entries[k..][0] == entries[k] && entries[k..][1..] == entries[k + 1..];
    var d := SkipSubdirs(sc, subdirs, c, entries[k].name);
    var more := Untracked(sc, files, subdirs, d, entries[k + 1..]);
    assert found + ([entries[k]] + more) == (found + [entries[k]]) + more;
  }

  lemma NothingLeft(sc: bool, dir: Str, files: seq<Str>, subdirs: seq<Str>, c: nat, entries: seq<Entry>, found: seq<Entry>)
    requires c <= |subdirs|
    ensures Whole(found, Untracked(sc, files, subdirs, c, entries[|entries|..])) == found
    ensures UnmatchedPaths(dir, []) == []
  {
  }

  lemma UnmatchedPathsSnoc(dir: Str, found: seq<Entry>, e: Entry)
    ensures UnmatchedPaths(dir, found + [e]) ==
            if Shown(e) == DOT_GIT then UnmatchedPaths(dir, found) else UnmatchedPaths(dir, found) + [dir + Shown(e)]
  {
    UnmatchedPathsAppend(dir, found, [e]);
    assert UnmatchedPaths(dir, [e]) == if Shown(e) == DOT_GIT then [] else [dir + Shown(e)];
    assert UnmatchedPaths(dir, found) + [] == UnmatchedPaths(dir, found);
  }

  /** An entry in neither list, unless it is the .git directory. */
  method AddUnmatched(dir: Str, ghost files: seq<Str>, ghost dirty: seq<bool>, entries: seq<Entry>, k: nat, ghost f: nat,
                      cands0: seq<Str>, unmatched0: seq<Str>, ghost found: seq<Entry>)
    returns (cands: seq<Str>, unmatched: seq<Str>)
    requires |dirty| == |files| && f <= |files| && k < |entries| && unmatched0 == UnmatchedPaths(dir, found)
    requires CandidatesSoFar(dir, files, dirty, entries, f, unmatched0, cands0)
    ensures CandidatesSoFar(dir, files, dirty, entries, f, unmatched, cands)
    ensures unmatched == UnmatchedPaths(dir, found + [entries[k]])
  {
    hide *;
    var basename := Shown(entries[k]);
    UnmatchedPathsSnoc(dir, found, entries[k]);
    if basename == DOT_GIT { return cands0, unmatched0; }
    AddUnmatchedCandidate(dir, files, dirty, entries, f, unmatched0, cands0, dir + basename);
    unmatched := unmatched0 + [dir + basename];
    cands := cands0 + [dir + basename];
  }

  /** The merge loop of ScanDirs. `dirty[i]` is "fstatat of file i fails, or IsModified". */
  method MergeListing(sc: bool, dir: Str, files: seq<Str>, dirty: seq<bool>, subdirs: seq<Str>, entries: seq<Entry>)
    returns (cands: seq<Str>, unmatched: seq<Str>)
    requires Sorted(files) && |dirty| == |files| && StagesDirty(files, dirty)
    requires GoodNames(subdirs) && GoodListing(entries)
    ensures unmatched == UnmatchedPaths(dir, Untracked(sc, files, subdirs, 0, entries))
    ensures forall p :: p in cands <==> p in unmatched || FileCandidate(dir, files, dirty, entries, |files|, p)
    ensures StrictlySorted(subdirs) && (!sc || AllAscii(subdirs)) ==>
              forall p :: p in cands <==> DirtyPath(dir, files, dirty, subdirs, entries, p)
  {
    hide *;
    cands, unmatched := [], [];
    var f: nat, c: nat := 0, 0;
    ghost var found: seq<Entry> := [];
    ghost var goal := Untracked(sc, files, subdirs, 0, entries);
    NothingYet(dir, files, dirty, entries);
    NothingLeft(sc, dir, files, subdirs, 0, entries, found);
    NothingFound(goal);
    assert entries[0..] == entries;
    for k := 0 to |entries|
      invariant f <= |files| && c <= |subdirs| && FileCursor(files, f, entries, k)
      invariant CandidatesSoFar(dir, files, dirty, entries, f, unmatched, cands)
      invariant unmatched == UnmatchedPaths(dir, found)
      invariant goal == Whole(found, Untracked(sc, files, subdirs, c, entries[k..]))
    {
      var matched;
      UntrackedStep(sc, files, subdirs, c, entries, k, found);
      f, matched, cands := MatchFile(dir, files, dirty, entries, k, f, cands, unmatched);
      if matched { continue; }
      EntryIsGood(entries, k);
      c, matched := MatchSubdir(sc, subdirs, c, entries[k].name);
      if !matched {
        cands, unmatched := AddUnmatched(dir, files, dirty, entries, k, f, cands, unmatched, found);
        found := found + [entries[k]];
      }
    }
    cands := AddRest(dir, files, dirty, entries, f, cands, unmatched);
    NothingLeft(sc, dir, files, subdirs, c, entries, found);
    EveryFileSeen(dir, files, dirty, entries, unmatched, cands);
    if StrictlySorted(subdirs) && (!sc || AllAscii(subdirs)) {
      forall p ensures p in cands <==> DirtyPath(dir, files, dirty, subdirs, entries, p) {
        MergeIsSetDefinition(sc, dir, files, dirty, subdirs, entries, p);
      }
    }
  }

  /** The files after the last entry. */
  method AddRest(dir: Str, files: seq<Str>, dirty: seq<bool>, entries: seq<Entry>, f0: nat, cands0: seq<Str>,
                 ghost unmatched: seq<Str>)
    returns (cands: seq<Str>)
    requires Sorted(files) && |dirty| == |files| && StagesDirty(files, dirty) && GoodListing(entries) && f0 <= |files|
    requires FileCursor(files, f0, entries, |entries|)
    requires CandidatesSoFar(dir, files, dirty, entries, f0, unmatched, cands0)
    ensures CandidatesSoFar(dir, files, dirty, entries, |files|, unmatched, cands)
  {
    hide CandidatesSoFar, StagesDirty, GoodListing, Less, Sorted, Lists, FileCursor;
    cands := cands0;
    var f := f0;
    while f != |files|
      invariant f <= |files|
      invariant CandidatesSoFar(dir, files, dirty, entries, f, unmatched, cands)
      invariant FileCursor(files, f, entries, |entries|)
      decreases |files| - f
    {
      AddFileCandidate(dir, files, dirty, entries, f, unmatched, cands);
      SkippedFileIsDirty(files, dirty, entries, f, |entries|);
      SkipLastFile(files, f, entries);
      cands := cands + [dir + files[f]];
      f := f + 1;
    }
  }

  lemma SkipLastFile(files: seq<Str>, f: nat, entries: seq<Entry>)
    requires Sorted(files) && f < |files| && FileCursor(files, f, entries, |entries|)
    ensures FileCursor(files, f + 1, entries, |entries|)
  {
    if |entries| > 0 {
      forall i | f + 1 <= i < |files|
        ensures Less(entries[|entries| - 1].name, files[i]) || files[f] == files[i]
      {
        if f > 0 && files[f - 1] == files[i] && files[f] != files[i] {
          LeqTransitive(files[f - 1], files[f], files[i]);
          LessAsymmetric(files[f], files[i]);
        }
      }
    }
  }

  lemma EveryFileSeen(dir: Str, files: seq<Str>, dirty: seq<bool>, entries: seq<Entry>, unmatched: seq<Str>, cands: seq<Str>)
    requires |files| == |dirty| && CandidatesSoFar(dir, files, dirty, entries, |files|, unmatched, cands)
    ensures forall p :: p in cands <==> p in unmatched || FileCandidate(dir, files, dirty, entries, |files|, p)
  {
  }

  lemma NothingYet(dir: Str, files: seq<Str>, dirty: seq<bool>, entries: seq<Entry>)
    requires |files| == |dirty|
    ensures CandidatesSoFar(dir, files, dirty, entries, 0, [], []) && FileCursor(files, 0, entries, 0)
  {
  }

  lemma EntryIsGood(entries: seq<Entry>, k: nat)
    requires GoodListing(entries) && k < |entries|
    ensures GoodName(entries[k].name)
  {
  }

  /** The single-pass merge equals its set definition. */
  lemma MergeIsSetDefinition(sc: bool, dir: Str, files: seq<Str>, dirty: seq<bool>, subdirs: seq<Str>, entries: seq<Entry>,
                             p: Str)
    requires |dirty| == |files| && GoodListing(entries) && StrictlySorted(subdirs) && GoodNames(subdirs)
    requires !sc || AllAscii(subdirs)
    ensures p in UnmatchedPaths(dir, Untracked(sc, files, subdirs, 0, entries)) ||
            FileCandidate(dir, files, dirty, entries, |files|, p)
            <==> DirtyPath(dir, files, dirty, subdirs, entries, p)
  {
    UntrackedIsExact(sc, files, subdirs, entries);
    var u := NotTracked(files, subdirs, entries);
    UnmatchedPathsMember(dir, u, p);
    forall e ensures e in u <==> e in entries && e.name !in files && e.name !in subdirs {
      NotTrackedMember(files, subdirs, entries, e);
    }
    forall e | e in u ensures Shown(e) != DOT_GIT && p == dir + Shown(e) <==> ShowsAs(dir, e, p) {
      ShownInBytes(dir, e, p);
    }
  }

  /** What becomes of an entry in neither list, byte by byte. */
  lemma UntrackedEntry(sc: bool, dir: Str, files: seq<Str>, dirty: seq<bool>, subdirs: seq<Str>, entries: seq<Entry>,
                       cands: seq<Str>, e: Entry)
    requires |dirty| == |files| && GoodListing(entries) && (forall i :: 0 <= i < |files| ==> 47 !in files[i])
    requires forall p :: p in cands <==> DirtyPath(dir, files, dirty, subdirs, entries, p)
    requires e in entries && e.name !in files && e.name !in subdirs
    ensures e.isDir && e.name != [46, 103, 105, 116] ==> dir + e.name + [47] in cands
    ensures !e.isDir ==> dir + e.name in cands
    ensures dir + [46, 103, 105, 116] + [47] !in cands
  {
    assert ShowsAs(dir, e, dir + e.name + [47]) <==> e.isDir && e.name != [46, 103, 105, 116];
    assert ShowsAs(dir, e, dir + e.name) <==> !e.isDir;
    var git := dir + [46, 103, 105, 116] + [47];
    assert git[|git| - 1] == 47;
    forall f | f in entries ensures !ShowsAs(dir, f, git) {
      assert 47 !in f.name;
      assert (dir + f.name + [47])[|dir|..] == f.name + [47] && git[|dir|..] == [46, 103, 105, 116] + [47];
      assert (f.name + [47])[..|f.name|] == f.name;
      assert (dir + f.name)[|dir|..] == f.name && git[|dir|..][4] == 47;
    }
    forall i | 0 <= i < |files| ensures git != dir + files[i] {
      assert (dir + files[i])[|dir|..] == files[i] && git[|dir|..][4] == 47;
    }
  }
}
