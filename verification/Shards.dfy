/**
 repo.cc: cutting the space of all path strings into shards, and batching sorted paths over them.
 */
module Shards {
  import opened ByteStrings
  import opened Paths

  const ENTRIES_PER_SHARD: nat := 512

  datatype Shard = Shard(startS: Str, endS: Str, startI: nat, endI: nat) {
    /** Repo::Shard::Contains. */
    predicate Contains(cs: bool, path: Str) {
      if StrLt(cs, path, startS) then false
      else if endS == [] then true
      else !StrLt(cs, endS, path[..Min(|path|, |endS|)])
    }
  }

  /** `--s.back()` on a string that ends with a slash. */
  function BeforeSlash(s: Str): Str
    requires EndsWithSlash(s)
  {
    s[..|s| - 1] + [SLASH - 1]
  }

  /** Two neighbours meet: every CHECK that UpdateShards makes about a pair of shards. */
  ghost predicate Meet(cs: bool, a: Shard, b: Shard, index: seq<Str>) {
    && EndsWithSlash(b.startS)
    && a.endS == BeforeSlash(b.startS)
    && StrLt(cs, a.endS, b.startS)
    && StrLt(cs, a.startS, a.endS)
    && a.startI < a.endI == b.startI < |index|
    && HasPrefix(index[b.startI], b.startS)
  }

  ghost predicate ValidShards(cs: bool, shards: seq<Shard>, index: seq<Str>) {
    && shards != []
    && shards[0].startS == [] && shards[0].startI == 0
    && shards[|shards| - 1].endS == [] && shards[|shards| - 1].endI == |index|
    && shards[|shards| - 1].startI <= |index|
    && forall i :: 0 <= i < |shards| - 1 ==> Meet(cs, shards[i], shards[i + 1], index)
  }

  /** The last of the first n shards that does not start after the path. */
  ghost function LastStart(cs: bool, shards: seq<Shard>, path: Str, n: nat): (i: nat)
    requires 0 < n <= |shards|
    ensures i < n
  {
    if n == 1 || !StrLt(cs, path, shards[n - 1].startS) then n - 1
    else LastStart(cs, shards, path, n - 1)
  }

  ghost function ShardOf(cs: bool, shards: seq<Shard>, path: Str): (i: nat)
    requires shards != []
    ensures i < |shards|
  {
    LastStart(cs, shards, path, |shards|)
  }

  /* ---- the decremented slash ---- */

  lemma KeyOfPrefix(cs: bool, s: Str, n: nat)
    requires n <= |s|
    ensures Key(cs, s[..n]) == Key(cs, s)[..n]
  {
  }

  lemma KeyOfBeforeSlash(cs: bool, s: Str)
    requires EndsWithSlash(s)
    ensures EndsWithSlash(Key(cs, s)) && Key(cs, BeforeSlash(s)) == BeforeSlash(Key(cs, s))
  {
  }

  /** Truncating a string and comparing it with "dir." is comparing the whole string with "dir/". */
  lemma {:induction false} DecrementedSlash(p: Str, s: Str)
    requires EndsWithSlash(s)
    ensures Less(p, s) <==> !Less(BeforeSlash(s), p[..Min(|p|, |s|)])
  {
    var q := p[..Min(|p|, |s|)];
    if |s| > 1 && p != [] && p[0] == s[0] {
      assert BeforeSlash(s)[1..] == BeforeSlash(s[1..]);
      assert q[1..] == p[1..][..Min(|p[1..]|, |s[1..]|)];
      DecrementedSlash(p[1..], s[1..]);
    }
  }

  /** Contains is the half-open interval from this shard's start to the next one's. */
  lemma ContainsIsInterval(cs: bool, shards: seq<Shard>, index: seq<Str>, i: nat, path: Str)
    requires ValidShards(cs, shards, index) && i < |shards|
    ensures shards[i].Contains(cs, path) <==>
            !StrLt(cs, path, shards[i].startS) && (i + 1 < |shards| ==> StrLt(cs, path, shards[i + 1].startS))
  {
    if i + 1 < |shards| {
      assert Meet(cs, shards[i], shards[i + 1], index);
      var s := shards[i + 1].startS;
      KeyOfBeforeSlash(cs, s);
      KeyOfPrefix(cs, path, Min(|path|, |s|));
      DecrementedSlash(Key(cs, path), Key(cs, s));
    }
  }

  lemma {:induction false} StartsIncrease(cs: bool, shards: seq<Shard>, index: seq<Str>, i: nat, j: nat)
    requires ValidShards(cs, shards, index) && i < j < |shards|
    ensures StrLt(cs, shards[i].startS, shards[j].startS)
  {
    assert Meet(cs, shards[j - 1], shards[j], index);
    var a, b, c := Key(cs, shards[j - 1].startS), Key(cs, shards[j - 1].endS), Key(cs, shards[j].startS);
    LessTransitive(a, b, c);
    if i < j - 1 {
      StartsIncrease(cs, shards, index, i, j - 1);
      LessTransitive(Key(cs, shards[i].startS), a, c);
    }
  }

  lemma {:induction false} LastStartBounds(cs: bool, shards: seq<Shard>, path: Str, n: nat)
    requires 0 < n <= |shards| && shards[0].startS == []
    ensures var k := LastStart(cs, shards, path, n);
            !StrLt(cs, path, shards[k].startS) && forall j :: k < j < n ==> StrLt(cs, path, shards[j].startS)
  {
    if n > 1 && StrLt(cs, path, shards[n - 1].startS) {
      LastStartBounds(cs, shards, path, n - 1);
    }
  }

  /** Every string whatsoever lies in exactly one shard. */
  lemma ShardsPartitionAllStrings(cs: bool, shards: seq<Shard>, index: seq<Str>, i: nat, path: Str)
    requires ValidShards(cs, shards, index) && i < |shards|
    ensures shards[i].Contains(cs, path) <==> i == ShardOf(cs, shards, path)
  {
    var k := ShardOf(cs, shards, path);
    ContainsIsInterval(cs, shards, index, i, path);
    LastStartBounds(cs, shards, path, |shards|);
    if i < k {
      StartBetween(cs, shards, index, i + 1, k, path);
    }
  }

  lemma StartBetween(cs: bool, shards: seq<Shard>, index: seq<Str>, i: nat, k: nat, path: Str)
    requires ValidShards(cs, shards, index) && i <= k < |shards|
    requires !StrLt(cs, path, shards[k].startS)
    ensures !StrLt(cs, path, shards[i].startS)
  {
    if i < k {
      StartsIncrease(cs, shards, index, i, k);
      if StrLt(cs, path, shards[i].startS) {
        LessTransitive(Key(cs, path), Key(cs, shards[i].startS), Key(cs, shards[k].startS));
      }
    }
  }

  /** A later path never belongs to an earlier shard. */
  lemma ShardOfIsMonotone(cs: bool, shards: seq<Shard>, index: seq<Str>, p: Str, q: Str)
    requires ValidShards(cs, shards, index) && !StrLt(cs, q, p)
    ensures ShardOf(cs, shards, p) <= ShardOf(cs, shards, q)
  {
    var i, j := ShardOf(cs, shards, p), ShardOf(cs, shards, q);
    LastStartBounds(cs, shards, p, |shards|);
    LastStartBounds(cs, shards, q, |shards|);
    if j < i {
      NotLess(Key(cs, p), Key(cs, shards[i].startS));
      NotLess(Key(cs, q), Key(cs, p));
      LeqTransitive(Key(cs, shards[i].startS), Key(cs, p), Key(cs, q));
      NotLess(Key(cs, q), Key(cs, shards[i].startS));
    }
  }

  lemma IndexStep(i: nat, n: nat, s: nat)
    requires 0 < s <= n
    ensures i * n / s < (i + 1) * n / s
    ensures i + 1 < s ==> (i + 1) * n / s < n
  {
    var a := i * n;
    assert (i + 1) * n == a + n;
    var q := a / s;
    assert a == q * s + a % s;
    assert (q + 1) * s <= a + n;
    QuotientAtLeast(a + n, s, q + 1);
    if i + 1 < s {
      assert (i + 1) * n < s * n by { MulStrict(i + 1, s, n); }
      QuotientBelow((i + 1) * n, s, n);
    }
  }

  lemma QuotientAtLeast(x: nat, s: nat, q: nat)
    requires s > 0 && q * s <= x
    ensures q <= x / s
  {
    assert x < (x / s + 1) * s;
    if x / s < q {
      MulMonotone(x / s + 1, q, s);
    }
  }

  lemma QuotientBelow(x: nat, s: nat, q: nat)
    requires s > 0 && x < q * s
    ensures x / s < q
  {
    assert (x / s) * s <= x;
    if q <= x / s {
      MulMonotone(q, x / s, s);
    }
  }

  lemma MulMonotone(a: nat, b: nat, s: nat)
    requires a <= b
    ensures a * s <= b * s
  {
  }

  lemma MulStrict(a: nat, b: nat, s: nat)
    requires a < b && 0 < s
    ensures a * s < b * s
  {
  }

  /** The split points i * n / count. */
  function SplitIndices(n: nat, count: nat): seq<nat>
    requires 0 < count
  {
    seq(count, i requires 0 <= i => i * n / count)
  }

  ghost predicate Increasing(r: seq<nat>, n: nat) {
    && (forall i, j :: 0 <= i < j < |r| && j == i + 1 ==> r[i] < r[j])
    && (forall i :: 0 <= i < |r| ==> r[i] < n)
  }

  /** Point i is the i-th of |cuts| equal parts of n, rounded down. */
  ghost predicate EqualParts(cuts: seq<nat>, n: nat) {
    forall i :: 0 <= i < |cuts| ==> EqualPart(cuts[i], i, |cuts|, n)
  }

  ghost predicate EqualPart(r: nat, i: nat, count: nat, n: nat) { r * count <= i * n < (r + 1) * count }

  lemma SplitIndicesAreEqualParts(n: nat, count: nat)
    requires 0 < count
    ensures |SplitIndices(n, count)| == count && EqualParts(SplitIndices(n, count), n)
  {
    forall i | 0 <= i < count ensures EqualPart(SplitIndices(n, count)[i], i, count, n) {
      var r := i * n / count;
      assert i * n == r * count + (i * n) % count;
      assert (r + 1) * count == r * count + count;
    }
  }

  lemma SplitStep(n: nat, count: nat, i: nat)
    requires i + 1 < count <= n
    ensures SplitIndices(n, count)[i] < SplitIndices(n, count)[i + 1] < n
  {
    IndexStep(i, n, count);
  }

  /** They are distinct indices when there are at least `count` entries. */
  lemma SplitIndicesIncrease(n: nat, count: nat, r: seq<nat>)
    requires 0 < count <= n && r == SplitIndices(n, count)
    ensures r[0] == 0 && Increasing(r, n)
  {
    forall i, j | 0 <= i < j < |r| && j == i + 1 ensures r[i] < r[j] {
      SplitStep(n, count, i);
    }
    forall i | 0 <= i < |r| ensures r[i] < n {
      if i > 0 { SplitStep(n, count, i - 1); }
    }
  }

  /** A split directory starts a shard unless it does not come after the start of one. */
  ghost predicate Represented(cs: bool, shards: seq<Shard>, dir: Str) {
    EndsWithSlash(dir) ==>
      exists k :: 0 <= k < |shards| &&
        (shards[k].startS == dir || !StrLt(cs, shards[k].startS, BeforeSlash(dir)))
  }

  /** The directories at the split points 1..i are all represented. */
  ghost predicate AllRepresented(cs: bool, shards: seq<Shard>, index: seq<Str>, cuts: seq<nat>, i: nat)
    requires i < |cuts| && Increasing(cuts, |index|)
  {
    forall j :: 1 <= j <= i ==> Represented(cs, shards, DirOf(index[cuts[j]]))
  }

  lemma StillRepresented(cs: bool, before: seq<Shard>, after: seq<Shard>, index: seq<Str>, cuts: seq<nat>, i: nat)
    requires i + 1 < |cuts| && Increasing(cuts, |index|)
    requires AllRepresented(cs, before, index, cuts, i) && |before| <= |after|
    requires forall k :: 0 <= k < |before| ==> after[k].startS == before[k].startS
    requires Represented(cs, after, DirOf(index[cuts[i + 1]]))
    ensures AllRepresented(cs, after, index, cuts, i + 1)
  {
    forall j | 1 <= j <= i ensures Represented(cs, after, DirOf(index[cuts[j]])) {
      var dir := DirOf(index[cuts[j]]);
      if EndsWithSlash(dir) {
        var k :| 0 <= k < |before| && (before[k].startS == dir || !StrLt(cs, before[k].startS, BeforeSlash(dir)));
        assert after[k].startS == before[k].startS;
      }
    }
  }

  /** The shards after the last one is cut at a directory and an index. */
  function AfterCut(shards: seq<Shard>, dir: Str, idx: nat, n: nat): seq<Shard>
    requires shards != [] && EndsWithSlash(dir)
  {
    shards[..|shards| - 1] +
    [shards[|shards| - 1].(endS := BeforeSlash(dir), endI := idx), Shard(dir, [], idx, n)]
  }

  /** Cutting the last shard keeps everything. */
  lemma CutLast(cs: bool, shards: seq<Shard>, index: seq<Str>, dir: Str, idx: nat)
    requires ValidShards(cs, shards, index)
    requires EndsWithSlash(dir) && StrLt(cs, shards[|shards| - 1].startS, BeforeSlash(dir))
    requires shards[|shards| - 1].startI < idx < |index| && HasPrefix(index[idx], dir)
    ensures ValidShards(cs, AfterCut(shards, dir, idx, |index|), index)
  {
    KeyOfBeforeSlash(cs, dir);
    var k := Key(cs, dir);
    LessAt(BeforeSlash(k), k, |k| - 1);
    var n := |shards|;
    var r := AfterCut(shards, dir, idx, |index|);
    assert Meet(cs, r[n - 1], r[n], index);
    forall i | 0 <= i < |r| - 1 ensures Meet(cs, r[i], r[i + 1], index) {
      if i < n - 1 {
        assert Meet(cs, shards[i], shards[i + 1], index);
      }
    }
  }

  /** Both invariants of the loop in UpdateShards, about the shards so far with the open one at the end. */
  ghost predicate CutUpTo(cs: bool, shards: seq<Shard>, index: seq<Str>, cuts: seq<nat>, i: nat)
    requires i < |cuts| && Increasing(cuts, |index|)
  {
    && ValidShards(cs, shards, index) && AllRepresented(cs, shards, index, cuts, i) && AllFromCuts(shards, index, cuts, i)
    && shards[|shards| - 1].startI <= cuts[i]
  }

  /** Every shard but the first starts at one of the split points 1..i, with that entry's directory. */
  ghost predicate AllFromCuts(shards: seq<Shard>, index: seq<Str>, cuts: seq<nat>, i: nat)
    requires i < |cuts| && Increasing(cuts, |index|)
  {
    forall k :: 0 < k < |shards| ==> StartsAtCut(shards[k], index, cuts, i)
  }

  ghost predicate StartsAtCut(shard: Shard, index: seq<Str>, cuts: seq<nat>, i: nat)
    requires i < |cuts| && Increasing(cuts, |index|)
  {
    exists j :: 1 <= j <= i && shard.startI == cuts[j] && shard.startS == DirOf(index[cuts[j]])
  }

  lemma SkipCut(cs: bool, shards: seq<Shard>, index: seq<Str>, cuts: seq<nat>, i: nat)
    requires i + 1 < |cuts| && Increasing(cuts, |index|) && CutUpTo(cs, shards, index, cuts, i)
    requires var dir := DirOf(index[cuts[i + 1]]);
             EndsWithSlash(dir) ==> !StrLt(cs, shards[|shards| - 1].startS, BeforeSlash(dir))
    ensures CutUpTo(cs, shards, index, cuts, i + 1)
  {
    assert Represented(cs, shards, DirOf(index[cuts[i + 1]]));
    StillRepresented(cs, shards, shards, index, cuts, i);
    forall k | 0 < k < |shards| ensures StartsAtCut(shards[k], index, cuts, i + 1) {
      assert StartsAtCut(shards[k], index, cuts, i);
    }
  }

  lemma MakeCut(cs: bool, shards: seq<Shard>, index: seq<Str>, cuts: seq<nat>, i: nat, dir: Str)
    requires i + 1 < |cuts| && Increasing(cuts, |index|) && CutUpTo(cs, shards, index, cuts, i)
    requires dir == DirOf(index[cuts[i + 1]]) && EndsWithSlash(dir)
    requires StrLt(cs, shards[|shards| - 1].startS, BeforeSlash(dir))
    ensures CutUpTo(cs, AfterCut(shards, dir, cuts[i + 1], |index|), index, cuts, i + 1)
  {
    hide DirOf, LastSlash, StrLt, AllFromCuts, Meet;
    CutLast(cs, shards, index, dir, cuts[i + 1]);
    var after := AfterCut(shards, dir, cuts[i + 1], |index|);
    assert after[|after| - 1].startS == dir;
    CutKeepsStarts(shards, index, cuts, i, dir);
    StillRepresented(cs, shards, after, index, cuts, i);
  }

  lemma CutKeepsStarts(shards: seq<Shard>, index: seq<Str>, cuts: seq<nat>, i: nat, dir: Str)
    requires i + 1 < |cuts| && Increasing(cuts, |index|) && shards != [] && AllFromCuts(shards, index, cuts, i)
    requires dir == DirOf(index[cuts[i + 1]]) && EndsWithSlash(dir)
    ensures AllFromCuts(AfterCut(shards, dir, cuts[i + 1], |index|), index, cuts, i + 1)
  {
    hide DirOf, LastSlash;
    var after := AfterCut(shards, dir, cuts[i + 1], |index|);
    forall k | 0 < k < |after| ensures StartsAtCut(after[k], index, cuts, i + 1) {
      if k < |shards| { assert StartsAtCut(shards[k], index, cuts, i); }
    }
  }

  /** A run of consecutive paths [lo, hi) given to one diff, and the index of its shard. */
  datatype Batch = Batch(lo: nat, hi: nat, shard: nat)

  ghost predicate PathsSorted(cs: bool, paths: seq<Str>) {
    forall i, j :: 0 <= i < j < |paths| ==> !StrLt(cs, paths[j], paths[i])
  }

  /** Consecutive non-empty batches that cover the first n paths, each within one shard, shards distinct. */
  ghost predicate Grouping(cs: bool, shards: seq<Shard>, paths: seq<Str>, batches: seq<Batch>, n: nat)
    requires shards != [] && n <= |paths|
  {
    && (if batches == [] then n == 0 else batches[0].lo == 0 && batches[|batches| - 1].hi == n)
    && (forall k :: 0 <= k < |batches| ==> batches[k].lo < batches[k].hi <= n)
    && (forall k :: 0 <= k < |batches| - 1 ==> batches[k].hi == batches[k + 1].lo)
    && (forall k, l :: 0 <= k < l < |batches| ==> batches[k].shard < batches[l].shard)
    && (forall k, i :: 0 <= k < |batches| && batches[k].lo <= i < batches[k].hi ==>
          ShardOf(cs, shards, paths[i]) == batches[k].shard)
  }

  lemma AppendBatch(cs: bool, shards: seq<Shard>, paths: seq<Str>, batches: seq<Batch>, b: Batch)
    requires shards != [] && b.lo < b.hi <= |paths|
    requires Grouping(cs, shards, paths, batches, b.lo)
    requires batches != [] ==> batches[|batches| - 1].shard < b.shard
    requires forall i :: b.lo <= i < b.hi ==> ShardOf(cs, shards, paths[i]) == b.shard
    ensures Grouping(cs, shards, paths, batches + [b], b.hi)
  {
  }

  lemma NoCutYet(cs: bool, index: seq<Str>, cuts: seq<nat>)
    requires cuts != [] && cuts[0] == 0 && Increasing(cuts, |index|)
    ensures CutUpTo(cs, [Shard([], [], 0, |index|)], index, cuts, 0)
  {
  }

  /** The loop of Repo::UpdateShards over the split points. */
  method CutShards(cs: bool, index: seq<Str>, cuts: seq<nat>) returns (shards: seq<Shard>)
    requires cuts != [] && cuts[0] == 0 && Increasing(cuts, |index|)
    ensures |shards| <= |cuts|
    ensures CutUpTo(cs, shards, index, cuts, |cuts| - 1)
  {
    hide CutUpTo, StrLt;
    var n := |index|;
    shards := [];
    var lastS: Str := [];
    var lastI := 0;
    ghost var cur := [Shard([], [], 0, n)];
    NoCutYet(cs, index, cuts);
    for i := 1 to |cuts|
      invariant |shards| < i
      invariant cur == shards + [Shard(lastS, [], lastI, n)]
      invariant CutUpTo(cs, cur, index, cuts, i - 1)
    {
      var idx := cuts[i];
      var split := index[idx];
      var pos := LastSlash(split);
      if pos == -1 {
        SkipCut(cs, cur, index, cuts, i - 1);
        continue;
      }
      split := split[..pos + 1];
      var endS := BeforeSlash(split);
      if !StrLt(cs, lastS, endS) {
        SkipCut(cs, cur, index, cuts, i - 1);
        continue;
      }
      MakeCut(cs, cur, index, cuts, i - 1, split);
      cur := AfterCut(cur, split, idx, n);
      shards := shards + [Shard(lastS, endS, lastI, idx)];
      lastS := split;
      lastI := idx;
    }
    shards := shards + [Shard(lastS, [], lastI, n)];
  }

  class Repo {
    var shards: seq<Shard>

    constructor ()
      ensures shards == []
    {
      shards := [];
    }

    /** Repo::UpdateShards. */
    method UpdateShards(cs: bool, index: seq<Str>, numThreads: nat)
      modifies this
      ensures ValidShards(cs, shards, index)
      ensures |index| <= 512 || numThreads < 2 ==> |shards| == 1
      ensures |index| > 512 && numThreads >= 2 ==>
                var count := if |index| / 512 + 1 < 2 * numThreads then |index| / 512 + 1 else 2 * numThreads;
                && 2 <= count <= |index| && |shards| <= count
                && var cuts := SplitIndices(|index|, count);
                && |cuts| == count && EqualParts(cuts, |index|) && Increasing(cuts, |index|)
                && AllRepresented(cs, shards, index, cuts, count - 1) && AllFromCuts(shards, index, cuts, count - 1)
    {
      var n := |index|;
      if n <= ENTRIES_PER_SHARD || numThreads < 2 {
        shards := [Shard([], [], 0, n)];
        return;
      }
      var count := Min(n / ENTRIES_PER_SHARD + 1, 2 * numThreads);
      var cuts := SplitIndices(n, count);
      SplitIndicesIncrease(n, count, cuts);
      SplitIndicesAreEqualParts(n, count);
      shards := CutShards(cs, index, cuts);
    }

    /** The loop of Repo::StartDirtyScan: the shard cursor never leaves the vector. */
    method StartDirtyScan(cs: bool, ghost index: seq<Str>, paths: seq<Str>) returns (batches: seq<Batch>)
      requires ValidShards(cs, shards, index)
      requires PathsSorted(cs, paths)
      ensures Grouping(cs, shards, paths, batches, |paths|)
    {
      batches := [];
      var shard := 0;
      var p := 0;
      while p != |paths|
        invariant 0 <= p <= |paths| && shard < |shards|
        invariant Grouping(cs, shards, paths, batches, p)
        invariant p < |paths| ==> shard <= ShardOf(cs, shards, paths[p])
        invariant batches != [] ==> batches[|batches| - 1].shard == shard
        invariant batches != [] && p < |paths| ==> shard < ShardOf(cs, shards, paths[p])
        decreases |paths| - p
      {
        var lo := p;
        ShardsPartitionAllStrings(cs, shards, index, shard, paths[p]);
        while !shards[shard].Contains(cs, paths[p])
          invariant shard <= ShardOf(cs, shards, paths[p])
          invariant shards[shard].Contains(cs, paths[p]) <==> shard == ShardOf(cs, shards, paths[p])
          decreases |shards| - shard
        {
          shard := shard + 1;
          ShardsPartitionAllStrings(cs, shards, index, shard, paths[p]);
        }
        p := p + 1;
        while p != |paths| && shards[shard].Contains(cs, paths[p])
          invariant lo < p <= |paths|
          invariant forall i :: lo <= i < p ==> ShardOf(cs, shards, paths[i]) == shard
          decreases |paths| - p
        {
          ShardsPartitionAllStrings(cs, shards, index, shard, paths[p]);
          p := p + 1;
        }
        if p < |paths| {
          ShardOfIsMonotone(cs, shards, index, paths[lo], paths[p]);
          ShardsPartitionAllStrings(cs, shards, index, shard, paths[p]);
        }
        AppendBatch(cs, shards, paths, batches, Batch(lo, p, shard));
        batches := batches + [Batch(lo, p, shard)];
      }
    }
  }

  /** Summing any per-entry flag shard by shard counts each index entry once (repo.cc, StartStagedScan). */
  function CountRange(flags: seq<bool>, lo: int, hi: int): nat
    requires 0 <= lo <= hi <= |flags|
    decreases hi - lo
  {
    if lo == hi then 0 else (if flags[lo] then 1 else 0) + CountRange(flags, lo + 1, hi)
  }

  lemma {:induction false} CountRangeSplits(flags: seq<bool>, lo: int, mid: int, hi: int)
    requires 0 <= lo <= mid <= hi <= |flags|
    ensures CountRange(flags, lo, hi) == CountRange(flags, lo, mid) + CountRange(flags, mid, hi)
    decreases mid - lo
  {
    if lo < mid { CountRangeSplits(flags, lo + 1, mid, hi); }
  }

  ghost function CountShards(shards: seq<Shard>, flags: seq<bool>, n: nat): nat
    requires n <= |shards| && forall i :: 0 <= i < n ==> shards[i].startI <= shards[i].endI <= |flags|
  {
    if n == 0 then 0
    else CountShards(shards, flags, n - 1) + CountRange(flags, shards[n - 1].startI, shards[n - 1].endI)
  }

  lemma ShardRangesInBounds(cs: bool, shards: seq<Shard>, index: seq<Str>, i: nat)
    requires ValidShards(cs, shards, index) && i < |shards|
    ensures shards[i].startI <= shards[i].endI <= |index|
  {
    if i + 1 < |shards| { assert Meet(cs, shards[i], shards[i + 1], index); }
  }

  lemma {:induction false} CountPrefixOfShards(cs: bool, shards: seq<Shard>, index: seq<Str>, flags: seq<bool>, n: nat)
    requires ValidShards(cs, shards, index) && |flags| == |index| && 0 < n <= |shards|
    requires forall i :: 0 <= i < |shards| ==> shards[i].startI <= shards[i].endI <= |flags|
    ensures CountShards(shards, flags, n) == CountRange(flags, 0, shards[n - 1].endI)
  {
    if n > 1 {
      assert Meet(cs, shards[n - 2], shards[n - 1], index);
      CountPrefixOfShards(cs, shards, index, flags, n - 1);
      CountRangeSplits(flags, 0, shards[n - 2].endI, shards[n - 1].endI);
    }
  }

  lemma ShardCountsAddUp(cs: bool, shards: seq<Shard>, index: seq<Str>, flags: seq<bool>)
    requires ValidShards(cs, shards, index) && |flags| == |index|
    ensures forall i :: 0 <= i < |shards| ==> shards[i].startI <= shards[i].endI <= |flags|
    ensures CountShards(shards, flags, |shards|) == CountRange(flags, 0, |flags|)
  {
    forall i | 0 <= i < |shards| ensures shards[i].startI <= shards[i].endI <= |flags| {
      ShardRangesInBounds(cs, shards, index, i);
    }
    CountPrefixOfShards(cs, shards, index, flags, |shards|);
  }
}
