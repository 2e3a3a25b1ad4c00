/**
 index.cc, InitSplits and GetDirtyCandidates: cutting the directory list into shards of similar weight, scanning
 them in parallel, and putting the candidates back together.
 */
module Candidates {
  import opened Basics
  import opened ByteStrings
  import opened Paths
  import opened DirTree
  import opened Merge
  import opened Handles
  import opened Scan

  function Weights(dirs: seq<Dir>): (r: seq<nat>)
    ensures |r| == |dirs| && forall i :: 0 <= i < |r| ==> r[i] == Weight(dirs[i])
  {
    seq(|dirs|, i requires 0 <= i < |dirs| => Weight(dirs[i]))
  }

  /** The weight of directories lo..hi-1. */
  ghost function SliceWeight(ws: seq<nat>, lo: nat, hi: nat): nat
    requires lo <= hi <= |ws|
    decreases hi - lo
  {
    if lo == hi then 0 else SliceWeight(ws, lo, hi - 1) + ws[hi - 1]
  }

  ghost function Sum(ws: seq<nat>): nat { SliceWeight(ws, 0, |ws|) }

  ghost predicate StrictlyIncreasing(s: seq<nat>) {
    forall i, j :: 0 <= i < j < |s| ==> s[i] < s[j]
  }

  /** The splits run strictly upwards from 0 to the number of directories. */
  ghost predicate ValidSplits(splits: seq<nat>, n: nat) {
    splits != [] && splits[0] == 0 && splits[|splits| - 1] == n && StrictlyIncreasing(splits)
  }

  /** Shard i of the splits is not empty and reaches the weight sw only with its last directory. */
  ghost predicate NotTooHeavy(ws: seq<nat>, sw: nat, splits: seq<nat>, i: nat) {
    i + 1 < |splits| ==> splits[i] < splits[i + 1] <= |ws| && SliceWeight(ws, splits[i], splits[i + 1] - 1) < sw
  }

  ghost predicate HeavyEnough(ws: seq<nat>, sw: nat, splits: seq<nat>, i: nat) {
    i + 1 < |splits| ==> splits[i] < splits[i + 1] <= |ws| && SliceWeight(ws, splits[i], splits[i + 1]) >= sw
  }

  /**
   Each shard collects directories until they weigh max(512, total / (16 * numThreads)): every shard but the last weighs
   at least that much, and every shard without its last directory weighs less.
   */
  ghost predicate Balanced(ws: seq<nat>, total: nat, numThreads: nat, splits: seq<nat>)
    requires numThreads > 0
  {
    && ValidSplits(splits, |ws|)
    && var sw := if total / (16 * numThreads) < 512 then 512 else total / (16 * numThreads);
    && (forall i :: 0 <= i < |splits| - 1 ==> NotTooHeavy(ws, sw, splits, i))
    && (forall i :: 0 <= i < |splits| - 2 ==> HeavyEnough(ws, sw, splits, i))
  }

  /** All shards so far are complete. */
  ghost predicate Complete(ws: seq<nat>, sw: nat, splits: seq<nat>) {
    forall i :: 0 <= i < |splits| - 1 ==> NotTooHeavy(ws, sw, splits, i) && HeavyEnough(ws, sw, splits, i)
  }

  /** Index::InitSplits without its first CHECK. */
  method InitSplits(ws: seq<nat>, total: nat, numThreads: nat) returns (splits: seq<nat>)
    requires numThreads > 0 && forall i :: 0 <= i < |ws| ==> ws[i] > 0
    ensures Balanced(ws, total, numThreads, splits)
    ensures total == Sum(ws) && numThreads <= 32 ==> |splits| <= 16 * numThreads + 2
  {
    hide StrictlyIncreasing, SliceWeight, Complete, Balanced, Sum;
    var numShards := 16 * numThreads;
    var sw := total / numShards;
    if sw < 512 { sw := 512; }
    splits := [0];
    var w := 0;
    NoShardYet(ws, sw);
    for i := 0 to |ws|
      invariant splits != [] && splits[0] == 0 && splits[|splits| - 1] <= i && StrictlyIncreasing(splits)
      invariant w == 0 <==> splits[|splits| - 1] == i
      invariant Complete(ws, sw, splits) && w == SliceWeight(ws, splits[|splits| - 1], i) && w < sw
    {
      OneMore(ws, splits[|splits| - 1], i);
      w := w + ws[i];
      if w >= sw {
        AppendLarger(splits, i + 1);
        AppendShard(ws, sw, splits, i + 1);
        w := 0;
        splits := splits + [i + 1];
      }
    }
    LastShard(ws, total, numThreads, splits, sw);
    if splits[|splits| - 1] != |ws| {
      splits := splits + [|ws|];
    }
    if total == Sum(ws) && numThreads <= 32 { AtMostOneTooMany(ws, numThreads, splits); }
  }

  lemma NoShardYet(ws: seq<nat>, sw: nat)
    ensures StrictlyIncreasing([0]) && Complete(ws, sw, [0]) && SliceWeight(ws, 0, 0) == 0
  {
  }

  lemma OneMore(ws: seq<nat>, lo: nat, i: nat)
    requires lo <= i < |ws|
    ensures SliceWeight(ws, lo, i + 1) == SliceWeight(ws, lo, i) + ws[i] && SliceWeight(ws, i + 1, i + 1) == 0
  {
  }

  lemma AppendLarger(s: seq<nat>, x: nat)
    requires StrictlyIncreasing(s) && (s != [] ==> s[|s| - 1] < x)
    ensures StrictlyIncreasing(s + [x])
  {
  }

  lemma AppendShard(ws: seq<nat>, sw: nat, splits: seq<nat>, x: nat)
    requires Complete(ws, sw, splits) && splits != [] && splits[|splits| - 1] < x <= |ws|
    requires SliceWeight(ws, splits[|splits| - 1], x - 1) < sw <= SliceWeight(ws, splits[|splits| - 1], x)
    ensures Complete(ws, sw, splits + [x])
  {
    var r := splits + [x];
    forall i | 0 <= i < |r| - 1 ensures NotTooHeavy(ws, sw, r, i) && HeavyEnough(ws, sw, r, i) {
      if i < |splits| - 1 { assert NotTooHeavy(ws, sw, splits, i) && HeavyEnough(ws, sw, splits, i); }
    }
  }

  lemma LastShard(ws: seq<nat>, total: nat, numThreads: nat, splits: seq<nat>, sw: nat)
    requires numThreads > 0 && sw == if total / (16 * numThreads) < 512 then 512 else total / (16 * numThreads)
    requires splits != [] && splits[0] == 0 && splits[|splits| - 1] <= |ws| && StrictlyIncreasing(splits)
    requires Complete(ws, sw, splits) && SliceWeight(ws, splits[|splits| - 1], |ws|) < sw
    ensures Balanced(ws, total, numThreads, if splits[|splits| - 1] != |ws| then splits + [|ws|] else splits)
  {
    hide SliceWeight, StrictlyIncreasing;
    var last := splits[|splits| - 1];
    if last != |ws| {
      AppendLarger(splits, |ws|);
      var r := splits + [|ws|];
      forall i | 0 <= i < |r| - 1 ensures NotTooHeavy(ws, sw, r, i) {
        if i < |splits| - 1 { assert NotTooHeavy(ws, sw, splits, i); } else { OneMore(ws, last, |ws| - 1); }
      }
      forall i | 0 <= i < |r| - 2 ensures HeavyEnough(ws, sw, r, i) {
        assert HeavyEnough(ws, sw, splits, i);
      }
    }
  }

  /* ---- how many shards ---- */

  lemma {:induction false} SlicesAdd(ws: seq<nat>, lo: nat, mid: nat, hi: nat)
    requires lo <= mid <= hi <= |ws|
    ensures SliceWeight(ws, lo, hi) == SliceWeight(ws, lo, mid) + SliceWeight(ws, mid, hi)
    decreases hi - mid
  {
    if mid < hi { SlicesAdd(ws, lo, mid, hi - 1); }
  }

  function Times(n: nat, x: nat): nat { n * x }

  lemma TimesNext(n: nat, x: nat)
    ensures Times(n + 1, x) == Times(n, x) + x && Times(0, x) == 0
  {
  }

  lemma InOrder(splits: seq<nat>, n: nat, i: nat)
    requires ValidSplits(splits, n) && i < |splits|
    ensures splits[i] <= n && (i + 1 < |splits| ==> splits[i] < splits[i + 1])
  {
  }

  /** The first n shards, none of them the last, weigh at least n times the weight of a shard. */
  lemma {:induction false} ShardsWeigh(ws: seq<nat>, sw: nat, splits: seq<nat>, n: nat)
    requires ValidSplits(splits, |ws|) && n <= |splits| - 2 && forall i :: 0 <= i < |splits| - 2 ==> HeavyEnough(ws, sw, splits, i)
    ensures splits[n] < |ws| && Times(n, sw) <= SliceWeight(ws, 0, splits[n])
    decreases n
  {
    hide Times;
    InOrder(splits, |ws|, n);
    InOrder(splits, |ws|, n + 1);
    TimesNext(0, sw);
    if n > 0 {
      ShardsWeigh(ws, sw, splits, n - 1);
      TimesNext(n - 1, sw);
      assert HeavyEnough(ws, sw, splits, n - 1);
      SlicesAdd(ws, 0, splits[n - 1], splits[n]);
    }
  }

  /** All shards but the last, and the last one, weigh at most what there is. */
  lemma ShardsFit(ws: seq<nat>, sw: nat, splits: seq<nat>)
    requires ValidSplits(splits, |ws|) && |splits| >= 2 && forall i :: 0 <= i < |splits| - 2 ==> HeavyEnough(ws, sw, splits, i)
    ensures splits[|splits| - 2] < |ws|
    ensures (|splits| - 2) * sw + ws[|ws| - 1] <= Sum(ws)
  {
    ShardsWeigh(ws, sw, splits, |splits| - 2);
    SlicesAdd(ws, 0, splits[|splits| - 2], |ws|);
    OneMore(ws, splits[|splits| - 2], |ws| - 1);
  }

  lemma MulLeq(a: nat, b: nat, c: nat)
    requires a <= b
    ensures a * c <= b * c
  {
  }

  /** n * d <= x bounds n. */
  lemma QuotientBound(n: nat, d: nat, x: nat)
    requires d > 0 && n * d <= x
    ensures n <= x / d
  {
    assert x == (x / d) * d + x % d;
    if x / d < n { MulLeq(x / d + 1, n, d); }
  }

  /** At most total / max(512, total / (16 * numThreads)) + 1 shards. */
  lemma ShardCountBound(ws: seq<nat>, numThreads: nat, splits: seq<nat>)
    requires numThreads > 0 && Balanced(ws, Sum(ws), numThreads, splits)
    ensures var total := Sum(ws);
            var sw := if total / (16 * numThreads) < 512 then 512 else total / (16 * numThreads);
            |splits| - 1 <= total / sw + 1
  {
    var total := Sum(ws);
    var sw := if total / (16 * numThreads) < 512 then 512 else total / (16 * numThreads);
    if |splits| >= 2 {
      hide Sum, Balanced;
      BalancedIsHeavy(ws, total, numThreads, splits, sw);
      ShardsFit(ws, sw, splits);
      QuotientBound(|splits| - 2, sw, total);
    }
  }

  lemma BalancedIsHeavy(ws: seq<nat>, total: nat, numThreads: nat, splits: seq<nat>, sw: nat)
    requires numThreads > 0 && Balanced(ws, total, numThreads, splits)
    requires sw == if total / (16 * numThreads) < 512 then 512 else total / (16 * numThreads)
    ensures ValidSplits(splits, |ws|) && forall i :: 0 <= i < |splits| - 2 ==> HeavyEnough(ws, sw, splits, i)
  {
  }

  /** total in terms of the number k of shards and the weight sw of each. */
  lemma ShardArithmetic(total: nat, k: nat, sw: nat)
    requires k > 0 && sw == if total / k < 512 then 512 else total / k
    ensures if total < 512 * k then sw == 512 else total == k * sw + total % k && sw >= 512
  {
    assert total == k * (total / k) + total % k;
    if total / k < 512 {
      MulLeq(total / k + 1, 512, k);
    } else {
      MulLeq(512, total / k, k);
    }
  }

  /** With at most 32 threads the limit of the CHECK is exceeded by at most one. */
  lemma AtMostOneTooMany(ws: seq<nat>, numThreads: nat, splits: seq<nat>)
    requires 0 < numThreads <= 32 && Balanced(ws, Sum(ws), numThreads, splits)
    ensures |splits| <= 16 * numThreads + 2
  {
    var total, k := Sum(ws), 16 * numThreads;
    var sw := if total / k < 512 then 512 else total / k;
    if |splits| >= 2 {
      hide Sum, Balanced;
      BalancedIsHeavy(ws, total, numThreads, splits, sw);
      ShardsFit(ws, sw, splits);
      ShardArithmetic(total, k, sw);
      OneTooMany(|splits| - 2, k, sw, total, ws[|ws| - 1]);
    }
  }

  lemma OneTooMany(m: nat, k: nat, sw: nat, total: nat, last: nat)
    requires m * sw + last <= total && 0 < k <= 512
    requires if total < 512 * k then sw == 512 else total == k * sw + total % k && sw >= 512
    ensures m <= k
  {
    assert (k + 1) * sw == k * sw + sw;
    if m > k { MulLeq(k + 1, m, sw); }
  }

  lemma {:induction false} SliceGrows(ws: seq<nat>, lo: nat, mid: nat, hi: nat)
    requires lo <= mid <= hi <= |ws|
    ensures SliceWeight(ws, lo, mid) <= SliceWeight(ws, lo, hi)
  {
    SlicesAdd(ws, lo, mid, hi);
  }

  /** The weights leave no choice about where to cut. */
  lemma {:induction false} SameCuts(ws: seq<nat>, total: nat, numThreads: nat, a: seq<nat>, b: seq<nat>, i: nat)
    requires numThreads > 0 && Balanced(ws, total, numThreads, a) && Balanced(ws, total, numThreads, b) && i < |a|
    ensures i < |b| && a[i] == b[i]
    decreases i
  {
    if i > 0 {
      SameCuts(ws, total, numThreads, a, b, i - 1);
      var sw := if total / (16 * numThreads) < 512 then 512 else total / (16 * numThreads);
      InOrder(a, |ws|, i - 1);
      InOrder(a, |ws|, i);
      assert i < |b|;
      InOrder(b, |ws|, i);
      assert NotTooHeavy(ws, sw, a, i - 1) && NotTooHeavy(ws, sw, b, i - 1);
      assert i < |a| - 1 ==> HeavyEnough(ws, sw, a, i - 1);
      assert i < |b| - 1 ==> HeavyEnough(ws, sw, b, i - 1);
      if a[i] < b[i] { SliceGrows(ws, a[i - 1], a[i], b[i] - 1); }
      if b[i] < a[i] { SliceGrows(ws, a[i - 1], b[i], a[i] - 1); }
    }
  }

  lemma BalancedIsUnique(ws: seq<nat>, total: nat, numThreads: nat, a: seq<nat>, b: seq<nat>)
    requires numThreads > 0 && Balanced(ws, total, numThreads, a) && Balanced(ws, total, numThreads, b)
    ensures a == b
  {
    hide Balanced;
    forall i | 0 <= i < |a| ensures i < |b| && a[i] == b[i] { SameCuts(ws, total, numThreads, a, b, i); }
    if |a| > 0 { SameCuts(ws, total, numThreads, a, b, |a| - 1); }
    if |b| > 0 { SameCuts(ws, total, numThreads, b, a, |b| - 1); }
  }

  /** CHECK(splits_.size() <= kNumShards + 1) for directories of the given weights. */
  ghost predicate SplitCheckHolds(ws: seq<nat>, numThreads: nat)
    requires numThreads > 0
  {
    forall splits :: Balanced(ws, Sum(ws), numThreads, splits) ==> |splits| <= 16 * numThreads + 1
  }

  /** When the CHECK cannot fail, in terms of the total weight and the number of threads. */
  ghost predicate SafeTotal(total: nat, numThreads: nat)
    requires numThreads > 0
  {
    total < 8192 * numThreads || total % (16 * numThreads) <= 1
  }

  lemma SplitCheckSufficient(ws: seq<nat>, numThreads: nat, splits: seq<nat>)
    requires numThreads > 0 && SafeTotal(Sum(ws), numThreads) && Balanced(ws, Sum(ws), numThreads, splits)
    requires forall j :: 0 <= j < |ws| ==> ws[j] >= 2
    ensures |splits| <= 16 * numThreads + 1
  {
    var total, k := Sum(ws), 16 * numThreads;
    var sw := if total / k < 512 then 512 else total / k;
    if |splits| >= 2 {
      hide Sum, Balanced;
      BalancedIsHeavy(ws, total, numThreads, splits, sw);
      ShardsFit(ws, sw, splits);
      ShardArithmetic(total, k, sw);
      if |splits| - 2 >= k { MulLeq(k, |splits| - 2, sw); }
    }
  }

  /** Weights whose first k are exactly a shard each, and one more. */
  ghost function FullShards(k: nat, sw: nat, r: nat): (ws: seq<nat>)
    ensures |ws| == k + 1 && ws[k] == r && forall i :: 0 <= i < k ==> ws[i] == sw
  {
    seq(k, _ => sw) + [r]
  }

  /** One shard for each directory. */
  ghost function UnitSplits(n: nat): (splits: seq<nat>)
    ensures |splits| == n + 1 && forall i :: 0 <= i <= n ==> splits[i] == i
  {
    seq(n + 1, i => i)
  }

  lemma {:induction false} FullShardsSum(k: nat, sw: nat, r: nat, n: nat)
    requires n <= k
    ensures SliceWeight(FullShards(k, sw, r), 0, n) == Times(n, sw)
  {
    hide Times;
    TimesNext(0, sw);
    if n > 0 {
      FullShardsSum(k, sw, r, n - 1);
      TimesNext(n - 1, sw);
    }
  }

  lemma FullShardsWeigh(k: nat, sw: nat, r: nat)
    ensures Sum(FullShards(k, sw, r)) == k * sw + r
  {
    FullShardsSum(k, sw, r, k);
    OneMore(FullShards(k, sw, r), 0, k);
  }

  /** Beyond the bound, a shard for each of kNumShards directories leaves one directory over. */
  lemma SplitCheckFailsOn(total: nat, numThreads: nat) returns (ws: seq<nat>)
    requires numThreads > 0 && !SafeTotal(total, numThreads)
    ensures ws != [] && (forall j :: 0 <= j < |ws| ==> ws[j] >= 2) && Sum(ws) == total && !SplitCheckHolds(ws, numThreads)
  {
    var k := 16 * numThreads;
    var sw := total / k;
    ShardArithmetic(total, k, if sw < 512 then 512 else sw);
    ws := FullShards(k, sw, total % k);
    FullShardsWeigh(k, sw, total % k);
    hide Sum;
    UnitShardsBalanced(ws, total, numThreads, sw);
    assert |UnitSplits(k + 1)| > k + 1;
  }

  lemma UnitShardsBalanced(ws: seq<nat>, total: nat, numThreads: nat, sw: nat)
    requires numThreads > 0 && sw == (if total / (16 * numThreads) < 512 then 512 else total / (16 * numThreads)) && ws != []
    requires forall i :: 0 <= i < |ws| - 1 ==> ws[i] == sw
    ensures Balanced(ws, total, numThreads, UnitSplits(|ws|))
  {
    var splits := UnitSplits(|ws|);
    forall i | 0 <= i < |splits| - 1 ensures NotTooHeavy(ws, sw, splits, i) && (i < |ws| - 1 ==> HeavyEnough(ws, sw, splits, i)) {
      OneMore(ws, i, i);
    }
  }

  /**
   The CHECK holds for all directories of a given total weight, each of weight at least two, if and only if that total
   is below 512 for each of the 16 * numThreads shards or exceeds a multiple of their number by at most one.
   */
  lemma SplitCheckCondition(total: nat, numThreads: nat)
    requires numThreads > 0
    ensures (forall ws :: (forall j :: 0 <= j < |ws| ==> ws[j] >= 2) && Sum(ws) == total ==> SplitCheckHolds(ws, numThreads))
            <==> total < 8192 * numThreads || total % (16 * numThreads) <= 1
  {
    hide Sum, Balanced;
    if SafeTotal(total, numThreads) {
      forall ws, splits | (forall j :: 0 <= j < |ws| ==> ws[j] >= 2) && Sum(ws) == total && Balanced(ws, total, numThreads, splits)
        ensures |splits| <= 16 * numThreads + 1
      {
        SplitCheckSufficient(ws, numThreads, splits);
      }
    } else {
      var ws := SplitCheckFailsOn(total, numThreads);
    }
  }

  /** One thread, sixteen directories of weight 512 and one of weight 2: 17 shards, but kNumShards is 16. */
  lemma SplitCheckCanFail()
    ensures Sum(FullShards(16, 512, 2)) == 8194 && !SplitCheckHolds(FullShards(16, 512, 2), 1)
  {
    hide Balanced, Sum;
    FullShardsWeigh(16, 512, 2);
    UnitShardsBalanced(FullShards(16, 512, 2), 8194, 1, 512);
    assert |UnitSplits(17)| == 18;
  }

  lemma {:induction false} TotalIsSum(dirs: seq<Dir>, n: nat)
    requires n <= |dirs|
    ensures TotalWeight(dirs[..n]) == SliceWeight(Weights(dirs), 0, n)
  {
    if n > 0 {
      assert dirs[..n][..n - 1] == dirs[..n - 1];
      TotalIsSum(dirs, n - 1);
    }
  }

  /** Every directory of the tree of a non-empty index holds a file or a subdirectory. */
  lemma DirsWeighAtLeastTwo(dirs: seq<Dir>, index: seq<Str>, k: nat)
    requires IsTreeOf(dirs, index) && index != [] && k < |dirs|
    ensures Weight(dirs[k]) >= 2
  {
    var d := dirs[k];
    var paths := PathsOf(dirs);
    assert DirOk(d, paths, index, |index|, |index|);
    assert paths[k] == d.path;
    assert d.path in paths && Known(index, |index|, 0, d.path);
    assert d.path == [] ==> IsDirOf(d.path, index[0]);
    var j :| 0 <= j < |index| && IsDirOf(d.path, index[j]);
    if DirOf(index[j]) == d.path {
      assert j in d.files;
    } else {
      var x := NextComponent(index[j], d.path);
      assert Known(index, |index|, 0, Child(d.path, x));
      assert x in d.subdirs;
    }
  }

  lemma NextComponent(p: Str, dir: Str) returns (x: Str)
    requires IsDirOf(dir, p) && DirOf(p) != dir
    ensures IsName(x) && IsDirOf(Child(dir, x), p)
  {
    DirOfIsDeepest(dir, p);
    var q := NextSlash(p, |dir|);
    if q < 0 { NoSlashAfter(p, |dir|); }
    x := p[|dir|..q];
    assert Child(dir, x) == p[..q + 1];
  }

  /* ---- gathering the candidates of all shards ---- */

  /** Where the job of one shard stands: still scanning, its candidates inserted, or finished. */
  datatype Phase = Scanning | Inserted | Finished

  /** The variables that the jobs of GetDirtyCandidates share under the mutex. */
  datatype Gather = Gather(phase: seq<Phase>, res: seq<Str>, inflight: int)

  ghost function Start(n: nat): Gather { Gather(seq(n, _ => Scanning), [], n) }

  /** One locked section of the job of shard i: insert its candidates, or drop the in-flight count. */
  ghost predicate GatherStep(parts: seq<seq<Str>>, a: Gather, b: Gather, i: nat) {
    && i < |a.phase| == |parts|
    && (|| (a.phase[i] == Scanning && b == a.(phase := a.phase[i := Inserted], res := a.res + parts[i]))
        || (a.phase[i] == Inserted && b == a.(phase := a.phase[i := Finished], inflight := a.inflight - 1)))
  }

  ghost function Unfinished(phase: seq<Phase>): nat {
    if phase == [] then 0 else Unfinished(phase[1..]) + if phase[0] == Finished then 0 else 1
  }

  ghost predicate GatherOk(parts: seq<seq<Str>>, g: Gather) {
    && |g.phase| == |parts|
    && g.inflight == Unfinished(g.phase)
    && forall p :: p in g.res <==> exists i :: 0 <= i < |parts| && g.phase[i] != Scanning && p in parts[i]
  }

  lemma {:induction false} UnfinishedUpdate(phase: seq<Phase>, i: nat, x: Phase)
    requires i < |phase|
    ensures Unfinished(phase[i := x]) ==
            Unfinished(phase) - (if phase[i] == Finished then 0 else 1) + (if x == Finished then 0 else 1)
  {
    if i == 0 {
      assert phase[0 := x][1..] == phase[1..];
    } else {
      assert phase[i := x][1..] == phase[1..][i - 1 := x];
      UnfinishedUpdate(phase[1..], i - 1, x);
    }
  }

  lemma {:induction false} NoneUnfinished(phase: seq<Phase>)
    ensures Unfinished(phase) == 0 <==> forall i :: 0 <= i < |phase| ==> phase[i] == Finished
  {
    if phase != [] {
      NoneUnfinished(phase[1..]);
      assert forall i :: 0 < i < |phase| ==> phase[i] == phase[1..][i - 1];
      assert forall i :: 0 <= i < |phase| - 1 ==> phase[1..][i] == phase[i + 1];
    }
  }

  lemma GatherStepOk(parts: seq<seq<Str>>, a: Gather, b: Gather, i: nat)
    requires GatherOk(parts, a) && GatherStep(parts, a, b, i)
    ensures GatherOk(parts, b) && (a.phase[i] == Inserted ==> a.inflight > 0)
  {
    UnfinishedUpdate(a.phase, i, b.phase[i]);
    forall p ensures p in b.res <==> exists j :: 0 <= j < |parts| && b.phase[j] != Scanning && p in parts[j] {
      if p in a.res {
        var j :| 0 <= j < |parts| && a.phase[j] != Scanning && p in parts[j];
        assert b.phase[j] != Scanning;
      }
      if j :| 0 <= j < |parts| && b.phase[j] != Scanning && p in parts[j] {
        assert j != i ==> a.phase[j] != Scanning;
      }
    }
  }

  ghost predicate CanStep(parts: seq<seq<Str>>, a: Gather, b: Gather) {
    exists i: nat :: GatherStep(parts, a, b, i)
  }

  /** A run of the jobs, in any interleaving, that ends in the given state. */
  ghost predicate GatherRun(parts: seq<seq<Str>>, run: seq<Gather>, last: Gather) {
    && run != [] && run[0] == Start(|parts|) && run[|run| - 1] == last
    && forall t :: 0 <= t < |run| - 1 ==> CanStep(parts, run[t], run[t + 1])
  }

  lemma {:induction false} StartIsUnfinished(n: nat)
    ensures Unfinished(Start(n).phase) == n
  {
    if n > 0 {
      assert Start(n).phase[1..] == Start(n - 1).phase;
      StartIsUnfinished(n - 1);
    }
  }

  lemma {:induction false} GatherRunOk(parts: seq<seq<Str>>, run: seq<Gather>, last: Gather)
    requires GatherRun(parts, run, last)
    ensures GatherOk(parts, last)
    decreases |run|
  {
    if |run| == 1 {
      StartIsUnfinished(|parts|);
    } else {
      var t := |run| - 2;
      var front := run[..t + 1];
      assert forall s :: 0 <= s < |front| ==> front[s] == run[s];
      hide GatherOk;
      GatherRunOk(parts, front, run[t]);
      assert CanStep(parts, run[t], run[t + 1]);
      var i: nat :| GatherStep(parts, run[t], last, i);
      GatherStepOk(parts, run[t], last, i);
    }
  }

  /** When the waiting thread sees inflight == 0, every candidate of every shard has been inserted. */
  lemma GatherIsComplete(parts: seq<seq<Str>>, run: seq<Gather>, last: Gather)
    requires GatherRun(parts, run, last) && last.inflight == 0
    ensures forall p :: p in last.res <==> exists i :: 0 <= i < |parts| && p in parts[i]
  {
    GatherRunOk(parts, run, last);
    NoneUnfinished(last.phase);
  }

  /** What the scan of shard i contributes, by the contract of ScanDirs. */
  ghost predicate ShardParts(sc: bool, dirs: seq<Dir>, index: seq<Str>, disk: Disk, opts: ScanOpts, states: seq<DirState>,
                             splits: seq<nat>, parts: seq<seq<Str>>)
    requires ValidSplits(splits, |dirs|) && |dirs| == |states|
  {
    && |parts| == |splits| - 1
    && forall i, p :: 0 <= i < |parts| ==>
         (p in parts[i] <==> exists k :: splits[i] <= k < splits[i + 1] && k < |dirs| &&
                                         DirReports(sc, dirs, index, disk, opts, states, k, p))
  }

  lemma {:induction false} SliceOf(splits: seq<nat>, n: nat, k: nat) returns (i: nat)
    requires ValidSplits(splits, n) && k < n
    ensures i + 1 < |splits| && splits[i] <= k < splits[i + 1]
  {
    i := 0;
    while splits[i + 1] <= k
      invariant i + 1 < |splits| && splits[i] <= k
      decreases |splits| - i
    {
      i := i + 1;
    }
  }

  /** The parts together report exactly what the directories report. */
  lemma PartsCover(sc: bool, dirs: seq<Dir>, index: seq<Str>, disk: Disk, opts: ScanOpts, states: seq<DirState>,
                   splits: seq<nat>, parts: seq<seq<Str>>, p: Str)
    requires ValidSplits(splits, |dirs|) && |dirs| == |states|
    requires ShardParts(sc, dirs, index, disk, opts, states, splits, parts)
    ensures (exists i :: 0 <= i < |parts| && p in parts[i]) <==>
            exists k :: 0 <= k < |dirs| && DirReports(sc, dirs, index, disk, opts, states, k, p)
  {
    hide DirReports;
    if k :| 0 <= k < |dirs| && DirReports(sc, dirs, index, disk, opts, states, k, p) {
      var i := SliceOf(splits, |dirs|, k);
      assert p in parts[i];
    }
  }

  /**
   The result is independent of scheduling: any two runs, with any number of threads, any splits and any order of
   completion, end in the same sorted duplicate-free sequence.
   */
  lemma ScheduleIndependent(sc: bool, dirs: seq<Dir>, index: seq<Str>, disk: Disk, opts: ScanOpts, states: seq<DirState>,
                            splits: seq<nat>, parts: seq<seq<Str>>, run: seq<Gather>, last: Gather,
                            splits': seq<nat>, parts': seq<seq<Str>>, run': seq<Gather>, last': Gather)
    requires |dirs| == |states| && ValidSplits(splits, |dirs|) && ValidSplits(splits', |dirs|)
    requires ShardParts(sc, dirs, index, disk, opts, states, splits, parts)
    requires ShardParts(sc, dirs, index, disk, opts, states, splits', parts')
    requires GatherRun(parts, run, last) && last.inflight == 0
    requires GatherRun(parts', run', last') && last'.inflight == 0
    ensures Unique(StrSort(last.res)) == Unique(StrSort(last'.res))
  {
    hide ShardParts, DirReports, GatherRun, StrictlySorted;
    var a, b := last.res, last'.res;
    GatherIsComplete(parts, run, last);
    GatherIsComplete(parts', run', last');
    SortUniqueIsCanonical(a);
    SortUniqueIsCanonical(b);
    forall p ensures p in Unique(StrSort(a)) <==> p in Unique(StrSort(b)) {
      PartsCover(sc, dirs, index, disk, opts, states, splits, parts, p);
      PartsCover(sc, dirs, index, disk, opts, states, splits', parts', p);
    }
    StrictlySortedIsCanonical(Unique(StrSort(a)), Unique(StrSort(b)));
  }

  /** order visits every one of n shards once. */
  ghost predicate VisitsAll(order: seq<nat>, n: nat) {
    && (forall i :: 0 <= i < |order| ==> order[i] < n)
    && (forall i, j :: 0 <= i < j < |order| ==> order[i] != order[j])
    && (forall s :: 0 <= s < n ==> s in order)
  }

  /** On these disks each directory's stat determines its listing, and the cache flag settles. */
  ghost predicate Trackable(dirs: seq<Dir>, disks: seq<Disk>, opts: seq<ScanOpts>) {
    FlagSettles(opts) && forall k :: 0 <= k < |dirs| ==> StatDetermines(disks, dirs[k])
  }

  /** Subdirectory names that signed chars do not put in the wrong order. */
  ghost predicate Comparable(sc: bool, dirs: seq<Dir>) {
    sc ==> forall k :: 0 <= k < |dirs| ==> AllAscii(dirs[k].subdirs)
  }

  lemma PositiveWeights(dirs: seq<Dir>)
    ensures forall i :: 0 <= i < |dirs| ==> Weights(dirs)[i] > 0
  {
  }

  /** The CHECK on the splits that InitSplits makes. */
  lemma CheckOf(dirs: seq<Dir>, numThreads: nat, splits: seq<nat>)
    requires numThreads > 0 && Balanced(Weights(dirs), TotalWeight(dirs), numThreads, splits)
    ensures |splits| <= 16 * numThreads + 1 <==> SplitCheckHolds(Weights(dirs), numThreads)
    ensures ValidSplits(splits, |dirs|) && |Weights(dirs)| == |dirs|
  {
    hide SliceWeight, StrictlyIncreasing, Weights, NotTooHeavy, HeavyEnough, TotalWeight;
    TotalIsSum(dirs, |dirs|);
    assert dirs[..|dirs|] == dirs;
    forall b | Balanced(Weights(dirs), TotalWeight(dirs), numThreads, b) ensures b == splits {
      BalancedIsUnique(Weights(dirs), TotalWeight(dirs), numThreads, splits, b);
    }
  }

  lemma NewStates(sc: bool, dirs: seq<Dir>, index: seq<Str>, states: seq<DirState>)
    requires GoodIndex(index) && IsTreeOf(dirs, index) && |states| == |dirs|
    requires forall k :: 0 <= k < |states| ==> states[k] == NEW_DIR
    ensures StatesBefore(sc, dirs, index, [], [], 0, states)
  {
    hide IsTreeOf, GoodIndex, FilesValid;
    forall k | 0 <= k < |dirs| ensures FilesValid(dirs[k], index) { TreeDirIsGood(dirs, index, k); }
  }

  /** After one more scan: the states are those of the longer history, and what was reported is what is dirty. */
  lemma HistoryGrows(sc: bool, dirs: seq<Dir>, index: seq<Str>, disks: seq<Disk>, opts: seq<ScanOpts>, disk: Disk, o: ScanOpts,
                     states: seq<DirState>, next: seq<DirState>)
    requires GoodIndex(index) && IsTreeOf(dirs, index) && |disks| == |opts|
    requires (forall s :: 0 <= s < |disks| ==> ValidDisk(disks[s], index)) && ValidDisk(disk, index)
    requires StatesBefore(sc, dirs, index, disks, opts, |disks|, states) && |next| == |states|
    requires forall k :: 0 <= k < |dirs| ==> DirRemembers(sc, dirs, index, disk, o, states, k, next[k])
    ensures StatesBefore(sc, dirs, index, disks + [disk], opts + [o], |disks| + 1, next)
    ensures Comparable(sc, dirs) && Trackable(dirs, disks + [disk], opts + [o]) ==>
              forall p :: Dirty(index, disk, o, p) <==>
                exists k :: 0 <= k < |dirs| && DirReports(sc, dirs, index, disk, o, states, k, p)
  {
    hide IsTreeOf, GoodIndex, ValidDisk, DirRemembers, DirReports, StateBefore, StatDetermines, FlagSettles, Dirty;
    var ds, os, t := disks + [disk], opts + [o], |disks|;
    assert ds[t] == disk && os[t] == o;
    StatesPrefix(sc, dirs, index, disks, opts, disk, o, states);
    StatesAdvance(sc, dirs, index, ds, os, t, states, next);
    if Comparable(sc, dirs) && Trackable(dirs, ds, os) {
      forall p ensures Dirty(index, disk, o, p) <==>
                       exists k :: 0 <= k < |dirs| && DirReports(sc, dirs, index, disk, o, states, k, p)
      {
        RunAgreesWithRescan(sc, dirs, index, ds, os, t, states, p);
        TreeIsDirty(dirs, index, disk, o, p);
      }
    }
  }

  /** class Index of index.h. `sc` says whether plain char is signed. */
  class Index {
    const sc: bool
    const entries: seq<Str>
    var dirs: seq<Dir>
    var splits: seq<nat>
    var states: seq<DirState>
    /** The disks and options of the scans so far. */
    ghost var disks: seq<Disk>
    ghost var opts: seq<ScanOpts>

    ghost predicate Valid()
      reads this
    {
      && GoodIndex(entries) && IsTreeOf(dirs, entries) && ValidSplits(splits, |dirs|)
      && |disks| == |opts| && (forall s :: 0 <= s < |disks| ==> ValidDisk(disks[s], entries))
      && StatesBefore(sc, dirs, entries, disks, opts, |disks|, states)
    }

    /** Index::Index. CHECK(splits_.size() <= kNumShards + 1) is SplitCheckHolds, which may abort the process. */
    constructor (sc: bool, entries: seq<Str>, numThreads: nat)
      requires GoodIndex(entries) && numThreads > 0
      ensures Valid() && this.sc == sc && this.entries == entries && disks == [] && opts == []
      ensures Balanced(Weights(dirs), TotalWeight(dirs), numThreads, splits)
      ensures |splits| <= 16 * numThreads + 1 <==> SplitCheckHolds(Weights(dirs), numThreads)
    {
      hide Balanced, IsTreeOf, SplitCheckHolds, Weights, TotalWeight, StateBefore, FilesValid, ValidSplits, WellFormed, Leq;
      var ds, total := InitDirs(entries);
      PositiveWeights(ds);
      var cuts := InitSplits(Weights(ds), total, numThreads);
      CheckOf(ds, numThreads, cuts);
      this.sc, this.entries := sc, entries;
      dirs, splits := ds, cuts;
      states := seq(|ds|, _ => NEW_DIR);
      disks, opts := [], [];
      new;
      NewStates(sc, dirs, entries, states);
    }

    /**
     Index::GetDirtyCandidates, with the shards scanned in the given order. The result does not depend on the order or
     on the splits: it is the strictly sorted list of everything that a full comparison of the index with the disk
     finds, whatever earlier scans have left in the cache.
     */
    method GetDirtyCandidates(disk: Disk, o: ScanOpts, order: seq<nat>) returns (res: seq<Str>)
      requires Valid() && ValidDisk(disk, entries) && VisitsAll(order, |splits| - 1)
      modifies this`states, this`disks, this`opts
      ensures Valid() && disks == old(disks) + [disk] && opts == old(opts) + [o]
      ensures StrictlySorted(res)
      ensures Comparable(sc, dirs) && Trackable(dirs, disks, opts) ==>
                forall p :: p in res <==> Dirty(entries, disk, o, p)
      ensures forall p :: p in res <==>
                exists k :: 0 <= k < |dirs| && DirReports(sc, dirs, entries, disk, o, old(states), k, p)
    {
      hide DirReports, DirRemembers, IsTreeOf, GoodIndex, ValidDisk, TableOk, StrictlySorted, Visited, StateBefore, FilesValid,
           Dirty, Comparable, Trackable;
      ghost var states0 := states;
      res := [];
      NoneVisited(splits, |dirs|, order);
      for j := 0 to |order|
        invariant |states| == |dirs| && disks == old(disks) && opts == old(opts)
        invariant forall k :: 0 <= k < |dirs| ==>
                    if Visited(splits, |dirs|, order, j, k) then DirRemembers(sc, dirs, entries, disk, o, states0, k, states[k])
                    else states[k] == states0[k]
        invariant forall p :: p in res <==>
                    exists k :: 0 <= k < |dirs| && Visited(splits, |dirs|, order, j, k) &&
                                DirReports(sc, dirs, entries, disk, o, states0, k, p)
      {
        var lo, hi := splits[order[j]], splits[order[j] + 1];
        SliceInRange(splits, |dirs|, order[j]);
        var hs := new HandleStack(0, disk.root);
        var part, next := ScanDirs(sc, dirs, entries, lo, hi, disk, o, states, hs, 0);
        VisitStep(splits, |dirs|, order, j);
        SliceIsLocal(sc, dirs, entries, disk, o, states0, states, lo, hi);
        ReportsUnion(sc, dirs, entries, disk, o, states0, states, splits, order, j, res, part);
        if part != [] { res := res + part; } else { assert res + part == res; }
        states := next;
      }
      AllVisited(splits, |dirs|, order);
      HistoryGrows(sc, dirs, entries, disks, opts, disk, o, states0, states);
      disks, opts := disks + [disk], opts + [o];
      SortUniqueIsCanonical(res);
      res := Unique(StrSort(res));
    }
  }

  /** Directory k lies in one of the first j shards of the order. */
  ghost predicate Visited(splits: seq<nat>, n: nat, order: seq<nat>, j: nat, k: nat)
    requires ValidSplits(splits, n) && VisitsAll(order, |splits| - 1) && j <= |order|
  {
    exists i :: 0 <= i < j && splits[order[i]] <= k < splits[order[i] + 1]
  }

  lemma NoneVisited(splits: seq<nat>, n: nat, order: seq<nat>)
    requires ValidSplits(splits, n) && VisitsAll(order, |splits| - 1)
    ensures forall k :: !Visited(splits, n, order, 0, k)
  {
  }

  lemma SliceInRange(splits: seq<nat>, n: nat, i: nat)
    requires ValidSplits(splits, n) && i + 1 < |splits|
    ensures splits[i] < splits[i + 1] <= n
  {
    assert i + 1 == |splits| - 1 || splits[i + 1] < splits[|splits| - 1];
  }

  lemma VisitStep(splits: seq<nat>, n: nat, order: seq<nat>, j: nat)
    requires ValidSplits(splits, n) && VisitsAll(order, |splits| - 1) && j < |order|
    ensures forall k :: Visited(splits, n, order, j + 1, k) <==>
              Visited(splits, n, order, j, k) || splits[order[j]] <= k < splits[order[j] + 1]
    ensures forall k :: splits[order[j]] <= k < splits[order[j] + 1] ==> !Visited(splits, n, order, j, k)
  {
    forall k ensures Visited(splits, n, order, j + 1, k) <==>
                     Visited(splits, n, order, j, k) || splits[order[j]] <= k < splits[order[j] + 1]
    {
      if i :| 0 <= i < j && splits[order[i]] <= k < splits[order[i] + 1] {
        assert 0 <= i < j + 1;
      }
    }
    forall k | splits[order[j]] <= k < splits[order[j] + 1] ensures !Visited(splits, n, order, j, k) {
      forall i | 0 <= i < j ensures !(splits[order[i]] <= k < splits[order[i] + 1]) {
        SlicesDisjoint(splits, n, order[i], order[j], k);
      }
    }
  }

  lemma SlicesDisjoint(splits: seq<nat>, n: nat, a: nat, b: nat, k: nat)
    requires ValidSplits(splits, n) && a + 1 < |splits| && b + 1 < |splits| && a != b
    ensures !(splits[a] <= k < splits[a + 1] && splits[b] <= k < splits[b + 1])
  {
    assert a < b ==> a + 1 == b || splits[a + 1] < splits[b];
    assert b < a ==> b + 1 == a || splits[b + 1] < splits[a];
  }

  lemma AllVisited(splits: seq<nat>, n: nat, order: seq<nat>)
    requires ValidSplits(splits, n) && VisitsAll(order, |splits| - 1)
    ensures forall k :: 0 <= k < n ==> Visited(splits, n, order, |order|, k)
  {
    forall k | 0 <= k < n ensures Visited(splits, n, order, |order|, k) {
      var s := SliceOf(splits, n, k);
      assert s in order;
      var i :| 0 <= i < |order| && order[i] == s;
      assert splits[order[i]] <= k < splits[order[i] + 1];
    }
  }

  /** What a directory reports and remembers depends on its own state only. */
  lemma SliceIsLocal(sc: bool, dirs: seq<Dir>, index: seq<Str>, disk: Disk, opts: ScanOpts,
                     a: seq<DirState>, b: seq<DirState>, lo: nat, hi: nat)
    requires |dirs| == |a| == |b| && lo <= hi <= |dirs| && forall k :: lo <= k < hi ==> a[k] == b[k]
    ensures forall k, p :: lo <= k < hi ==>
              (DirReports(sc, dirs, index, disk, opts, a, k, p) <==> DirReports(sc, dirs, index, disk, opts, b, k, p))
    ensures forall k, s :: lo <= k < hi ==>
              (DirRemembers(sc, dirs, index, disk, opts, a, k, s) <==> DirRemembers(sc, dirs, index, disk, opts, b, k, s))
  {
    hide Reported, NextState;
  }

  lemma ReportsUnion(sc: bool, dirs: seq<Dir>, index: seq<Str>, disk: Disk, opts: ScanOpts,
                     states0: seq<DirState>, states: seq<DirState>, splits: seq<nat>, order: seq<nat>, j: nat,
                     res: seq<Str>, part: seq<Str>)
    requires |dirs| == |states0| == |states| && ValidSplits(splits, |dirs|) && VisitsAll(order, |splits| - 1) && j < |order|
    requires forall p :: p in res <==>
               exists k :: 0 <= k < |dirs| && Visited(splits, |dirs|, order, j, k) &&
                           DirReports(sc, dirs, index, disk, opts, states0, k, p)
    requires splits[order[j] + 1] <= |dirs|
    requires forall p :: p in part <==>
               exists k :: splits[order[j]] <= k < splits[order[j] + 1] && DirReports(sc, dirs, index, disk, opts, states, k, p)
    requires forall k :: splits[order[j]] <= k < splits[order[j] + 1] ==> states[k] == states0[k]
    ensures forall p :: p in res + part <==>
              exists k :: 0 <= k < |dirs| && Visited(splits, |dirs|, order, j + 1, k) &&
                          DirReports(sc, dirs, index, disk, opts, states0, k, p)
  {
    VisitStep(splits, |dirs|, order, j);
    SliceIsLocal(sc, dirs, index, disk, opts, states0, states, splits[order[j]], splits[order[j] + 1]);
    hide DirReports, Visited, ValidSplits, VisitsAll;
    forall p ensures p in res + part <==>
                     exists k :: 0 <= k < |dirs| && Visited(splits, |dirs|, order, j + 1, k) &&
                                 DirReports(sc, dirs, index, disk, opts, states0, k, p)
    {
      if p in part {
        var k :| splits[order[j]] <= k < splits[order[j] + 1] && DirReports(sc, dirs, index, disk, opts, states, k, p);
        assert Visited(splits, |dirs|, order, j + 1, k);
      }
      if p in res {
        var k :| 0 <= k < |dirs| && Visited(splits, |dirs|, order, j, k) && DirReports(sc, dirs, index, disk, opts, states0, k, p);
        assert Visited(splits, |dirs|, order, j + 1, k);
      }
      if k :| 0 <= k < |dirs| && Visited(splits, |dirs|, order, j + 1, k) && DirReports(sc, dirs, index, disk, opts, states0, k, p) {
        assert Visited(splits, |dirs|, order, j, k) || splits[order[j]] <= k < splits[order[j] + 1];
      }
    }
  }
}
