/**
 repo.cc, GetIndexStats: staged and conflicted counts are kept from call to call while neither HEAD nor the index
 changes. No scan fails.
 */
module IndexStats {
  import opened Basics
  import opened Counting

  type Oid = int

  /** The repository: the deltas of a staged scan by HEAD and index, shard by shard, and the intent-to-add flags. */
  datatype World = World(parts: (Oid, int) -> seq<seq<Status>>, intentToAdd: int -> seq<bool>)

  datatype Limits = Limits(maxStaged: nat, maxConflicted: nat)

  /** The reference counts for a HEAD and an index. With an unborn HEAD every entry not merely intended is staged. */
  ghost function TrueStaged(w: World, head: Option<Oid>, index: int): nat {
    match head
    case None => multiset(w.intentToAdd(index))[false]
    case Some(h) => var all := AllDeltas(w.parts(h, index)); |all| - all[Conflicted]
  }

  ghost function TrueConflicted(w: World, head: Option<Oid>, index: int): nat {
    match head
    case None => 0
    case Some(h) => AllDeltas(w.parts(h, index))[Conflicted]
  }

  /** Added files for j == 2, deleted files for j == 3. */
  ghost function TrueSub(w: World, head: Option<Oid>, index: int, j: nat): nat {
    match head
    case None => if j == 2 then multiset(w.intentToAdd(index))[false] else 0
    case Some(h) => AllDeltas(w.parts(h, index))[if j == 2 then Added else Deleted]
  }

  /** The counters as they stand after a finished staged scan, or as reported for an unborn HEAD. */
  ghost predicate CountsFor(w: World, head: Option<Oid>, index: int, lim: Limits,
                            staged: nat, conflicted: nat, added: nat, deleted: nat) {
    && Min(staged, lim.maxStaged) == Min(TrueStaged(w, head, index), lim.maxStaged)
    && Min(conflicted, lim.maxConflicted) == Min(TrueConflicted(w, head, index), lim.maxConflicted)
    && (TrueStaged(w, head, index) < lim.maxStaged ==>
          added == TrueSub(w, head, index, 2) && deleted == TrueSub(w, head, index, 3))
  }

  /** The scan that StartStagedScan would run ends in this state. */
  ghost predicate ScanEnds(w: World, h: Oid, index: int, lim: Limits, run: seq<State>, last: State) {
    var m := [lim.maxStaged, lim.maxConflicted];
    IsRun(Staged, m, w.parts(h, index), run, last) && Done(last)
  }

  lemma ScanCounts(w: World, h: Oid, index: int, lim: Limits, run: seq<State>, last: State)
    requires ScanEnds(w, h, index, lim, run, last)
    ensures |last.c| == 4 && CountsFor(w, Some(h), index, lim, last.c[0], last.c[1], last.c[2], last.c[3])
  {
    var m := [lim.maxStaged, lim.maxConflicted];
    var parts := w.parts(h, index);
    EarlyTerminationIsExact(Staged, m, parts, run, last, 0);
    EarlyTerminationIsExact(Staged, m, parts, run, last, 1);
    if TrueCount(Staged, 0, parts) < lim.maxStaged {
      SubCountersAreExact(Staged, m, parts, run, last, 2);
      SubCountersAreExact(Staged, m, parts, run, last, 3);
    }
  }

  datatype Stats = Stats(numStaged: nat, numConflicted: nat, numStagedNew: nat, numStagedDeleted: nat)

  class StagedCache {
    const world: World
    const base: Limits
    /** head_, where None is the all-zero id. */
    var head: Option<Oid>
    var staged: nat
    var conflicted: nat
    var added: nat
    var deleted: nat
    /** The index that the counters belong to. */
    ghost var index: int

    ghost predicate Valid()
      reads this
    {
      head.Some? ==> CountsFor(world, head, index, base, staged, conflicted, added, deleted)
    }

    constructor (world: World, base: Limits)
      ensures Valid() && this.world == world && this.base == base && head == None
    {
      this.world, this.base := world, base;
      head, staged, conflicted, added, deleted := None, 0, 0, 0, 0;
    }

    /** The loop over the index that replaces a scan when HEAD is unborn. */
    method CountEntries(idx: int) returns (n: nat)
      ensures n == multiset(world.intentToAdd(idx))[false]
    {
      var flags := world.intentToAdd(idx);
      n := 0;
      for i := 0 to |flags|
        invariant n == multiset(flags[..i])[false]
      {
        assert flags[..i + 1] == flags[..i] + [flags[i]];
        if !flags[i] { n := n + 1; }
      }
      assert flags[..|flags|] == flags;
    }

    /**
     The staged part of GetIndexStats. `changed` is what git_index_read_ex reports; `last` is how the counters stand
     when the scan of (newHead, idx) ends, and is of no meaning if none is started.
     */
    method GetIndexStats(newHead: Option<Oid>, idx: int, changed: bool, off: bool, last: State, ghost run: seq<State>)
      returns (r: Stats)
      requires Valid()
      requires changed || idx == index || head == None
      requires newHead.Some? && (changed || newHead != head) && !off && (base.maxStaged > 0 || base.maxConflicted > 0) ==>
                 ScanEnds(world, newHead.value, idx, base, run, last)
      modifies this
      ensures Valid() && index == idx
      ensures off ==> r == Stats(0, 0, 0, 0) && head == None
      ensures !off && newHead.Some? && (base.maxStaged > 0 || base.maxConflicted > 0) ==> head == newHead
      ensures var lim := if off then Limits(0, 0) else base;
              && r.numStaged == Min(TrueStaged(world, newHead, idx), lim.maxStaged)
              && r.numConflicted == Min(TrueConflicted(world, newHead, idx), lim.maxConflicted)
              && r.numStagedNew <= r.numStaged && r.numStagedDeleted <= r.numStaged
              && (TrueStaged(world, newHead, idx) < lim.maxStaged ==>
                    && r.numStagedNew == Min(TrueSub(world, newHead, idx, 2), r.numStaged)
                    && r.numStagedDeleted == Min(TrueSub(world, newHead, idx, 3), r.numStaged))
    {
      var lim := base;
      if off { lim := Limits(0, 0); }
      if changed { head := None; }
      index := idx;
      if lim.maxStaged == 0 && lim.maxConflicted == 0 {
        head, staged, conflicted, added, deleted := None, 0, 0, 0, 0;
      } else if newHead.Some? {
        if newHead == head {
          // Index and HEAD unchanged.
        } else {
          ScanCounts(world, newHead.value, idx, lim, run, last);
          head := newHead;
          staged, conflicted, added, deleted := last.c[0], last.c[1], last.c[2], last.c[3];
        }
      } else {
        head := None;
        var n := CountEntries(idx);
        staged, conflicted, added, deleted := n, 0, n, 0;
      }
      var numStaged := Min(staged, lim.maxStaged);
      r := Stats(numStaged, Min(conflicted, lim.maxConflicted), Min(added, numStaged), Min(deleted, numStaged));
    }
  }
}
