/**
 repo.cc: counting deltas from many diffs at once with early termination, and reusing staged counts across calls.

 A diff calls back once per delta of its shard. OnDelta increments one counter, may load the other one later, and
 answers "go on", "skip this type" or "abort". Every atomic operation is a step of its own, so callbacks interleave.
 No scan fails, so error_ stays false.
 */
module Counting {
  import opened Basics

  /** git_delta_t, as far as the callbacks tell values apart. */
  datatype Status = Added | Deleted | Modified | Untracked | Conflicted

  datatype Diff = Staged | Dirty

  /** Counters 0 and 1 have limits; 2 and 3 are the sub-counters staged_new_ and (un)staged_deleted_. */
  predicate In(diff: Diff, j: nat, st: Status) {
    match diff
    case Staged =>
      if j == 0 then st != Conflicted else if j == 1 then st == Conflicted
      else if j == 2 then st == Added else j == 3 && st == Deleted
    case Dirty =>
      if j == 0 then st != Conflicted && st != Untracked else if j == 1 then st == Untracked
      else j == 3 && st == Deleted
  }

  /** Where a shard's diff stands: between callbacks, before Inc(c1), or before Load(c2). */
  datatype Pc = Ready | Entered | Full

  datatype Shard = Shard(deltas: seq<Status>, pos: nat, pc: Pc, skip: seq<bool>, aborted: bool)

  /** c holds the atomic counters; lost counts deltas that the diffs did not report. */
  datatype State = State(c: seq<nat>, lost: seq<nat>, shards: seq<Shard>)

  datatype Action = Begin(i: nat) | Inc(i: nat) | LoadOther(i: nat) | Suppress(i: nat)

  ghost predicate WellTyped(s: State) {
    && |s.c| == 4 && |s.lost| == 4
    && Typed(s.shards)
  }

  ghost predicate TypedShard(sh: Shard) {
    |sh.skip| == 2 && sh.pos <= |sh.deltas| && (sh.pc != Ready ==> sh.pos < |sh.deltas|)
  }

  ghost predicate Typed(shards: seq<Shard>) {
    forall i :: 0 <= i < |shards| ==> TypedShard(shards[i])
  }

  ghost function Start(parts: seq<seq<Status>>): State {
    State([0, 0, 0, 0], [0, 0, 0, 0],
          seq(|parts|, i requires 0 <= i < |parts| => Shard(parts[i], 0, Ready, [false, false], false)))
  }

  /** The counter of the delta at a shard's position: 0, 1, or 2 for none. */
  function Counter(diff: Diff, sh: Shard): nat
    requires sh.pos < |sh.deltas|
  {
    var st := sh.deltas[sh.pos];
    if In(diff, 0, st) then 0 else if In(diff, 1, st) then 1 else 2
  }

  ghost predicate Enabled(diff: Diff, s: State, a: Action) {
    WellTyped(s) && a.i < |s.shards| &&
    var sh := s.shards[a.i];
    match a
    case Begin(_) => sh.pc == Ready && sh.pos < |sh.deltas| && !sh.aborted
    case Inc(_) => sh.pc == Entered
    case LoadOther(_) => sh.pc == Full
    case Suppress(_) =>
      && sh.pc == Ready && sh.pos < |sh.deltas|
      && (sh.aborted || (Counter(diff, sh) < 2 && sh.skip[Counter(diff, sh)]))
  }

  function Bump(c: seq<nat>, diff: Diff, st: Status, lo: nat, hi: nat): (r: seq<nat>)
    requires |c| == 4 && lo <= hi <= 4
    ensures |r| == 4 && forall j :: 0 <= j < 4 ==> r[j] == c[j] + if lo <= j < hi && In(diff, j, st) then 1 else 0
  {
    seq(4, j requires 0 <= j < 4 => c[j] + if lo <= j < hi && In(diff, j, st) then 1 else 0)
  }

  ghost function Apply(diff: Diff, m: seq<nat>, s: State, a: Action): State
    requires |m| == 2 && Enabled(diff, s, a)
  {
    var sh := s.shards[a.i];
    var st := sh.deltas[sh.pos];
    var k := Counter(diff, sh);
    match a
    case Begin(i) =>
      if k == 2 then s.(shards := s.shards[i := sh.(pos := sh.pos + 1)])
      else s.(c := Bump(s.c, diff, st, 2, 4), shards := s.shards[i := sh.(pc := Entered)])
    case Inc(i) =>
      if k == 2 then s
      else
        var v := s.c[k];
        s.(c := Bump(s.c, diff, st, 0, 2),
           shards := s.shards[i := if v + 1 < m[k] then sh.(pc := Ready, pos := sh.pos + 1) else sh.(pc := Full)])
    case LoadOther(i) =>
      if k == 2 then s
      else if s.c[1 - k] < m[1 - k] then
        s.(shards := s.shards[i := sh.(pc := Ready, pos := sh.pos + 1, skip := sh.skip[k := true])])
      else s.(shards := s.shards[i := sh.(pc := Ready, pos := sh.pos + 1, aborted := true)])
    case Suppress(i) =>
      s.(lost := Bump(s.lost, diff, st, 0, 4), shards := s.shards[i := sh.(pos := sh.pos + 1)])
  }

  /* ---- counts ---- */

  /** The true count: deltas of class j in a sequence. */
  function Count(diff: Diff, j: nat, deltas: seq<Status>): nat {
    if deltas == [] then 0
    else Count(diff, j, deltas[..|deltas| - 1]) + if In(diff, j, deltas[|deltas| - 1]) then 1 else 0
  }

  /** The deltas of all shards together. */
  ghost function AllDeltas(parts: seq<seq<Status>>): multiset<Status> {
    if parts == [] then multiset{} else multiset(parts[0]) + AllDeltas(parts[1..])
  }

  /**
   The reference: how many deltas a complete diff has of each kind. Of a staged diff, 0 counts what is not conflicted, 1
   what is, 2 what is added and 3 what is deleted; of a dirty diff, 0 counts what is neither conflicted nor untracked, 1
   what is untracked and 3 what is deleted.
   */
  ghost function TrueCount(diff: Diff, j: nat, parts: seq<seq<Status>>): nat {
    OfKind(diff, j, AllDeltas(parts))
  }

  ghost function OfKind(diff: Diff, j: nat, all: multiset<Status>): nat {
    match diff
    case Staged =>
      if j == 0 then |all| - all[Conflicted] else if j == 1 then all[Conflicted]
      else if j == 2 then all[Added] else if j == 3 then all[Deleted] else 0
    case Dirty =>
      if j == 0 then all[Added] + all[Deleted] + all[Modified] else if j == 1 then all[Untracked]
      else if j == 3 then all[Deleted] else 0
  }

  lemma OfKindAdds(diff: Diff, j: nat, a: multiset<Status>, b: multiset<Status>)
    ensures OfKind(diff, j, a + b) == OfKind(diff, j, a) + OfKind(diff, j, b)
  {
  }

  lemma OfKindOne(diff: Diff, j: nat, st: Status)
    ensures OfKind(diff, j, multiset{st}) == if In(diff, j, st) then 1 else 0
  {
  }

  /** A shard's count of class j is the number of its deltas of that kind. */
  lemma {:induction false} CountIsOfKind(diff: Diff, j: nat, deltas: seq<Status>)
    ensures Count(diff, j, deltas) == OfKind(diff, j, multiset(deltas))
  {
    if deltas != [] {
      var front, last := deltas[..|deltas| - 1], deltas[|deltas| - 1];
      assert deltas == front + [last];
      assert multiset(deltas) == multiset(front) + multiset{last};
      CountIsOfKind(diff, j, front);
      OfKindAdds(diff, j, multiset(front), multiset{last});
      OfKindOne(diff, j, last);
    }
  }

  /** Every delta of a staged diff is staged or conflicted; of a dirty diff, unstaged, untracked or conflicted. */
  lemma KindsCover(parts: seq<seq<Status>>)
    ensures var all := AllDeltas(parts);
            && TrueCount(Staged, 0, parts) + TrueCount(Staged, 1, parts) == |all|
            && TrueCount(Dirty, 0, parts) + TrueCount(Dirty, 1, parts) + all[Conflicted] == |all|
  {
    SizeByStatus(AllDeltas(parts));
  }

  lemma {:induction false} SizeByStatus(all: multiset<Status>)
    ensures |all| == all[Added] + all[Deleted] + all[Modified] + all[Untracked] + all[Conflicted]
    decreases |all|
  {
    if st :| st in all {
      var rest := all - multiset{st};
      SizeByStatus(rest);
      assert all == rest + multiset{st} && |all| == |rest| + 1;
      assert st.Added? || st.Deleted? || st.Modified? || st.Untracked? || st.Conflicted?;
    } else {
      assert all == multiset{};
    }
  }

  /** Deltas of class j that a shard has dealt with. The current one counts once its increment has happened. */
  ghost function Dealt(diff: Diff, j: nat, sh: Shard): nat
    requires TypedShard(sh)
  {
    Count(diff, j, sh.deltas[..sh.pos]) +
    if (sh.pc == Full || (sh.pc == Entered && j >= 2)) && In(diff, j, sh.deltas[sh.pos]) then 1 else 0
  }

  ghost function AllDealt(diff: Diff, j: nat, shards: seq<Shard>): nat
    requires Typed(shards)
  {
    if shards == [] then 0 else Dealt(diff, j, shards[0]) + AllDealt(diff, j, shards[1..])
  }

  /** Every delta dealt with is in its counter or lost, and a class loses deltas only once its limit is reached. */
  ghost predicate Inv(diff: Diff, m: seq<nat>, s: State)
    requires |m| == 2
  {
    && WellTyped(s)
    && (forall j :: 0 <= j < 4 ==> AllDealt(diff, j, s.shards) == s.c[j] + s.lost[j])
    && LossesOk(m, s)
    && (forall i :: 0 <= i < |s.shards| ==> ShardOk(diff, m, s.c, s.shards[i]))
  }

  ghost predicate LossesOk(m: seq<nat>, s: State)
    requires |m| == 2 && |s.c| == 4 && |s.lost| == 4
  {
    && (forall k :: 0 <= k < 2 && s.lost[k] > 0 ==> s.c[k] >= m[k])
    && (s.lost[2] > 0 || s.lost[3] > 0 ==> s.lost[0] > 0)
  }

  /** Skipping or stopping means the limits involved have been reached. */
  ghost predicate ShardOk(diff: Diff, m: seq<nat>, c: seq<nat>, sh: Shard)
    requires |m| == 2 && |c| == 4 && TypedShard(sh)
  {
    && (forall k :: 0 <= k < 2 && sh.skip[k] ==> c[k] >= m[k])
    && (sh.aborted ==> c[0] >= m[0] && c[1] >= m[1])
    && (sh.pc != Ready ==> Counter(diff, sh) < 2)
    && (sh.pc == Full ==> c[Counter(diff, sh)] >= m[Counter(diff, sh)])
  }

  lemma {:induction false} AllDealtUpdate(diff: Diff, j: nat, shards: seq<Shard>, i: nat, sh: Shard)
    requires Typed(shards) && i < |shards| && TypedShard(sh)
    ensures Typed(shards[i := sh])
    ensures AllDealt(diff, j, shards[i := sh]) == AllDealt(diff, j, shards) - Dealt(diff, j, shards[i]) + Dealt(diff, j, sh)
  {
    if i == 0 {
      assert shards[0 := sh][1..] == shards[1..];
    } else {
      assert shards[i := sh][1..] == shards[1..][i - 1 := sh];
      AllDealtUpdate(diff, j, shards[1..], i - 1, sh);
    }
  }

  lemma CountNext(diff: Diff, j: nat, deltas: seq<Status>, pos: nat)
    requires pos < |deltas|
    ensures Count(diff, j, deltas[..pos + 1]) == Count(diff, j, deltas[..pos]) + if In(diff, j, deltas[pos]) then 1 else 0
  {
    assert deltas[..pos + 1][..pos] == deltas[..pos];
  }

  /** A step from s to s' of shard i deals with exactly the deltas of class j that it counts or loses. */
  ghost predicate Accounts(diff: Diff, s: State, s': State, i: nat, j: nat)
    requires WellTyped(s) && i < |s.shards| && j < 4
  {
    && |s'.c| == 4 && |s'.lost| == 4 && |s'.shards| == |s.shards| && TypedShard(s'.shards[i])
    && s'.shards == s.shards[i := s'.shards[i]]
    && Dealt(diff, j, s'.shards[i]) + s.c[j] + s.lost[j] == Dealt(diff, j, s.shards[i]) + s'.c[j] + s'.lost[j]
  }

  lemma ShardDealtStep(diff: Diff, m: seq<nat>, s: State, a: Action, j: nat)
    requires |m| == 2 && Enabled(diff, s, a) && j < 4 && ShardOk(diff, m, s.c, s.shards[a.i])
    ensures Accounts(diff, s, Apply(diff, m, s, a), a.i, j)
  {
    hide Accounts, Apply, ShardOk, Counter;
    match a
    case Inc(_) => ShardDealtInc(diff, m, s, a, j);
    case LoadOther(_) => ShardDealtLoad(diff, m, s, a, j);
    case _ => ShardDealtOutside(diff, m, s, a, j);
  }

  lemma ShardDealtOutside(diff: Diff, m: seq<nat>, s: State, a: Action, j: nat)
    requires |m| == 2 && Enabled(diff, s, a) && j < 4 && (a.Begin? || a.Suppress?)
    ensures Accounts(diff, s, Apply(diff, m, s, a), a.i, j)
  {
    hide Count;
    CountNext(diff, j, s.shards[a.i].deltas, s.shards[a.i].pos);
  }

  lemma ShardDealtInc(diff: Diff, m: seq<nat>, s: State, a: Action, j: nat)
    requires |m| == 2 && Enabled(diff, s, a) && j < 4 && ShardOk(diff, m, s.c, s.shards[a.i]) && a.Inc?
    ensures Accounts(diff, s, Apply(diff, m, s, a), a.i, j)
  {
    hide Count, In, Counter;
    CountNext(diff, j, s.shards[a.i].deltas, s.shards[a.i].pos);
  }

  lemma ShardDealtLoad(diff: Diff, m: seq<nat>, s: State, a: Action, j: nat)
    requires |m| == 2 && Enabled(diff, s, a) && j < 4 && ShardOk(diff, m, s.c, s.shards[a.i]) && a.LoadOther?
    ensures Accounts(diff, s, Apply(diff, m, s, a), a.i, j)
  {
    hide Count, In, Counter;
    CountNext(diff, j, s.shards[a.i].deltas, s.shards[a.i].pos);
  }

  /** What one step does to the deltas dealt with is what it does to the counters and the losses. */
  lemma DealtStep(diff: Diff, m: seq<nat>, s: State, a: Action, j: nat)
    requires |m| == 2 && Enabled(diff, s, a) && j < 4 && ShardOk(diff, m, s.c, s.shards[a.i])
    requires AllDealt(diff, j, s.shards) == s.c[j] + s.lost[j]
    ensures WellTyped(Apply(diff, m, s, a))
    ensures var s' := Apply(diff, m, s, a);
            AllDealt(diff, j, s'.shards) == s'.c[j] + s'.lost[j]
  {
    ShardDealtStep(diff, m, s, a, j);
    var s' := Apply(diff, m, s, a);
    AllDealtUpdate(diff, j, s.shards, a.i, s'.shards[a.i]);
    hide AllDealt, Dealt, Apply;
  }

  /** Counters only grow, and losing, skipping and aborting need full counters. */
  ghost predicate LimitsKept(diff: Diff, m: seq<nat>, s: State, s': State, i: nat)
    requires |m| == 2 && WellTyped(s) && i < |s.shards|
  {
    && |s'.c| == 4 && |s'.lost| == 4 && |s'.shards| == |s.shards| && TypedShard(s'.shards[i])
    && s'.shards == s.shards[i := s'.shards[i]]
    && (forall j :: 0 <= j < 4 ==> s.c[j] <= s'.c[j])
    && LossesOk(m, s') && ShardOk(diff, m, s'.c, s'.shards[i])
  }

  lemma LimitsStep(diff: Diff, m: seq<nat>, s: State, a: Action)
    requires |m| == 2 && Enabled(diff, s, a) && ShardOk(diff, m, s.c, s.shards[a.i]) && LossesOk(m, s)
    ensures LimitsKept(diff, m, s, Apply(diff, m, s, a), a.i)
  {
    hide LimitsKept, LossesOk, ShardOk, Apply, Counter;
    match a
    case Begin(_) => LimitsBegin(diff, m, s, a);
    case Suppress(_) => LimitsSuppress(diff, m, s, a);
    case Inc(_) => LimitsInc(diff, m, s, a);
    case LoadOther(_) => LimitsLoad(diff, m, s, a);
  }

  lemma LimitsBegin(diff: Diff, m: seq<nat>, s: State, a: Action)
    requires |m| == 2 && Enabled(diff, s, a) && ShardOk(diff, m, s.c, s.shards[a.i]) && LossesOk(m, s) && a.Begin?
    ensures LimitsKept(diff, m, s, Apply(diff, m, s, a), a.i)
  {
    hide In;
  }

  lemma LimitsSuppress(diff: Diff, m: seq<nat>, s: State, a: Action)
    requires |m| == 2 && Enabled(diff, s, a) && ShardOk(diff, m, s.c, s.shards[a.i]) && LossesOk(m, s) && a.Suppress?
    ensures LimitsKept(diff, m, s, Apply(diff, m, s, a), a.i)
  {
  }

  lemma LimitsInc(diff: Diff, m: seq<nat>, s: State, a: Action)
    requires |m| == 2 && Enabled(diff, s, a) && ShardOk(diff, m, s.c, s.shards[a.i]) && LossesOk(m, s) && a.Inc?
    ensures LimitsKept(diff, m, s, Apply(diff, m, s, a), a.i)
  {
    hide In;
  }

  lemma LimitsLoad(diff: Diff, m: seq<nat>, s: State, a: Action)
    requires |m| == 2 && Enabled(diff, s, a) && ShardOk(diff, m, s.c, s.shards[a.i]) && LossesOk(m, s) && a.LoadOther?
    ensures LimitsKept(diff, m, s, Apply(diff, m, s, a), a.i)
  {
    hide In;
  }

  /** Whether the delta that a callback handles belongs to the second counter: conflicted, or untracked. */
  ghost predicate Second(diff: Diff, st: Status) { if diff == Staged then st == Conflicted else st == Untracked }

  /**
   The answer to a delta. Its own counter goes up by one and no other limited counter changes; below the limit the diff
   goes on, otherwise the callback looks at the other counter and answers "skip this type" if that one is below its
   limit and "abort" if not.
   */
  lemma Answer(diff: Diff, m: seq<nat>, s: State, a: Action)
    requires |m| == 2 && Enabled(diff, s, a) && ShardOk(diff, m, s.c, s.shards[a.i]) && (a.Inc? || a.LoadOther?)
    ensures var sh := s.shards[a.i];
            var s' := Apply(diff, m, s, a);
            var k := if Second(diff, sh.deltas[sh.pos]) then 1 else 0;
            && |s'.c| == 4 && a.i < |s'.shards|
            && var sh' := s'.shards[a.i];
            && s'.c[1 - k] == s.c[1 - k]
            && (a.Inc? ==>
                  && s'.c[k] == s.c[k] + 1
                  && sh' == if s'.c[k] < m[k] then sh.(pc := Ready, pos := sh.pos + 1) else sh.(pc := Full))
            && (a.LoadOther? ==>
                  && s'.c[k] == s.c[k]
                  && sh' == if s.c[1 - k] < m[1 - k] then sh.(pc := Ready, pos := sh.pos + 1, skip := sh.skip[k := true])
                            else sh.(pc := Ready, pos := sh.pos + 1, aborted := true))
  {
  }

  lemma ShardOkGrows(diff: Diff, m: seq<nat>, c: seq<nat>, c': seq<nat>, sh: Shard)
    requires |m| == 2 && |c| == |c'| == 4 && TypedShard(sh) && ShardOk(diff, m, c, sh)
    requires forall j :: 0 <= j < 4 ==> c[j] <= c'[j]
    ensures ShardOk(diff, m, c', sh)
  {
  }

  lemma MovesOneShard(diff: Diff, s: State, a: Action)
    requires Enabled(diff, s, a)
    ensures WellTyped(s) && a.i < |s.shards|
  {
  }

  lemma InvStep(diff: Diff, m: seq<nat>, s: State, a: Action)
    requires |m| == 2 && Inv(diff, m, s) && Enabled(diff, s, a)
    ensures Inv(diff, m, Apply(diff, m, s, a))
  {
    hide AllDealt, Apply, Enabled, Counter, ShardOk, TypedShard;
    MovesOneShard(diff, s, a);
    var s' := Apply(diff, m, s, a);
    assert ShardOk(diff, m, s.c, s.shards[a.i]);
    forall j | 0 <= j < 4 ensures WellTyped(s') && AllDealt(diff, j, s'.shards) == s'.c[j] + s'.lost[j] {
      DealtStep(diff, m, s, a, j);
    }
    LimitsStep(diff, m, s, a);
    forall i | 0 <= i < |s'.shards| ensures ShardOk(diff, m, s'.c, s'.shards[i]) {
      if i != a.i {
        assert ShardOk(diff, m, s.c, s.shards[i]);
        ShardOkGrows(diff, m, s.c, s'.c, s.shards[i]);
      }
    }
  }

  lemma {:induction false} NothingDealt(diff: Diff, j: nat, parts: seq<seq<Status>>)
    ensures AllDealt(diff, j, Start(parts).shards) == 0
  {
    var shards := Start(parts).shards;
    if parts != [] {
      assert shards[1..] == Start(parts[1..]).shards;
      NothingDealt(diff, j, parts[1..]);
    }
  }

  ghost predicate Done(s: State) {
    WellTyped(s) && forall i :: 0 <= i < |s.shards| ==> s.shards[i].pc == Ready && s.shards[i].pos == |s.shards[i].deltas|
  }

  /** The deltas of the shards never change. */
  ghost predicate SameParts(s: State, parts: seq<seq<Status>>) {
    |s.shards| == |parts| && forall i :: 0 <= i < |parts| ==> s.shards[i].deltas == parts[i]
  }

  lemma {:induction false} AllDealtAtEnd(diff: Diff, j: nat, shards: seq<Shard>, parts: seq<seq<Status>>)
    requires Typed(shards) && |shards| == |parts|
    requires forall i :: 0 <= i < |parts| ==>
               shards[i].deltas == parts[i] && shards[i].pc == Ready && shards[i].pos == |parts[i]|
    ensures AllDealt(diff, j, shards) == TrueCount(diff, j, parts)
  {
    if parts != [] {
      assert shards[0].deltas[..shards[0].pos] == parts[0];
      AllDealtAtEnd(diff, j, shards[1..], parts[1..]);
      CountIsOfKind(diff, j, parts[0]);
      OfKindAdds(diff, j, multiset(parts[0]), AllDeltas(parts[1..]));
    }
  }

  ghost predicate CanStep(diff: Diff, m: seq<nat>, s: State, s': State)
    requires |m| == 2
  {
    exists a :: Enabled(diff, s, a) && s' == Apply(diff, m, s, a)
  }

  /** A complete run of the diffs of all shards, in any interleaving. */
  ghost predicate IsRun(diff: Diff, m: seq<nat>, parts: seq<seq<Status>>, run: seq<State>, last: State)
    requires |m| == 2
  {
    && run != [] && run[0] == Start(parts) && run[|run| - 1] == last
    && forall t :: 0 <= t < |run| - 1 ==> CanStep(diff, m, run[t], run[t + 1])
  }

  lemma StepOf(diff: Diff, m: seq<nat>, parts: seq<seq<Status>>, run: seq<State>, last: State, u: nat) returns (a: Action)
    requires |m| == 2 && IsRun(diff, m, parts, run, last) && 0 < u < |run|
    ensures Enabled(diff, run[u - 1], a) && run[u] == Apply(diff, m, run[u - 1], a)
  {
    hide Enabled, Apply;
    var t := u - 1;
    assert CanStep(diff, m, run[t], run[t + 1]);
    a :| Enabled(diff, run[t], a) && run[u] == Apply(diff, m, run[t], a);
  }

  lemma PartsStep(diff: Diff, m: seq<nat>, s: State, a: Action, parts: seq<seq<Status>>)
    requires |m| == 2 && Enabled(diff, s, a) && SameParts(s, parts)
    ensures SameParts(Apply(diff, m, s, a), parts)
  {
  }

  lemma InvStart(diff: Diff, m: seq<nat>, parts: seq<seq<Status>>)
    requires |m| == 2
    ensures Inv(diff, m, Start(parts)) && SameParts(Start(parts), parts)
  {
    forall j | 0 <= j < 4 ensures AllDealt(diff, j, Start(parts).shards) == 0 { NothingDealt(diff, j, parts); }
  }

  lemma {:induction false} RunKeepsInv(diff: Diff, m: seq<nat>, parts: seq<seq<Status>>, run: seq<State>, last: State, t: nat)
    requires |m| == 2 && IsRun(diff, m, parts, run, last) && t < |run|
    ensures Inv(diff, m, run[t]) && SameParts(run[t], parts)
    decreases t
  {
    if t == 0 {
      InvStart(diff, m, parts);
    } else {
      hide *;
      RunKeepsInv(diff, m, parts, run, last, t - 1);
      var a := StepOf(diff, m, parts, run, last, t);
      InvStep(diff, m, run[t - 1], a);
      PartsStep(diff, m, run[t - 1], a, parts);
    }
  }

  function Min(a: nat, b: nat): nat { if a < b then a else b }

  /**
   Early termination never changes a reported count: however the callbacks interleave and whichever suppressed deltas
   the diffs leave out, the counters cut at their limits are the true counts cut at their limits.
   */
  lemma EarlyTerminationIsExact(diff: Diff, m: seq<nat>, parts: seq<seq<Status>>, run: seq<State>, last: State, k: nat)
    requires |m| == 2 && IsRun(diff, m, parts, run, last) && Done(last) && k < 2
    ensures |last.c| == 4 && Min(last.c[k], m[k]) == Min(TrueCount(diff, k, parts), m[k])
    ensures last.c[k] <= TrueCount(diff, k, parts)
  {
    RunKeepsInv(diff, m, parts, run, last, |run| - 1);
    AllDealtAtEnd(diff, k, last.shards, parts);
  }

  /** The same written out: what a staged scan and a dirty scan report. */
  lemma ReportedCounts(m: seq<nat>, parts: seq<seq<Status>>, run: seq<State>, last: State)
    requires |m| == 2 && Done(last)
    ensures IsRun(Staged, m, parts, run, last) ==>
              && |last.c| == 4
              && Min(last.c[0], m[0]) == Min(|AllDeltas(parts)| - AllDeltas(parts)[Conflicted], m[0])
              && Min(last.c[1], m[1]) == Min(AllDeltas(parts)[Conflicted], m[1])
    ensures IsRun(Dirty, m, parts, run, last) ==>
              && |last.c| == 4 && AllDeltas(parts)[Untracked] + AllDeltas(parts)[Conflicted] <= |AllDeltas(parts)|
              && Min(last.c[0], m[0]) ==
                 Min(|AllDeltas(parts)| - AllDeltas(parts)[Untracked] - AllDeltas(parts)[Conflicted], m[0])
              && Min(last.c[1], m[1]) == Min(AllDeltas(parts)[Untracked], m[1])
  {
    hide IsRun, Done, AllDeltas;
    KindsCover(parts);
    if IsRun(Staged, m, parts, run, last) {
      EarlyTerminationIsExact(Staged, m, parts, run, last, 0);
      EarlyTerminationIsExact(Staged, m, parts, run, last, 1);
    }
    if IsRun(Dirty, m, parts, run, last) {
      EarlyTerminationIsExact(Dirty, m, parts, run, last, 0);
      EarlyTerminationIsExact(Dirty, m, parts, run, last, 1);
    }
  }

  /** The sub-counters are exact unless the limit of the main counter is reached. */
  lemma SubCountersAreExact(diff: Diff, m: seq<nat>, parts: seq<seq<Status>>, run: seq<State>, last: State, j: nat)
    requires |m| == 2 && IsRun(diff, m, parts, run, last) && Done(last) && 2 <= j < 4
    requires TrueCount(diff, 0, parts) < m[0]
    ensures |last.c| == 4 && last.c[j] == TrueCount(diff, j, parts)
  {
    RunKeepsInv(diff, m, parts, run, last, |run| - 1);
    AllDealtAtEnd(diff, 0, last.shards, parts);
    AllDealtAtEnd(diff, j, last.shards, parts);
  }
}
