/**
 thread_pool.cc: a timed priority-queue scheduler for any number of workers, as a step relation.

 Each locked section of the code is one step; a notify after unlock is a step of its own, so it can be delayed.
 Condition variables may wake spuriously. The pool is not exiting.
 */
module ThreadPool {
  datatype Work = Work(t: int, idx: int)

  /** Work::operator<: earlier time first, then earlier index. */
  predicate Before(a: Work, b: Work) { a.t < b.t || (a.t == b.t && a.idx < b.idx) }

  /** Where a worker stands. */
  datatype Pc =
    | Starting               // before its first call of Next
    | Running(w: Work)       // outside Next, executing w
    | Notifying(w: Work)     // has popped w and unlocked, about to cv_.notify_one()
    | OnCv                   // blocked in cv_.wait
    | FromCv                 // woken from cv_, about to retake the mutex
    | OnSleeper(until: int)  // blocked in sleeper_cv_.wait_until
    | FromSleeper            // woken or timed out, about to retake the mutex

  /** Where a caller of Wait stands. */
  datatype WaitPc = Elsewhere | OnIdle | FromIdle | Returned

  /** due, started and finished record history by index: scheduled time, start time, completion. */
  datatype Pool = Pool(
    now: int, work: set<Work>, lastIdx: int, inflight: int, haveSleeper: bool,
    pcs: seq<Pc>, cvTokens: nat, sleeperTokens: nat, waiters: seq<WaitPc>,
    due: map<int, int>, started: map<int, int>, finished: set<int>)

  datatype Action =
    | Tick(t: int)
    | Schedule(t: int)
    | DeliverCv(j: int)
    | DeliverSleeper(j: int)
    | WorkerNotify(i: nat, j: int)
    | EnterNext(i: nat, top: Work)
    | AfterCv(i: nat, top: Work)
    | AfterSleeper(i: nat, top: Work)
    | Timeout(i: nat)
    | Spurious(i: nat)
    | CallWait(k: nat)
    | WakeWait(k: nat)
    | SpuriousWait(k: nat)
    | LeaveWait(k: nat)

  ghost function Init(n: nat, m: nat, now: int): Pool {
    Pool(now, {}, 0, n, false, seq(n, _ => Starting), 0, 0, seq(m, _ => Elsewhere), map[], map[], {})
  }

  /** work_.top(). */
  ghost predicate IsTop(work: set<Work>, w: Work) {
    w in work && forall v :: v in work ==> v == w || Before(w, v)
  }

  predicate Idle(s: Pool) { s.work == {} && s.inflight == 0 }

  /** The target of notify_one: a blocked worker, or -1 when none is blocked. */
  ghost predicate CvTarget(s: Pool, j: int) {
    if j == -1 then forall i :: 0 <= i < |s.pcs| ==> s.pcs[i] != OnCv
    else 0 <= j < |s.pcs| && s.pcs[j] == OnCv
  }

  ghost predicate SleeperTarget(s: Pool, j: int) {
    if j == -1 then forall i :: 0 <= i < |s.pcs| ==> !s.pcs[i].OnSleeper?
    else 0 <= j < |s.pcs| && s.pcs[j].OnSleeper?
  }

  ghost predicate TopArgument(s: Pool, top: Work) { s.work == {} || IsTop(s.work, top) }

  ghost predicate Enabled(s: Pool, a: Action) {
    match a
    case Tick(t) => s.now <= t
    case Schedule(t) => true
    case DeliverCv(j) => s.cvTokens > 0 && CvTarget(s, j)
    case DeliverSleeper(j) => s.sleeperTokens > 0 && SleeperTarget(s, j)
    case WorkerNotify(i, j) => i < |s.pcs| && s.pcs[i].Notifying? && CvTarget(s, j)
    case EnterNext(i, top) => i < |s.pcs| && (s.pcs[i].Starting? || s.pcs[i].Running?) && TopArgument(s, top)
    case AfterCv(i, top) => i < |s.pcs| && s.pcs[i] == FromCv && TopArgument(s, top)
    case AfterSleeper(i, top) => i < |s.pcs| && s.pcs[i] == FromSleeper && TopArgument(s, top)
    case Timeout(i) => i < |s.pcs| && s.pcs[i].OnSleeper? && s.pcs[i].until <= s.now
    case Spurious(i) => i < |s.pcs| && (s.pcs[i] == OnCv || s.pcs[i].OnSleeper?)
    case CallWait(k) => k < |s.waiters| && s.waiters[k] == Elsewhere
    case WakeWait(k) => k < |s.waiters| && s.waiters[k] == FromIdle
    case SpuriousWait(k) => k < |s.waiters| && s.waiters[k] == OnIdle
    case LeaveWait(k) => k < |s.waiters| && s.waiters[k] == Returned
  }

  function WakeAt(pcs: seq<Pc>, j: int): (r: seq<Pc>)
    ensures |r| == |pcs|
  {
    if 0 <= j < |pcs| then pcs[j := match pcs[j] case OnSleeper(_) => FromSleeper case _ => FromCv] else pcs
  }

  /** ThreadPool::Schedule up to the unlock; the wake-up is left as a token. */
  ghost function ApplySchedule(s: Pool, t: int): Pool {
    var w := Work(t, s.lastIdx + 1);
    var work := s.work + {w};
    var wake := IsTop(work, w);
    s.(work := work, lastIdx := w.idx, due := s.due[w.idx := t],
       sleeperTokens := if wake && s.haveSleeper then s.sleeperTokens + 1 else s.sleeperTokens,
       cvTokens := if wake && !s.haveSleeper then s.cvTokens + 1 else s.cvTokens)
  }

  /** The body of the loop in Next, for worker i holding the mutex. */
  function Recheck(s: Pool, i: nat, top: Work): Pool
    requires i < |s.pcs|
  {
    if s.work == {} then s.(pcs := s.pcs[i := OnCv])
    else if top.t <= s.now then
      var work := s.work - {top};
      s.(work := work, inflight := s.inflight + 1, started := s.started[top.idx := s.now],
         pcs := s.pcs[i := if work != {} && !s.haveSleeper then Notifying(top) else Running(top)])
    else if s.haveSleeper then s.(pcs := s.pcs[i := OnCv])
    else s.(haveSleeper := true, pcs := s.pcs[i := OnSleeper(top.t)])
  }

  /** Entering Next: the function that ran is finished, and an idle pool wakes the callers of Wait. */
  function Leave(s: Pool, i: nat): Pool
    requires i < |s.pcs|
  {
    var inflight := s.inflight - 1;
    s.(inflight := inflight, pcs := s.pcs[i := FromCv],
       finished := if s.pcs[i].Running? then s.finished + {s.pcs[i].w.idx} else s.finished,
       waiters := if s.work == {} && inflight == 0
                  then seq(|s.waiters|, k requires 0 <= k < |s.waiters| => if s.waiters[k] == OnIdle then FromIdle else s.waiters[k])
                  else s.waiters)
  }

  ghost function Apply(s: Pool, a: Action): Pool
    requires Enabled(s, a)
  {
    match a
    case Tick(t) => s.(now := t)
    case Schedule(t) => ApplySchedule(s, t)
    case DeliverCv(j) => s.(cvTokens := s.cvTokens - 1, pcs := WakeAt(s.pcs, j))
    case DeliverSleeper(j) => s.(sleeperTokens := s.sleeperTokens - 1, pcs := WakeAt(s.pcs, j))
    case WorkerNotify(i, j) => s.(pcs := WakeAt(s.pcs, j)[i := Running(s.pcs[i].w)])
    case EnterNext(i, top) => Recheck(Leave(s, i), i, top)
    case AfterCv(i, top) => Recheck(s, i, top)
    case AfterSleeper(i, top) => Recheck(s.(haveSleeper := false), i, top)
    case Timeout(i) => s.(pcs := WakeAt(s.pcs, i))
    case Spurious(i) => s.(pcs := WakeAt(s.pcs, i))
    case CallWait(k) => s.(waiters := s.waiters[k := if Idle(s) then Returned else OnIdle])
    case WakeWait(k) => s.(waiters := s.waiters[k := if Idle(s) then Returned else OnIdle])
    case SpuriousWait(k) => s.(waiters := s.waiters[k := FromIdle])
    case LeaveWait(k) => s.(waiters := s.waiters[k := Elsewhere])
  }

  /* ---- runs ---- */

  ghost predicate CanStep(s: Pool, s': Pool) {
    exists a :: Enabled(s, a) && s' == Apply(s, a)
  }

  /** A run from the initial state. */
  ghost predicate IsRun(n: nat, m: nat, run: seq<Pool>) {
    && run != [] && run[0] == Init(n, m, run[0].now)
    && forall t :: 0 <= t < |run| - 1 ==> CanStep(run[t], run[t + 1])
  }

  /* ---- the invariant ---- */

  ghost predicate Outside(pc: Pc) { pc.Starting? || pc.Running? || pc.Notifying? }

  ghost predicate Asleep(pc: Pc) { pc.OnSleeper? || pc == FromSleeper }

  ghost predicate Holds(pc: Pc, x: int) { (pc.Running? || pc.Notifying?) && pc.w.idx == x }

  ghost function CountOutside(pcs: seq<Pc>): nat {
    if pcs == [] then 0 else CountOutside(pcs[1..]) + if Outside(pcs[0]) then 1 else 0
  }

  ghost predicate Queued(s: Pool, x: int) { exists w :: w in s.work && w.idx == x }

  ghost predicate Held(s: Pool, x: int) { exists i :: 0 <= i < |s.pcs| && Holds(s.pcs[i], x) }

  /** Each scheduled function is queued, held by one worker, or finished, and only one of these. */
  ghost predicate Conserved(s: Pool) {
    && 0 <= s.lastIdx
    && (forall v, w :: v in s.work && w in s.work && v.idx == w.idx ==> v == w)
    && (forall x :: 1 <= x <= s.lastIdx <==> Queued(s, x) || Held(s, x) || x in s.finished)
    && (forall x :: Queued(s, x) ==> !Held(s, x) && x !in s.finished)
    && (forall x :: Held(s, x) ==> x !in s.finished)
    && (forall i, j, x :: 0 <= i < |s.pcs| && 0 <= j < |s.pcs| && Holds(s.pcs[i], x) && Holds(s.pcs[j], x) ==> i == j)
  }

  /** Nothing starts before its time; what has started is held or finished. */
  ghost predicate OnTime(s: Pool) {
    && (forall w :: w in s.work ==> w.idx in s.due && s.due[w.idx] == w.t && w.idx <= s.lastIdx)
    && (forall x :: x in s.started ==> x in s.due && s.due[x] <= s.started[x] <= s.now && x <= s.lastIdx)
    && (forall i :: 0 <= i < |s.pcs| && (s.pcs[i].Running? || s.pcs[i].Notifying?) ==> s.pcs[i].w.idx in s.started)
    && (forall x :: x in s.finished ==> x in s.started)
  }

  ghost predicate Counted(s: Pool) { s.inflight == CountOutside(s.pcs) }

  /** have_sleeper_ says whether a worker sleeps, and at most one does. */
  ghost predicate OneSleeper(s: Pool) {
    && (s.haveSleeper <==> exists i :: 0 <= i < |s.pcs| && Asleep(s.pcs[i]))
    && (forall i, j :: 0 <= i < |s.pcs| && 0 <= j < |s.pcs| && Asleep(s.pcs[i]) && Asleep(s.pcs[j]) ==> i == j)
  }

  /** A sleeping worker wakes no later than the earliest item, or a notify for it is on its way. */
  ghost predicate SleeperInTime(s: Pool) {
    forall i, w :: 0 <= i < |s.pcs| && s.pcs[i].OnSleeper? && w in s.work ==>
      s.sleeperTokens > 0 || s.pcs[i].until <= w.t
  }

  /** Without a sleeper, queued work and a blocked worker mean that some wake-up is under way. */
  ghost predicate WakeUpComing(s: Pool) {
    !s.haveSleeper && s.work != {} && (exists i :: 0 <= i < |s.pcs| && s.pcs[i] == OnCv) ==>
      s.cvTokens > 0 || exists i :: 0 <= i < |s.pcs| && (s.pcs[i] == FromCv || s.pcs[i].Notifying?)
  }

  /** A caller of Wait is blocked only while the pool is not idle. */
  ghost predicate WaitersBlocked(s: Pool) {
    (exists k :: 0 <= k < |s.waiters| && s.waiters[k] == OnIdle) ==> !Idle(s)
  }

  ghost predicate Inv(s: Pool) {
    && Conserved(s) && OnTime(s) && Counted(s) && OneSleeper(s)
    && SleeperInTime(s) && WakeUpComing(s) && WaitersBlocked(s)
  }

  /* ---- conservation ---- */

  /** Conserved depends on the queue, the finished set and what each worker holds. */
  lemma ConservedSame(s: Pool, s': Pool)
    requires Conserved(s) && s'.work == s.work && s'.lastIdx == s.lastIdx && s'.finished == s.finished
    requires |s'.pcs| == |s.pcs| && forall i, x :: 0 <= i < |s.pcs| ==> (Holds(s'.pcs[i], x) <==> Holds(s.pcs[i], x))
    ensures Conserved(s')
  {
    forall x ensures Queued(s', x) <==> Queued(s, x) {}
    forall x ensures Held(s', x) <==> Held(s, x) {
      if Held(s, x) { var i :| 0 <= i < |s.pcs| && Holds(s.pcs[i], x); assert Holds(s'.pcs[i], x); }
      if Held(s', x) { var i :| 0 <= i < |s'.pcs| && Holds(s'.pcs[i], x); assert Holds(s.pcs[i], x); }
    }
  }

  lemma ConservedSchedule(s: Pool, t: int)
    requires Conserved(s)
    ensures Conserved(ApplySchedule(s, t))
  {
    var s' := ApplySchedule(s, t);
    var n := Work(t, s.lastIdx + 1);
    assert forall w :: w in s.work ==> Queued(s, w.idx);
    forall x ensures Queued(s', x) <==> Queued(s, x) || x == n.idx {
      assert n in s'.work;
      if Queued(s, x) { var w :| w in s.work && w.idx == x; assert w in s'.work; }
    }
    forall x ensures Held(s', x) <==> Held(s, x) {}
  }

  lemma ConservedLeave(s: Pool, i: nat)
    requires Conserved(s) && i < |s.pcs| && (s.pcs[i].Starting? || s.pcs[i].Running?)
    ensures Conserved(Leave(s, i))
  {
    var s' := Leave(s, i);
    forall x ensures Queued(s', x) <==> Queued(s, x) {}
    forall x ensures Held(s', x) <==> Held(s, x) && !Holds(s.pcs[i], x) {
      if Held(s, x) && !Holds(s.pcs[i], x) {
        var j :| 0 <= j < |s.pcs| && Holds(s.pcs[j], x);
        assert Holds(s'.pcs[j], x);
      }
      if Held(s', x) {
        var j :| 0 <= j < |s'.pcs| && Holds(s'.pcs[j], x);
        assert Holds(s.pcs[j], x);
      }
    }
    if s.pcs[i].Running? { assert Held(s, s.pcs[i].w.idx); }
  }

  lemma ConservedTake(s: Pool, i: nat, top: Work)
    requires Conserved(s) && i < |s.pcs| && !Outside(s.pcs[i]) && IsTop(s.work, top) && top.t <= s.now
    ensures Conserved(Recheck(s, i, top))
  {
    var s' := Recheck(s, i, top);
    assert Queued(s, top.idx);
    forall x ensures Queued(s', x) <==> Queued(s, x) && x != top.idx {
      if Queued(s, x) && x != top.idx { var w :| w in s.work && w.idx == x; assert w in s'.work; }
    }
    forall x ensures Held(s', x) <==> Held(s, x) || x == top.idx {
      assert Holds(s'.pcs[i], top.idx);
      if Held(s, x) {
        var j :| 0 <= j < |s.pcs| && Holds(s.pcs[j], x);
        assert Holds(s'.pcs[j], x);
      }
      if Held(s', x) && x != top.idx {
        var j :| 0 <= j < |s'.pcs| && Holds(s'.pcs[j], x);
        assert Holds(s.pcs[j], x);
      }
    }
  }

  lemma ConservedRecheck(s: Pool, i: nat, top: Work)
    requires Conserved(s) && i < |s.pcs| && !Outside(s.pcs[i]) && TopArgument(s, top)
    ensures Conserved(Recheck(s, i, top))
  {
    if s.work != {} && top.t <= s.now {
      ConservedTake(s, i, top);
    } else {
      ConservedSame(s, Recheck(s, i, top));
    }
  }

  lemma ConservedEnter(s: Pool, i: nat, top: Work)
    requires Conserved(s) && i < |s.pcs| && (s.pcs[i].Starting? || s.pcs[i].Running?) && TopArgument(s, top)
    ensures Conserved(Recheck(Leave(s, i), i, top))
  {
    hide Conserved, IsTop, Recheck;
    ConservedLeave(s, i);
    ConservedRecheck(Leave(s, i), i, top);
  }

  lemma ConservedStep(s: Pool, a: Action)
    requires Conserved(s) && Enabled(s, a)
    ensures Conserved(Apply(s, a))
  {
    hide Conserved, IsTop, Recheck, Leave, Idle;
    match a
    case Schedule(t) => ConservedSchedule(s, t);
    case EnterNext(i, top) => ConservedEnter(s, i, top);
    case AfterCv(i, top) => ConservedRecheck(s, i, top);
    case AfterSleeper(i, top) =>
      ConservedSame(s, s.(haveSleeper := false));
      ConservedRecheck(s.(haveSleeper := false), i, top);
    case _ => ConservedSame(s, Apply(s, a));
  }

  /* ---- start times ---- */

  lemma OnTimeRecheck(s: Pool, i: nat, top: Work)
    requires OnTime(s) && i < |s.pcs| && TopArgument(s, top)
    ensures OnTime(Recheck(s, i, top))
  {
  }

  lemma OnTimeLeave(s: Pool, i: nat)
    requires OnTime(s) && i < |s.pcs|
    ensures OnTime(Leave(s, i))
  {
  }

  lemma OnTimeStep(s: Pool, a: Action)
    requires OnTime(s) && Enabled(s, a)
    ensures OnTime(Apply(s, a))
  {
    match a
    case EnterNext(i, top) =>
      OnTimeLeave(s, i);
      OnTimeRecheck(Leave(s, i), i, top);
    case AfterCv(i, top) => OnTimeRecheck(s, i, top);
    case AfterSleeper(i, top) => OnTimeRecheck(s.(haveSleeper := false), i, top);
    case _ =>
  }

  /* ---- num_inflight_ ---- */

  lemma {:induction false} CountUpdate(pcs: seq<Pc>, i: nat, pc: Pc)
    requires i < |pcs|
    ensures CountOutside(pcs[i := pc]) ==
            CountOutside(pcs) - (if Outside(pcs[i]) then 1 else 0) + (if Outside(pc) then 1 else 0)
  {
    if i == 0 {
      assert pcs[0 := pc][1..] == pcs[1..];
    } else {
      assert pcs[i := pc][1..] == pcs[1..][i - 1 := pc];
      CountUpdate(pcs[1..], i - 1, pc);
    }
  }

  lemma {:induction false} CountZero(pcs: seq<Pc>)
    ensures CountOutside(pcs) == 0 <==> forall i :: 0 <= i < |pcs| ==> !Outside(pcs[i])
  {
    if pcs != [] {
      CountZero(pcs[1..]);
      assert forall i :: 0 < i < |pcs| ==> pcs[i] == pcs[1..][i - 1];
    }
  }

  lemma CountWake(pcs: seq<Pc>, j: int)
    requires 0 <= j < |pcs| ==> !Outside(pcs[j])
    ensures CountOutside(WakeAt(pcs, j)) == CountOutside(pcs)
  {
    if 0 <= j < |pcs| { CountUpdate(pcs, j, WakeAt(pcs, j)[j]); }
  }

  lemma CountedRecheck(s: Pool, i: nat, top: Work)
    requires Counted(s) && i < |s.pcs| && !Outside(s.pcs[i])
    ensures Counted(Recheck(s, i, top))
  {
    CountUpdate(s.pcs, i, Recheck(s, i, top).pcs[i]);
  }

  lemma CountedStep(s: Pool, a: Action)
    requires Counted(s) && Enabled(s, a)
    ensures Counted(Apply(s, a))
  {
    match a
    case DeliverCv(j) => CountWake(s.pcs, j);
    case DeliverSleeper(j) => CountWake(s.pcs, j);
    case WorkerNotify(i, j) =>
      CountWake(s.pcs, j);
      CountUpdate(WakeAt(s.pcs, j), i, Running(s.pcs[i].w));
    case EnterNext(i, top) =>
      CountUpdate(s.pcs, i, FromCv);
      CountedRecheck(Leave(s, i), i, top);
    case AfterCv(i, top) => CountedRecheck(s, i, top);
    case AfterSleeper(i, top) => CountedRecheck(s.(haveSleeper := false), i, top);
    case Timeout(i) => CountWake(s.pcs, i);
    case Spurious(i) => CountWake(s.pcs, i);
    case _ =>
  }

  /* ---- the sleeper ---- */

  lemma OneSleeperSame(s: Pool, s': Pool)
    requires OneSleeper(s) && s'.haveSleeper == s.haveSleeper && |s'.pcs| == |s.pcs|
    requires forall i :: 0 <= i < |s.pcs| ==> (Asleep(s'.pcs[i]) <==> Asleep(s.pcs[i]))
    ensures OneSleeper(s')
  {
    if i :| 0 <= i < |s.pcs| && Asleep(s.pcs[i]) { assert Asleep(s'.pcs[i]); }
  }

  /** The worker that retakes the mutex is the sleeper only if it comes from sleeper_cv_. */
  lemma OneSleeperRecheck(s: Pool, i: nat, top: Work, h: bool)
    requires OneSleeper(s) && i < |s.pcs| && !s.pcs[i].OnSleeper?
    requires h == (s.haveSleeper && s.pcs[i] != FromSleeper)
    ensures OneSleeper(Recheck(s.(haveSleeper := h), i, top))
  {
    var s' := Recheck(s.(haveSleeper := h), i, top);
    forall j | 0 <= j < |s.pcs| && j != i ensures s'.pcs[j] == s.pcs[j] {}
    if s'.haveSleeper && !h {
      assert Asleep(s'.pcs[i]);
    } else if s'.haveSleeper {
      var j :| 0 <= j < |s.pcs| && Asleep(s.pcs[j]);
      assert Asleep(s'.pcs[j]);
    }
  }

  lemma OneSleeperStep(s: Pool, a: Action)
    requires OneSleeper(s) && Enabled(s, a)
    ensures OneSleeper(Apply(s, a))
  {
    hide OneSleeper, IsTop, Recheck, Leave, Idle;
    match a
    case EnterNext(i, top) => OneSleeperEnter(s, i, top);
    case AfterCv(i, top) =>
      assert s.(haveSleeper := s.haveSleeper) == s;
      OneSleeperRecheck(s, i, top, s.haveSleeper);
    case AfterSleeper(i, top) => OneSleeperRecheck(s, i, top, false);
    case _ => OneSleeperSame(s, Apply(s, a));
  }

  lemma OneSleeperEnter(s: Pool, i: nat, top: Work)
    requires OneSleeper(s) && i < |s.pcs| && (s.pcs[i].Starting? || s.pcs[i].Running?)
    ensures OneSleeper(Recheck(Leave(s, i), i, top))
  {
    OneSleeperSame(s, Leave(s, i));
    assert Leave(s, i).(haveSleeper := s.haveSleeper) == Leave(s, i);
    hide OneSleeper;
    OneSleeperRecheck(Leave(s, i), i, top, s.haveSleeper);
  }

  lemma SleeperInTimeRecheck(s: Pool, i: nat, top: Work)
    requires SleeperInTime(s) && i < |s.pcs| && TopArgument(s, top)
    ensures SleeperInTime(Recheck(s, i, top))
  {
  }

  lemma SleeperInTimeStep(s: Pool, a: Action)
    requires OneSleeper(s) && SleeperInTime(s) && Enabled(s, a)
    ensures SleeperInTime(Apply(s, a))
  {
    match a
    case Schedule(t) => SleeperInTimeSchedule(s, t);
    case DeliverSleeper(j) => SleeperWoken(s, j);
    case EnterNext(i, top) => SleeperInTimeRecheck(Leave(s, i), i, top);
    case AfterCv(i, top) => SleeperInTimeRecheck(s, i, top);
    case AfterSleeper(i, top) => SleeperInTimeRecheck(s.(haveSleeper := false), i, top);
    case _ =>
  }

  lemma SleeperInTimeSchedule(s: Pool, t: int)
    requires OneSleeper(s) && SleeperInTime(s)
    ensures SleeperInTime(ApplySchedule(s, t))
  {
    var s' := ApplySchedule(s, t);
    var n := Work(t, s.lastIdx + 1);
    forall i, w | 0 <= i < |s'.pcs| && s'.pcs[i].OnSleeper? && w in s'.work
      ensures s'.sleeperTokens > 0 || s'.pcs[i].until <= w.t
    {
      assert Asleep(s.pcs[i]);
      if w == n && !IsTop(s'.work, n) {
        var v :| v in s'.work && v != n && !Before(n, v);
        assert v in s.work && v.t <= n.t;
      }
    }
  }

  /** notify_one on sleeper_cv_ reaches the sleeper: nobody stays blocked there. */
  lemma SleeperWoken(s: Pool, j: int)
    requires OneSleeper(s) && SleeperInTime(s) && Enabled(s, DeliverSleeper(j))
    ensures SleeperInTime(Apply(s, DeliverSleeper(j)))
  {
    var s' := Apply(s, DeliverSleeper(j));
    forall i | 0 <= i < |s'.pcs| ensures !s'.pcs[i].OnSleeper? {
      if j != -1 && i != j && s.pcs[i].OnSleeper? { assert Asleep(s.pcs[i]) && Asleep(s.pcs[j]); }
    }
  }

  /* ---- no lost wake-ups ---- */

  lemma WakeUpComingRecheck(s: Pool, i: nat, top: Work)
    requires i < |s.pcs| && TopArgument(s, top) && !s.pcs[i].OnSleeper? && s.pcs[i] != OnCv
    ensures WakeUpComing(Recheck(s, i, top))
  {
    var s' := Recheck(s, i, top);
    if s.work != {} && top.t <= s.now && s'.work != {} && !s'.haveSleeper {
      assert s'.pcs[i].Notifying?;
    }
  }

  lemma WakeUpComingStep(s: Pool, a: Action)
    requires WakeUpComing(s) && Enabled(s, a)
    ensures WakeUpComing(Apply(s, a))
  {
    var s' := Apply(s, a);
    match a
    case Schedule(t) => WakeUpComingSchedule(s, t);
    case DeliverCv(j) => if j != -1 { assert s'.pcs[j] == FromCv; }
    case WorkerNotify(i, j) => if j != -1 { assert s'.pcs[j] == FromCv; }
    case EnterNext(i, top) => WakeUpComingRecheck(Leave(s, i), i, top);
    case AfterCv(i, top) => WakeUpComingRecheck(s, i, top);
    case AfterSleeper(i, top) => WakeUpComingRecheck(s.(haveSleeper := false), i, top);
    case Spurious(i) => WakeUpComingWake(s, s', i);
    case Timeout(i) => WakeUpComingWake(s, s', i);
    case DeliverSleeper(j) => WakeUpComingWake(s, s', j);
    case _ => assert s'.pcs == s.pcs;
  }

  lemma WakeUpComingSchedule(s: Pool, t: int)
    requires WakeUpComing(s)
    ensures WakeUpComing(ApplySchedule(s, t))
  {
    var s' := ApplySchedule(s, t);
    if s.work == {} {
      assert s'.work == {Work(t, s.lastIdx + 1)};
      assert IsTop(s'.work, Work(t, s.lastIdx + 1));
    }
  }

  lemma WakeUpComingWake(s: Pool, s': Pool, j: int)
    requires WakeUpComing(s) && (0 <= j < |s.pcs| ==> s.pcs[j] == OnCv || s.pcs[j].OnSleeper?)
    requires s'.pcs == WakeAt(s.pcs, j) && s'.work == s.work && s'.haveSleeper == s.haveSleeper && s'.cvTokens == s.cvTokens
    ensures WakeUpComing(s')
  {
    if i :| 0 <= i < |s.pcs| && (s.pcs[i] == FromCv || s.pcs[i].Notifying?) { assert s'.pcs[i] == s.pcs[i]; }
    if i :| 0 <= i < |s'.pcs| && s'.pcs[i] == OnCv { assert s.pcs[i] == OnCv; }
  }

  /* ---- Wait ---- */

  lemma WaitersEnter(s: Pool, i: nat, top: Work)
    requires Counted(s) && WaitersBlocked(s) && i < |s.pcs| && Outside(s.pcs[i])
    ensures WaitersBlocked(Recheck(Leave(s, i), i, top))
  {
    hide Recheck;
    CountUpdate(s.pcs, i, FromCv);
    WaitersRecheck(Leave(s, i), i, top);
  }

  lemma WaitersStep(s: Pool, a: Action)
    requires Counted(s) && WaitersBlocked(s) && Enabled(s, a)
    ensures WaitersBlocked(Apply(s, a))
  {
    hide IsTop, CountOutside, Recheck, Leave;
    var s' := Apply(s, a);
    match a
    case EnterNext(i, top) => WaitersEnter(s, i, top);
    case AfterCv(i, top) => WaitersRecheck(s, i, top);
    case AfterSleeper(i, top) => WaitersRecheck(s.(haveSleeper := false), i, top);
    case _ =>
      if k :| 0 <= k < |s'.waiters| && s'.waiters[k] == OnIdle {}
  }

  lemma WaitersRecheck(s: Pool, i: nat, top: Work)
    requires WaitersBlocked(s) && i < |s.pcs| && s.inflight >= 0
    ensures WaitersBlocked(Recheck(s, i, top))
  {
    var s' := Recheck(s, i, top);
    if k :| 0 <= k < |s'.waiters| && s'.waiters[k] == OnIdle { assert s.waiters[k] == OnIdle; }
  }

  /* ---- every reachable state ---- */

  lemma InvStep(s: Pool, a: Action)
    requires Inv(s) && Enabled(s, a)
    ensures Inv(Apply(s, a))
  {
    hide Conserved, OnTime, Counted, OneSleeper, SleeperInTime, WakeUpComing, WaitersBlocked, Enabled, Apply;
    ConservedStep(s, a);
    OnTimeStep(s, a);
    CountedStep(s, a);
    OneSleeperStep(s, a);
    SleeperInTimeStep(s, a);
    WakeUpComingStep(s, a);
    WaitersStep(s, a);
  }

  lemma {:induction false} AllStarting(n: nat)
    ensures CountOutside(seq(n, _ => Starting)) == n
  {
    if n > 0 {
      assert seq(n, _ => Starting)[1..] == seq(n - 1, _ => Starting);
      AllStarting(n - 1);
    }
  }

  lemma InvInit(n: nat, m: nat, now: int)
    ensures Inv(Init(n, m, now))
  {
    AllStarting(n);
  }

  lemma StepOf(n: nat, m: nat, run: seq<Pool>, u: nat) returns (a: Action)
    requires IsRun(n, m, run) && 0 < u < |run|
    ensures Enabled(run[u - 1], a) && run[u] == Apply(run[u - 1], a)
  {
    hide Enabled, Apply;
    var t := u - 1;
    assert CanStep(run[t], run[t + 1]);
    a :| Enabled(run[t], a) && run[u] == Apply(run[t], a);
  }

  /** The invariant holds in every state of every run, for any number of workers. */
  lemma {:induction false} RunKeepsInv(n: nat, m: nat, run: seq<Pool>, t: nat)
    requires IsRun(n, m, run) && t < |run|
    ensures Inv(run[t]) && |run[t].pcs| == n
    decreases t
  {
    if t == 0 {
      InvInit(n, m, run[0].now);
    } else {
      RunKeepsInv(n, m, run, t - 1);
      hide Inv, IsRun, Enabled, Apply;
      var a := StepOf(n, m, run, t);
      InvStep(run[t - 1], a);
      SizeStep(run[t - 1], a);
    }
  }

  lemma SizeStep(s: Pool, a: Action)
    requires Enabled(s, a)
    ensures |Apply(s, a).pcs| == |s.pcs|
  {
  }

  /**
   No lost wake-ups: with queued work and a worker blocked on cv_, a sleeper will wake in time or is being woken, or an
   awake worker will look at the queue, or a notify on cv_ is still to be delivered.
   */
  lemma NoLostWakeUps(n: nat, m: nat, run: seq<Pool>, t: nat, i: nat)
    requires IsRun(n, m, run) && t < |run| && i < n
    requires |run[t].pcs| == n && run[t].work != {} && run[t].pcs[i] == OnCv
    ensures var s := run[t];
      || s.cvTokens > 0
      || (exists j :: 0 <= j < n && (s.pcs[j] == FromCv || s.pcs[j] == FromSleeper || s.pcs[j].Notifying?))
      || (exists j :: 0 <= j < n && s.pcs[j].OnSleeper? &&
            (s.sleeperTokens > 0 || forall w :: w in s.work ==> s.pcs[j].until <= w.t))
  {
    RunKeepsInv(n, m, run, t);
    var s := run[t];
    if s.haveSleeper {
      var j :| 0 <= j < n && Asleep(s.pcs[j]);
      if s.pcs[j].OnSleeper? {
        assert s.sleeperTokens > 0 || forall w :: w in s.work ==> s.pcs[j].until <= w.t;
      }
    }
  }

  lemma ReturnMeansIdle(s: Pool, a: Action, k: nat)
    requires Enabled(s, a) && k < |s.waiters| && s.waiters[k] != Returned && Apply(s, a).waiters[k] == Returned
    ensures Idle(s)
  {
  }

  lemma NobodyHolds(s: Pool, x: int)
    requires s.work == {} && forall i :: 0 <= i < |s.pcs| ==> !Outside(s.pcs[i])
    ensures !Queued(s, x) && !Held(s, x)
  {
  }

  /** Wait returns only when everything scheduled so far has finished. */
  lemma WaitReturnsWhenDone(n: nat, m: nat, run: seq<Pool>, t: nat, a: Action, k: nat)
    requires IsRun(n, m, run) && t < |run| && Enabled(run[t], a) && k < |run[t].waiters|
    requires run[t].waiters[k] != Returned && Apply(run[t], a).waiters[k] == Returned
    ensures run[t].work == {} && (forall i :: 0 <= i < |run[t].pcs| ==> !Outside(run[t].pcs[i]))
    ensures forall x :: 1 <= x <= run[t].lastIdx ==> x in run[t].finished
  {
    RunKeepsInv(n, m, run, t);
    var s := run[t];
    ReturnMeansIdle(s, a, k);
    hide Enabled, Apply, OnTime, OneSleeper, SleeperInTime, WakeUpComing, WaitersBlocked;
    CountZero(s.pcs);
    forall x | 1 <= x <= s.lastIdx ensures x in s.finished {
      NobodyHolds(s, x);
    }
  }

  /** Wait misses no idle notification: whenever the pool is idle, no caller of Wait is left blocked. */
  lemma NoMissedIdle(n: nat, m: nat, run: seq<Pool>, t: nat)
    requires IsRun(n, m, run) && t < |run| && Idle(run[t])
    ensures forall k :: 0 <= k < |run[t].waiters| ==> run[t].waiters[k] != OnIdle
  {
    RunKeepsInv(n, m, run, t);
  }

  /** No overtaking: of two items in the queue together, the one that comes first in (t, idx) leaves it first. */
  lemma {:induction false} NoOvertaking(n: nat, m: nat, run: seq<Pool>, t: nat, u: nat, a: Work, b: Work)
    requires IsRun(n, m, run) && t <= u < |run|
    requires a in run[t].work && b in run[t].work && a in run[u].work
    requires a.t < b.t || (a.t == b.t && a.idx < b.idx)
    ensures b in run[u].work
    decreases u
  {
    hide *;
    if t < u {
      var act := StepOf(n, m, run, u);
      if a !in run[u - 1].work {
        StaysOut(n, m, run, t, u - 1, a);
      } else {
        NoOvertaking(n, m, run, t, u - 1, a, b);
        OnlyTopLeaves(run[u - 1], act, a, b);
      }
    }
  }

  lemma OnlyTopLeaves(s: Pool, act: Action, a: Work, b: Work)
    requires Enabled(s, act) && a in s.work && b in s.work && a in Apply(s, act).work
    requires a.t < b.t || (a.t == b.t && a.idx < b.idx)
    ensures b in Apply(s, act).work
  {
  }

  /** A step adds to the queue only the item with the next index. */
  lemma QueueStep(s: Pool, act: Action, a: Work)
    requires Enabled(s, act)
    ensures a in Apply(s, act).work ==> a in s.work || a.idx == s.lastIdx + 1
    ensures s.lastIdx <= Apply(s, act).lastIdx
  {
  }

  lemma {:induction false} IndexGrows(n: nat, m: nat, run: seq<Pool>, t: nat, u: nat)
    requires IsRun(n, m, run) && t <= u < |run|
    ensures run[t].lastIdx <= run[u].lastIdx
    decreases u
  {
    hide *;
    if t < u {
      IndexGrows(n, m, run, t, u - 1);
      var act := StepOf(n, m, run, u);
      QueueStep(run[u - 1], act, Work(0, 0));
    }
  }

  /** An item that has left the queue does not come back. */
  lemma StaysOut(n: nat, m: nat, run: seq<Pool>, t: nat, u: nat, a: Work)
    requires IsRun(n, m, run) && t <= u && u + 1 < |run| && a in run[t].work && a !in run[u].work
    ensures a !in run[u + 1].work
  {
    RunKeepsInv(n, m, run, t);
    IndexGrows(n, m, run, t, u);
    assert Queued(run[t], a.idx);
    hide IsRun, Enabled, Apply;
    var act := StepOf(n, m, run, u + 1);
    QueueStep(run[u], act, a);
  }

  /** A function starts once, at or after its time, and never runs on two workers. */
  lemma StartsOnceOnTime(n: nat, m: nat, run: seq<Pool>, t: nat, i: nat)
    requires IsRun(n, m, run) && t < |run| && i < |run[t].pcs| && (run[t].pcs[i].Running? || run[t].pcs[i].Notifying?)
    ensures var s, x := run[t], run[t].pcs[i].w.idx;
            && x in s.started && x in s.due && s.due[x] <= s.started[x] <= s.now
            && x !in s.finished && !Queued(s, x)
            && forall j :: 0 <= j < |s.pcs| && Holds(s.pcs[j], x) ==> j == i
  {
    RunKeepsInv(n, m, run, t);
    assert Holds(run[t].pcs[i], run[t].pcs[i].w.idx);
    assert Held(run[t], run[t].pcs[i].w.idx);
  }

  /* ---- queued work always starts ---- */

  /**
   Steps that the pool takes by itself: no new work, no new calls, no spurious wake-ups; functions return, and only the
   clock moves outside the pool.
   */
  ghost predicate Internal(a: Action) {
    || a.Tick? || a.DeliverCv? || a.DeliverSleeper? || a.WorkerNotify? || a.EnterNext? || a.AfterCv? || a.AfterSleeper?
    || a.Timeout? || a.WakeWait?
  }

  ghost predicate Reaches(s: Pool, acts: seq<Action>, s': Pool)
    decreases |acts|
  {
    if acts == [] then s' == s
    else Internal(acts[0]) && Enabled(s, acts[0]) && Reaches(Apply(s, acts[0]), acts[1..], s')
  }

  lemma {:induction false} TopExists(work: set<Work>) returns (top: Work)
    requires work != {} && forall v, w :: v in work && w in work && v.idx == w.idx ==> v == w
    ensures IsTop(work, top)
  {
    var w :| w in work;
    if work == {w} {
      top := w;
    } else {
      var rest := work - {w};
      assert work == rest + {w};
      var r := TopExists(rest);
      top := if Before(w, r) then w else r;
    }
  }

  /** A worker that holds the mutex when the earliest item is due takes it. */
  lemma TakesTop(s: Pool, a: Action, top: Work)
    requires Enabled(s, a) && IsTop(s.work, top) && top.t <= s.now
    requires a.EnterNext? || a.AfterCv? || a.AfterSleeper?
    requires a.top == top
    ensures Held(Apply(s, a), top.idx) && top !in Apply(s, a).work
  {
    var s' := Apply(s, a);
    assert Holds(s'.pcs[a.i], top.idx);
  }

  lemma OneAction(s: Pool, a: Action)
    requires Internal(a) && Enabled(s, a)
    ensures Reaches(s, [a], Apply(s, a))
  {
    assert [a][1..] == [];
  }

  lemma TwoActions(s: Pool, a: Action, b: Action)
    requires Internal(a) && Enabled(s, a) && Internal(b) && Enabled(Apply(s, a), b)
    ensures Reaches(s, [a, b], Apply(Apply(s, a), b))
  {
    assert [a, b][1..] == [b];
    OneAction(Apply(s, a), b);
  }

  /** Once the earliest item is due, one or two internal steps start it. */
  lemma DueWorkStarts(s: Pool, top: Work) returns (acts: seq<Action>, s': Pool)
    requires Inv(s) && |s.pcs| > 0 && IsTop(s.work, top) && top.t <= s.now
    ensures |acts| <= 2 && Reaches(s, acts, s') && Held(s', top.idx) && top !in s'.work
  {
    var a: Action;
    var i: nat := 0;
    if k :| 0 <= k < |s.pcs| && (s.pcs[k].Starting? || s.pcs[k].Running?) {
      a := EnterNext(k, top);
    } else if k :| 0 <= k < |s.pcs| && s.pcs[k] == FromCv {
      a := AfterCv(k, top);
    } else if k :| 0 <= k < |s.pcs| && s.pcs[k] == FromSleeper {
      a := AfterSleeper(k, top);
    } else {
      var b;
      b, a := WakeFirst(s, top);
      TwoActions(s, b, a);
      TakesTop(Apply(s, b), a, top);
      acts, s' := [b, a], Apply(Apply(s, b), a);
      return;
    }
    OneAction(s, a);
    TakesTop(s, a, top);
    acts, s' := [a], Apply(s, a);
  }

  /** When every worker is blocked or about to notify, some wake-up is possible. */
  lemma WakeFirst(s: Pool, top: Work) returns (b: Action, a: Action)
    requires Inv(s) && |s.pcs| > 0 && IsTop(s.work, top) && top.t <= s.now
    requires forall k :: 0 <= k < |s.pcs| ==> s.pcs[k].Notifying? || s.pcs[k] == OnCv || s.pcs[k].OnSleeper?
    ensures Internal(b) && Enabled(s, b) && Internal(a) && Enabled(Apply(s, b), a)
    ensures (a.EnterNext? || a.AfterCv? || a.AfterSleeper?) && a.top == top
    ensures Apply(s, b).work == s.work && Apply(s, b).now == s.now
  {
    if k :| 0 <= k < |s.pcs| && s.pcs[k].Notifying? {
      if j :| 0 <= j < |s.pcs| && s.pcs[j] == OnCv {
        b := WorkerNotify(k, j);
      } else {
        b := WorkerNotify(k, -1);
      }
      a := EnterNext(k, top);
    } else if k :| 0 <= k < |s.pcs| && s.pcs[k].OnSleeper? {
      a := AfterSleeper(k, top);
      if s.pcs[k].until <= s.now {
        b := Timeout(k);
      } else {
        b := DeliverSleeper(k);
      }
    } else {
      assert s.pcs[0] == OnCv;
      b := DeliverCv(0);
      a := AfterCv(0, top);
    }
  }

  /**
   Queued work is never stranded: from every reachable state of a pool with at least one worker, letting the clock
   reach the earliest item's time and at most two further steps of the pool itself start that item.
   */
  lemma QueuedWorkStarts(n: nat, m: nat, run: seq<Pool>, t: nat) returns (top: Work, acts: seq<Action>, s': Pool)
    requires IsRun(n, m, run) && t < |run| && n > 0 && run[t].work != {}
    ensures IsTop(run[t].work, top) && |acts| <= 3 && Reaches(run[t], acts, s') && Held(s', top.idx)
  {
    RunKeepsInv(n, m, run, t);
    var s := run[t];
    top := TopExists(s.work);
    var tick := Tick(if top.t < s.now then s.now else top.t);
    InvStep(s, tick);
    var rest;
    rest, s' := DueWorkStarts(Apply(s, tick), top);
    acts := [tick] + rest;
    assert acts[1..] == rest;
  }

  /* ---- the time given to Schedule ---- */

  /** What has become of function x, scheduled for time t. */
  ghost predicate Fate(s: Pool, t: int, x: int) {
    && x <= s.lastIdx
    && (Work(t, x) in s.work || ((Held(s, x) || x in s.finished) && s.now >= t))
    && (x in s.started ==> s.started[x] >= t)
  }

  lemma FateQueued(s: Pool, t: int)
    requires Conserved(s) && OnTime(s)
    ensures Fate(Apply(s, Schedule(t)), t, s.lastIdx + 1)
  {
  }

  lemma FateRecheck(s: Pool, i: nat, top: Work, t: int, x: int)
    requires Conserved(s) && Fate(s, t, x) && i < |s.pcs| && !Outside(s.pcs[i]) && TopArgument(s, top)
    ensures Fate(Recheck(s, i, top), t, x)
  {
    var s' := Recheck(s, i, top);
    if s.work != {} && top.t <= s.now && top.idx == x {
      assert Queued(s, x);
      assert Holds(s'.pcs[i], x);
    } else if Held(s, x) {
      var j :| 0 <= j < |s.pcs| && Holds(s.pcs[j], x);
      assert Holds(s'.pcs[j], x);
    }
  }

  lemma FateLeave(s: Pool, i: nat, t: int, x: int)
    requires Fate(s, t, x) && i < |s.pcs| && (s.pcs[i].Starting? || s.pcs[i].Running?)
    ensures Fate(Leave(s, i), t, x)
  {
    if Held(s, x) {
      var j :| 0 <= j < |s.pcs| && Holds(s.pcs[j], x);
      assert j != i ==> Holds(Leave(s, i).pcs[j], x);
    }
  }

  lemma FateOther(s: Pool, s': Pool, t: int, x: int)
    requires Fate(s, t, x) && s'.lastIdx >= s.lastIdx && s.work <= s'.work && s'.finished == s.finished
    requires s'.started == s.started && s'.now >= s.now
    requires |s'.pcs| == |s.pcs| && forall i :: 0 <= i < |s.pcs| && Holds(s.pcs[i], x) ==> Holds(s'.pcs[i], x)
    ensures Fate(s', t, x)
  {
    if Held(s, x) {
      var j :| 0 <= j < |s.pcs| && Holds(s.pcs[j], x);
      assert Holds(s'.pcs[j], x);
    }
  }

  lemma FateEnter(s: Pool, i: nat, top: Work, t: int, x: int)
    requires Conserved(s) && Fate(s, t, x) && i < |s.pcs| && (s.pcs[i].Starting? || s.pcs[i].Running?) && TopArgument(s, top)
    ensures Fate(Recheck(Leave(s, i), i, top), t, x)
  {
    hide Conserved, Fate, IsTop, Recheck;
    ConservedLeave(s, i);
    FateLeave(s, i, t, x);
    FateRecheck(Leave(s, i), i, top, t, x);
  }

  lemma FateStep(s: Pool, a: Action, t: int, x: int)
    requires Conserved(s) && Fate(s, t, x) && Enabled(s, a)
    ensures Fate(Apply(s, a), t, x)
  {
    hide Conserved, Fate, IsTop, Recheck, Leave, Idle;
    match a
    case EnterNext(i, top) => FateEnter(s, i, top, t, x);
    case AfterCv(i, top) => FateRecheck(s, i, top, t, x);
    case AfterSleeper(i, top) =>
      ConservedSame(s, s.(haveSleeper := false));
      FateOther(s, s.(haveSleeper := false), t, x);
      FateRecheck(s.(haveSleeper := false), i, top, t, x);
    case _ => FateOther(s, Apply(s, a), t, x);
  }

  /**
   A function given to Schedule(t) gets the next index and stays queued with that time until a worker takes it, which
   happens at time t or later: in every later state it is queued, or it is held or finished and the clock has reached t,
   and its recorded start is not before t.
   */
  lemma {:induction false} NeverEarly(n: nat, m: nat, run: seq<Pool>, u: nat, t: int, v: nat)
    requires IsRun(n, m, run) && u < v < |run| && run[u + 1] == Apply(run[u], Schedule(t))
    ensures var s, x := run[v], run[u].lastIdx + 1;
            && (Work(t, x) in s.work || ((Held(s, x) || x in s.finished) && s.now >= t))
            && (x in s.started ==> s.started[x] >= t)
    ensures Fate(run[v], t, run[u].lastIdx + 1)
    decreases v
  {
    hide Inv, Enabled, Apply, IsRun, Conserved, OnTime, Held;
    if v == u + 1 {
      RunKeepsInv(n, m, run, u);
      InvParts(run[u]);
      FateQueued(run[u], t);
    } else {
      NeverEarly(n, m, run, u, t, v - 1);
      RunKeepsInv(n, m, run, v - 1);
      InvParts(run[v - 1]);
      var a := StepOf(n, m, run, v);
      FateStep(run[v - 1], a, t, run[u].lastIdx + 1);
    }
  }

  lemma InvParts(s: Pool)
    requires Inv(s)
    ensures Conserved(s) && OnTime(s) && Counted(s) && WaitersBlocked(s)
  {
  }

  /** A worker goes to sleep only until the time of the earliest item, and only when that lies ahead. */
  lemma SleepsUntilEarliest(s: Pool, a: Action, i: nat)
    requires Enabled(s, a) && i < |s.pcs| && !s.pcs[i].OnSleeper? && Apply(s, a).pcs[i].OnSleeper?
    ensures exists w :: w in s.work && w.t == Apply(s, a).pcs[i].until && s.now < w.t && forall v :: v in s.work ==> w.t <= v.t
  {
    assert a.EnterNext? || a.AfterCv? || a.AfterSleeper?;
    assert a.top in s.work;
  }

  /* ---- Wait returns ---- */

  /** A caller that waits for the pool to become idle. */
  ghost predicate Blocked(w: WaitPc) { w == OnIdle || w == FromIdle }

  /** Whenever the pool is idle, a caller's own next step lets Wait return. */
  lemma IdleCallerReturns(n: nat, m: nat, run: seq<Pool>, t: nat, k: nat)
    requires IsRun(n, m, run) && t < |run| && Idle(run[t]) && k < |run[t].waiters|
    ensures Blocked(run[t].waiters[k]) ==>
              Enabled(run[t], WakeWait(k)) && Apply(run[t], WakeWait(k)).waiters[k] == Returned
    ensures run[t].waiters[k] == Elsewhere ==>
              Enabled(run[t], CallWait(k)) && Apply(run[t], CallWait(k)).waiters[k] == Returned
  {
    NoMissedIdle(n, m, run, t);
  }

  /** Internal steps only drain the queue, and no caller of Wait is lost. */
  ghost predicate Progress(s: Pool, s': Pool) {
    && s'.work <= s.work && s'.lastIdx == s.lastIdx && |s'.pcs| == |s.pcs| && |s'.waiters| == |s.waiters|
    && forall k :: 0 <= k < |s.waiters| ==>
         && (Blocked(s.waiters[k]) ==> Blocked(s'.waiters[k]) || s'.waiters[k] == Returned)
         && (s.waiters[k] == Returned ==> s'.waiters[k] == Returned)
  }

  lemma ProgressStep(s: Pool, a: Action)
    requires Enabled(s, a) && Internal(a)
    ensures Progress(s, Apply(s, a))
  {
    hide IsTop;
  }

  lemma ProgressTwice(s: Pool, s1: Pool, s2: Pool)
    requires Progress(s, s1) && Progress(s1, s2)
    ensures Progress(s, s2)
  {
  }

  lemma {:induction false} ReachesKeeps(s: Pool, acts: seq<Action>, s': Pool)
    requires Inv(s) && Reaches(s, acts, s')
    ensures Inv(s') && Progress(s, s')
    decreases |acts|
  {
    hide Inv, Enabled, Apply, Internal;
    if acts != [] {
      hide Progress;
      InvStep(s, acts[0]);
      ProgressStep(s, acts[0]);
      ReachesKeeps(Apply(s, acts[0]), acts[1..], s');
      ProgressTwice(s, Apply(s, acts[0]), s');
    }
  }

  lemma {:induction false} ReachesTwice(s: Pool, a: seq<Action>, s1: Pool, b: seq<Action>, s2: Pool)
    requires Reaches(s, a, s1) && Reaches(s1, b, s2)
    ensures Reaches(s, a + b, s2)
    decreases |a|
  {
    hide Enabled, Apply, Internal;
    if a == [] {
      assert a + b == b;
    } else {
      ReachesTwice(Apply(s, a[0]), a[1..], s1, b, s2);
      assert (a + b)[1..] == a[1..] + b;
    }
  }

  /** One item fewer. */
  lemma TakeOne(s: Pool) returns (acts: seq<Action>, s': Pool)
    requires Inv(s) && |s.pcs| > 0 && s.work != {}
    ensures Reaches(s, acts, s') && |s'.work| < |s.work|
  {
    UniqueItems(s);
    hide Inv;
    var top := TopExists(s.work);
    var tick := Tick(if top.t < s.now then s.now else top.t);
    InvStep(s, tick);
    var rest;
    rest, s' := DueWorkStarts(Apply(s, tick), top);
    acts := [tick] + rest;
    assert acts[1..] == rest;
    ReachesKeeps(s, acts, s');
    SmallerSet(s'.work, s.work, top);
  }

  lemma UniqueItems(s: Pool)
    requires Inv(s)
    ensures forall v, w :: v in s.work && w in s.work && v.idx == w.idx ==> v == w
  {
  }

  lemma SmallerSet(a: set<Work>, b: set<Work>, x: Work)
    requires a <= b && x in b && x !in a
    ensures |a| < |b|
  {
    assert a <= b - {x};
    SubsetSize(a, b - {x});
  }

  lemma {:induction false} SubsetSize(a: set<Work>, b: set<Work>)
    requires a <= b
    ensures |a| <= |b|
  {
    if x :| x in a { SubsetSize(a - {x}, b - {x}); }
  }

  lemma {:induction false} EmptyQueue(s: Pool) returns (acts: seq<Action>, s': Pool)
    requires Inv(s) && (|s.pcs| > 0 || s.work == {})
    ensures Reaches(s, acts, s') && s'.work == {}
    decreases |s.work|
  {
    if s.work == {} {
      acts, s' := [], s;
    } else {
      hide Inv, Reaches;
      var a, s1 := TakeOne(s);
      ReachesKeeps(s, a, s1);
      var b;
      b, s' := EmptyQueue(s1);
      ReachesTwice(s, a, s1, b, s');
      acts := a + b;
    }
  }

  /** Steps until every function has returned: two for a worker about to notify. */
  ghost function Busy(pcs: seq<Pc>): nat {
    if pcs == [] then 0
    else Busy(pcs[1..]) + if pcs[0].Notifying? then 2 else if pcs[0].Starting? || pcs[0].Running? then 1 else 0
  }

  lemma {:induction false} BusyUpdate(pcs: seq<Pc>, i: nat, pc: Pc)
    requires i < |pcs|
    ensures Busy(pcs[i := pc]) == Busy(pcs) - Busy([pcs[i]]) + Busy([pc])
  {
    assert [pc][1..] == [] && [pcs[i]][1..] == [];
    if i == 0 {
      assert pcs[0 := pc][1..] == pcs[1..];
    } else {
      assert pcs[i := pc][1..] == pcs[1..][i - 1 := pc];
      BusyUpdate(pcs[1..], i - 1, pc);
    }
  }

  /** With an empty queue, a worker outside Next comes one step closer to waiting. */
  lemma OneLessBusy(s: Pool, i: nat) returns (a: Action)
    requires s.work == {} && i < |s.pcs| && Outside(s.pcs[i])
    ensures Internal(a) && Enabled(s, a) && Busy(Apply(s, a).pcs) < Busy(s.pcs)
  {
    if s.pcs[i].Notifying? {
      if j :| 0 <= j < |s.pcs| && s.pcs[j] == OnCv {
        a := WorkerNotify(i, j);
        BusyUpdate(s.pcs, j, FromCv);
        BusyUpdate(s.pcs[j := FromCv], i, Running(s.pcs[i].w));
      } else {
        a := WorkerNotify(i, -1);
        BusyUpdate(s.pcs, i, Running(s.pcs[i].w));
      }
    } else {
      a := EnterNext(i, Work(0, 0));
      BusyUpdate(s.pcs, i, OnCv);
      assert s.pcs[i := FromCv][i := OnCv] == s.pcs[i := OnCv];
    }
  }

  lemma {:induction false} FinishAll(s: Pool) returns (acts: seq<Action>, s': Pool)
    requires Inv(s) && s.work == {}
    ensures Reaches(s, acts, s') && Idle(s')
    decreases Busy(s.pcs)
  {
    if i :| 0 <= i < |s.pcs| && Outside(s.pcs[i]) {
      hide Inv, Enabled, Apply, Busy, Internal, Reaches;
      var a := OneLessBusy(s, i);
      InvStep(s, a);
      OneAction(s, a);
      ReachesKeeps(s, [a], Apply(s, a));
      var b;
      b, s' := FinishAll(Apply(s, a));
      ReachesTwice(s, [a], Apply(s, a), b, s');
      acts := [a] + b;
    } else {
      acts, s' := [], s;
      CountZero(s.pcs);
    }
  }

  /** In an idle pool every woken caller returns. */
  lemma {:induction false} ReturnAll(s: Pool, k: nat) returns (acts: seq<Action>, s': Pool)
    requires Idle(s) && k <= |s.waiters| && forall j :: 0 <= j < k ==> s.waiters[j] != FromIdle
    ensures Reaches(s, acts, s') && Idle(s') && forall j :: 0 <= j < |s'.waiters| ==> s'.waiters[j] != FromIdle
    decreases |s.waiters| - k
  {
    if k == |s.waiters| {
      acts, s' := [], s;
    } else if s.waiters[k] == FromIdle {
      hide IsTop;
      var a := WakeWait(k);
      OneAction(s, a);
      var b;
      b, s' := ReturnAll(Apply(s, a), k + 1);
      ReachesTwice(s, [a], Apply(s, a), b, s');
      acts := [a] + b;
    } else {
      acts, s' := ReturnAll(s, k + 1);
    }
  }

  lemma NobodyBlocked(s: Pool, s': Pool, k: nat)
    requires Inv(s') && Idle(s') && Progress(s, s') && k < |s.waiters| && Blocked(s.waiters[k])
    requires forall j :: 0 <= j < |s'.waiters| ==> s'.waiters[j] != FromIdle
    ensures s'.waiters[k] == Returned
  {
    hide Conserved, OnTime, Counted, OneSleeper, SleeperInTime, WakeUpComing;
  }

  lemma AllFinished(s: Pool, x: int)
    requires Inv(s) && Idle(s) && 1 <= x <= s.lastIdx
    ensures x in s.finished
  {
    hide OnTime, OneSleeper, SleeperInTime, WakeUpComing, WaitersBlocked;
    CountZero(s.pcs);
    NobodyHolds(s, x);
  }

  /**
   Wait returns: from every reachable state of a pool with a worker (or nothing queued), steps of the pool itself empty the queue,
   let every function return and take each caller that waits to its return.
   */
  lemma WaitReturns(n: nat, m: nat, run: seq<Pool>, t: nat) returns (acts: seq<Action>, s': Pool)
    requires IsRun(n, m, run) && t < |run| && (n > 0 || run[t].work == {})
    ensures Reaches(run[t], acts, s') && s'.work == {} && s'.inflight == 0 && |s'.waiters| == |run[t].waiters|
    ensures forall k :: 0 <= k < |run[t].waiters| && Blocked(run[t].waiters[k]) ==> s'.waiters[k] == Returned
    ensures forall x :: 1 <= x <= run[t].lastIdx ==> x in s'.finished
  {
    hide Inv, Reaches, IsRun, Blocked;
    RunKeepsInv(n, m, run, t);
    var s := run[t];
    var a, s1 := EmptyQueue(s);
    ReachesKeeps(s, a, s1);
    var b, s2 := FinishAll(s1);
    ReachesTwice(s, a, s1, b, s2);
    var c;
    c, s' := ReturnAll(s2, 0);
    acts := a + b + c;
    ReachesTwice(s, a + b, s2, c, s');
    ReachesKeeps(s, acts, s');
    forall k | 0 <= k < |s.waiters| && Blocked(s.waiters[k]) ensures s'.waiters[k] == Returned { NobodyBlocked(s, s', k); }
    forall x | 1 <= x <= s.lastIdx ensures x in s'.finished { AllFinished(s', x); }
  }
}
