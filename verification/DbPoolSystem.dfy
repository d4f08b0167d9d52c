/** All interleavings of the threads that get and release database connections. One step is one region
    run under the pool's mutex (src/server/db_pool.c lines 155-269). */
module DbPoolSystem {
  import opened Basics
  import opened DbPool

  /** `Asking` is about to lock and scan; `Woken` has been signalled (or woke for no reason) and will
      scan again; `Holding` owns a connection. */
  datatype Thread = Idle | Asking | Asleep | Woken | Holding(handle: nat)

  datatype System = System(pool: PoolState, threads: seq<Thread>)

  datatype Step =
    | Ask(t: nat)
    | Rescan(t: nat, answering: set<nat>, created: Option<nat>)
    | Spurious(t: nat)
    | TimeOut(t: nat)
    | LateTimeOut(t: nat)
    | GiveBack(t: nat, woken: set<nat>)

  predicate IsAsleep(th: Thread) { th.Asleep? }

  predicate IsWoken(th: Thread) { th.Woken? }

  ghost function Initial(pool: PoolState, threads: nat): System {
    System(pool, seq(threads, i => Idle))
  }

  /** A signal wakes at least one sleeper when there is one. A wait that times out may have consumed a
      signal (`LateTimeOut`; POSIX.1-2017, pthread_cond_timedwait, allows it); the getter then leaves
      without looking at the slots again. */
  ghost predicate Enabled(s: System, step: Step) {
    && step.t < |s.threads|
    && match step
       case Ask(t) => s.threads[t] == Idle
       case Rescan(t, answering, created) =>
         && (s.threads[t] == Asking || s.threads[t] == Woken)
         && FreshHandle(Scan(s.pool.slots, 0, answering).0, created)
       case Spurious(t) => s.threads[t] == Asleep
       case TimeOut(t) => s.threads[t] == Asleep
       case LateTimeOut(t) => s.threads[t] == Woken
       case GiveBack(t, woken) =>
         && s.threads[t].Holding?
         && (forall i :: i in woken ==> i < |s.threads| && s.threads[i] == Asleep)
         && ((exists i :: 0 <= i < |s.threads| && s.threads[i] == Asleep) ==> woken != {})
  }

  ghost function Wake(threads: seq<Thread>, woken: set<nat>): (r: seq<Thread>)
    ensures |r| == |threads|
    ensures forall i :: 0 <= i < |threads| ==> r[i] == if i in woken then Woken else threads[i]
  {
    seq(|threads|, i requires 0 <= i < |threads| => if i in woken then Woken else threads[i])
  }

  ghost function Next(s: System, step: Step): System
    requires Enabled(s, step)
  {
    match step
    case Ask(t) => s.(threads := s.threads[t := Asking])
    case Rescan(t, answering, created) =>
      var (pool, got) := Round(s.pool, answering, created);
      System(pool, s.threads[t := if got.Some? then Holding(got.value) else Asleep])
    case Spurious(t) => s.(threads := s.threads[t := Woken])
    case TimeOut(t) => s.(threads := s.threads[t := Idle])
    case LateTimeOut(t) => s.(threads := s.threads[t := Idle])
    case GiveBack(t, woken) =>
      System(Released(s.pool, s.threads[t].handle), Wake(s.threads[t := Idle], woken))
  }

  /* ---------- the invariant ---------- */

  /** Each in-use slot has exactly one holder, and each holder has its slot. */
  ghost predicate Owned(s: System) {
    && (forall t :: 0 <= t < |s.threads| && s.threads[t].Holding? ==> Live(s.threads[t].handle, true) in s.pool.slots)
    && (forall t, u :: 0 <= t < u < |s.threads| && s.threads[t].Holding? ==> s.threads[t] != s.threads[u])
    && (forall i :: 0 <= i < |s.pool.slots| && IsInUse(s.pool.slots[i]) ==> Holding(s.pool.slots[i].handle) in s.threads)
  }

  /** While a thread sleeps in the timed wait, every free connection has a woken thread of its own that
      has not scanned yet. */
  ghost predicate NoLostWakeup(s: System) {
    Count(s.threads, IsAsleep) > 0 ==> Count(s.pool.slots, IsFree) <= Count(s.threads, IsWoken)
  }

  /** What every step keeps. */
  ghost predicate Inv(s: System) {
    Accounted(s.pool) && Owned(s)
  }

  /** Init leaves free connections only, so no thread holds anything. */
  lemma InitialInv(max: nat, min: int, created: seq<nat>, threads: nat)
    requires min <= max && NoDuplicates(created)
    ensures Inv(Initial(Opened(max, min, created), threads)) && NoLostWakeup(Initial(Opened(max, min, created), threads))
  {
    OpenedAccounts(max, min, created);
    CountZero(Initial(Opened(max, min, created), threads).threads, IsAsleep);
  }

  /** A release by a holder finds its slot, frees just that one, and keeps the accounts. */
  lemma HolderReleases(s: System, t: nat) returns (k: nat)
    requires Inv(s) && t < |s.threads| && s.threads[t].Holding?
    ensures k < |s.pool.slots| && s.pool.slots[k] == Live(s.threads[t].handle, true)
    ensures Released(s.pool, s.threads[t].handle) ==
      s.pool.(slots := s.pool.slots[k := Live(s.threads[t].handle, false)], inUseCount := s.pool.inUseCount - 1)
    ensures Accounted(Released(s.pool, s.threads[t].handle))
  {
    var h := s.threads[t].handle;
    k := Find(s.pool.slots, h, 0);
    var i :| 0 <= i < |s.pool.slots| && s.pool.slots[i] == Live(h, true);
    assert k == i;
    ReleaseKeepsAccountsIff(s.pool, h);
  }

  lemma KeepsAccounts(s: System, step: Step)
    requires Inv(s) && Enabled(s, step)
    ensures Accounted(Next(s, step).pool)
  {
    match step {
      case Rescan(t, answering, created) => RoundAccounting(s.pool, answering, created);
      case GiveBack(t, _) => var _ := HolderReleases(s, t);
      case _ =>
    }
  }

  lemma KeepsOwned(s: System, step: Step)
    requires Inv(s) && Enabled(s, step)
    ensures Owned(Next(s, step))
  {
    match step {
      case Rescan(_, _, _) => RescanOwned(s, step);
      case GiveBack(_, _) => GiveBackOwned(s, step);
      case _ => SameHolders(s, Next(s, step));
    }
  }

  lemma SameHolders(s: System, n: System)
    requires Owned(s) && |n.threads| == |s.threads| && n.pool == s.pool
    requires forall t :: 0 <= t < |s.threads| && (s.threads[t].Holding? || n.threads[t].Holding?) ==> n.threads[t] == s.threads[t]
    ensures Owned(n)
  {
    forall i | 0 <= i < |n.pool.slots| && IsInUse(n.pool.slots[i])
      ensures Holding(n.pool.slots[i].handle) in n.threads
    {
      var t :| 0 <= t < |s.threads| && s.threads[t] == Holding(s.pool.slots[i].handle);
      assert n.threads[t] == s.threads[t];
    }
  }

  lemma RescanOwned(s: System, step: Step)
    requires Inv(s) && Enabled(s, step) && step.Rescan?
    ensures Owned(Next(s, step))
  {
    var n, t := Next(s, step), step.t;
    RoundAccounting(s.pool, step.answering, step.created);
    var got := Round(s.pool, step.answering, step.created).1;
    forall u | 0 <= u < |n.threads| && n.threads[u].Holding?
      ensures n.threads[u].handle == n.threads[u].handle && Live(n.threads[u].handle, true) in n.pool.slots
      ensures u != t && got.Some? ==> n.threads[u].handle != got.value
    {
      if u != t {
        var i :| 0 <= i < |s.pool.slots| && s.pool.slots[i] == Live(s.threads[u].handle, true);
        assert n.pool.slots[i] == s.pool.slots[i];
      }
    }
    forall i | 0 <= i < |n.pool.slots| && IsInUse(n.pool.slots[i])
      ensures Holding(n.pool.slots[i].handle) in n.threads
    {
      if got.Some? && n.pool.slots[i].handle == got.value {
        assert n.threads[t] == Holding(got.value);
      } else {
        InUseWasInUse(s, step, i);
        var u :| 0 <= u < |s.threads| && s.threads[u] == Holding(s.pool.slots[i].handle);
        assert n.threads[u] == s.threads[u];
      }
    }
  }

  /** A connection in use after a round and not the one handed out was in use before. */
  lemma InUseWasInUse(s: System, step: Step, i: nat)
    requires Inv(s) && Enabled(s, step) && step.Rescan?
    requires var n := Next(s, step); i < |n.pool.slots| && IsInUse(n.pool.slots[i])
    requires Round(s.pool, step.answering, step.created).1 != Some(Next(s, step).pool.slots[i].handle)
    ensures i < |s.pool.slots| && s.pool.slots[i] == Next(s, step).pool.slots[i]
  {
    ScanRescans(s.pool.slots, 0, step.answering);
  }

  lemma GiveBackOwned(s: System, step: Step)
    requires Inv(s) && Enabled(s, step) && step.GiveBack?
    ensures Owned(Next(s, step))
  {
    var n, t := Next(s, step), step.t;
    var h := s.threads[t].handle;
    var k := HolderReleases(s, t);
    assert forall u :: 0 <= u < |s.threads| && n.threads[u].Holding? ==> u != t && n.threads[u] == s.threads[u];
    forall u | 0 <= u < |n.threads| && n.threads[u].Holding?
      ensures Live(n.threads[u].handle, true) in n.pool.slots
    {
      var i :| 0 <= i < |s.pool.slots| && s.pool.slots[i] == Live(s.threads[u].handle, true);
      assert s.threads[u] != s.threads[t];
      assert n.pool.slots[i] == s.pool.slots[i];
    }
    forall i | 0 <= i < |n.pool.slots| && IsInUse(n.pool.slots[i])
      ensures Holding(n.pool.slots[i].handle) in n.threads
    {
      assert n.pool.slots[i] == s.pool.slots[i] && s.pool.slots[i].handle != h;
      var u :| 0 <= u < |s.threads| && s.threads[u] == Holding(s.pool.slots[i].handle);
      assert n.threads[u] == s.threads[u];
    }
  }

  lemma UpdateCounts(threads: seq<Thread>, t: nat, th: Thread)
    requires t < |threads|
    ensures Count(threads[t := th], IsAsleep) + (if threads[t].Asleep? then 1 else 0) == Count(threads, IsAsleep) + (if th.Asleep? then 1 else 0)
    ensures Count(threads[t := th], IsWoken) + (if threads[t].Woken? then 1 else 0) == Count(threads, IsWoken) + (if th.Woken? then 1 else 0)
  {
    CountUpdate(threads, IsAsleep, t, th);
    CountUpdate(threads, IsWoken, t, th);
  }

  /** A woken thread to spare, or nobody left asleep. */
  ghost predicate Spare(s: System) {
    Asleep in s.threads ==> Count(s.pool.slots, IsFree) < Count(s.threads, IsWoken)
  }

  /** No wakeup is lost by a step, except by a late timeout, and by that exactly when no woken thread was
      to spare. */
  lemma WakeupIff(s: System, step: Step)
    requires Inv(s) && NoLostWakeup(s) && Enabled(s, step)
    ensures NoLostWakeup(Next(s, step)) <==> (step.LateTimeOut? ==> Spare(s))
  {
    var n := Next(s, step);
    match step {
      case Rescan(t, answering, created) => RescanWakeup(s, step);
      case GiveBack(t, woken) => GiveBackWakeup(s, step);
      case Ask(t) => UpdateCounts(s.threads, t, n.threads[t]);
      case Spurious(t) => UpdateCounts(s.threads, t, n.threads[t]);
      case TimeOut(t) => UpdateCounts(s.threads, t, n.threads[t]);
      case LateTimeOut(t) =>
        UpdateCounts(s.threads, t, n.threads[t]);
        CountZero(s.threads, IsAsleep);
    }
  }

  lemma RescanWakeup(s: System, step: Step)
    requires Inv(s) && NoLostWakeup(s) && Enabled(s, step) && step.Rescan?
    ensures NoLostWakeup(Next(s, step))
  {
    var n, t := Next(s, step), step.t;
    UpdateCounts(s.threads, t, n.threads[t]);
    var (slots, taken) := Scan(s.pool.slots, 0, step.answering);
    ScanRescans(s.pool.slots, 0, step.answering);
    if taken.None? {
      CountZero(slots, IsFree);
      if step.created.Some? { CountAppend(slots, IsFree, Live(step.created.value, true)); }
    } else {
      CountMonotone(slots, s.pool.slots, IsFree);
    }
  }

  lemma GiveBackWakeup(s: System, step: Step)
    requires Inv(s) && NoLostWakeup(s) && Enabled(s, step) && step.GiveBack?
    ensures NoLostWakeup(Next(s, step))
  {
    hide Owned, Accounted;
    var n, t := Next(s, step), step.t;
    var k := HolderReleases(s, t);
    CountUpdate(s.pool.slots, IsFree, k, Live(s.threads[t].handle, false));
    var mid := s.threads[t := Idle];
    UpdateCounts(s.threads, t, Idle);
    if Count(n.threads, IsAsleep) > 0 {
      CountZero(n.threads, IsAsleep);
      var i :| 0 <= i < |n.threads| && n.threads[i].Asleep?;
      assert s.threads[i] == Asleep;
      CountZero(s.threads, IsAsleep);
      var w :| w in step.woken;
      assert IsWoken(n.threads[w]) && !IsWoken(mid[w]);
      CountMonotone(mid, n.threads, IsWoken);
    }
  }

  lemma StepKeepsInv(s: System, step: Step)
    requires Inv(s) && Enabled(s, step)
    ensures Inv(Next(s, step))
  {
    KeepsAccounts(s, step);
    KeepsOwned(s, step);
  }

  /* ---------- whole runs ---------- */

  ghost predicate Feasible(s: System, steps: seq<Step>)
    decreases |steps|
  {
    steps == [] || (Enabled(s, steps[0]) && Feasible(Next(s, steps[0]), steps[1..]))
  }

  ghost function After(s: System, steps: seq<Step>): System
    requires Feasible(s, steps)
    decreases |steps|
  {
    if steps == [] then s else After(Next(s, steps[0]), steps[1..])
  }

  lemma {:induction false} RunKeepsInv(s: System, steps: seq<Step>)
    requires Inv(s) && Feasible(s, steps)
    ensures Inv(After(s, steps))
    decreases |steps|
  {
    if steps != [] {
      StepKeepsInv(s, steps[0]);
      RunKeepsInv(Next(s, steps[0]), steps[1..]);
    }
  }

  /** Each late timeout of the run leaves with a woken thread to spare; so in particular when there is none. */
  ghost predicate Spared(s: System, steps: seq<Step>)
    requires Feasible(s, steps)
    decreases |steps|
  {
    steps == [] || ((steps[0].LateTimeOut? ==> Spare(s)) && Spared(Next(s, steps[0]), steps[1..]))
  }

  lemma {:induction false} RunKeepsWakeup(s: System, steps: seq<Step>)
    requires Inv(s) && NoLostWakeup(s) && Feasible(s, steps) && Spared(s, steps)
    ensures NoLostWakeup(After(s, steps))
    decreases |steps|
  {
    if steps != [] {
      StepKeepsInv(s, steps[0]);
      WakeupIff(s, steps[0]);
      RunKeepsWakeup(Next(s, steps[0]), steps[1..]);
    }
  }

  /** The start of a run: an init whose sizes fit, and threads that hold nothing. */
  ghost predicate Start(s: System) {
    exists max: nat, min: int, created: seq<nat>, threads: nat ::
      min <= max && NoDuplicates(created) && s == Initial(Opened(max, min, created), threads)
  }

  lemma StartInv(s: System)
    requires Start(s)
    ensures Inv(s) && NoLostWakeup(s)
  {
    var max: nat, min: int, created: seq<nat>, threads: nat :|
      min <= max && NoDuplicates(created) && s == Initial(Opened(max, min, created), threads);
    InitialInv(max, min, created, threads);
  }

  /** A state that some interleaving reaches. */
  ghost predicate Reachable(s: System) {
    exists start, steps :: Start(start) && Feasible(start, steps) && s == After(start, steps)
  }

  lemma ReachableInv(s: System)
    requires Reachable(s)
    ensures Inv(s)
  {
    var start, steps :| Start(start) && Feasible(start, steps) && s == After(start, steps);
    StartInv(start);
    RunKeepsInv(start, steps);
  }

  lemma {:induction false} OneMore(s: System, steps: seq<Step>, step: Step)
    requires Feasible(s, steps) && Enabled(After(s, steps), step)
    ensures Feasible(s, steps + [step]) && After(s, steps + [step]) == Next(After(s, steps), step)
    decreases |steps|
  {
    if steps == [] {
      assert Feasible(Next(s, step), []);
      assert (steps + [step])[1..] == [];
    } else {
      OneMore(Next(s, steps[0]), steps[1..], step);
      assert (steps + [step])[1..] == steps[1..] + [step];
    }
  }

  lemma ReachableNext(s: System, step: Step)
    requires Reachable(s) && Enabled(s, step)
    ensures Reachable(Next(s, step))
  {
    var start, steps :| Start(start) && Feasible(start, steps) && s == After(start, steps);
    OneMore(start, steps, step);
  }

  /** No two threads hold the same connection; the in-use slots are exactly the held connections, and
      the counter counts them. */
  lemma ExclusiveOwnership(s: System)
    requires Reachable(s)
    ensures forall t, u :: 0 <= t < u < |s.threads| && s.threads[t].Holding? && s.threads[u].Holding? ==>
      s.threads[t].handle != s.threads[u].handle
    ensures forall h :: Holding(h) in s.threads <==> Live(h, true) in s.pool.slots
    ensures s.pool.inUseCount == Count(s.pool.slots, IsInUse)
    ensures Count(s.pool.slots, IsLive) + Count(s.pool.slots, IsHole) == |s.pool.slots| <= s.pool.maxSize
  {
    ReachableInv(s);
    LiveAndHoles(s.pool.slots);
    forall h ensures Holding(h) in s.threads <==> Live(h, true) in s.pool.slots {
      if Live(h, true) in s.pool.slots {
        var i :| 0 <= i < |s.pool.slots| && s.pool.slots[i] == Live(h, true);
        assert IsInUse(s.pool.slots[i]);
      }
    }
  }

  /** No lost wakeup, over every run whose late timeouts had a woken thread to spare: while a thread
      sleeps, free connections never outnumber the woken threads that have yet to scan. */
  lemma NoWakeupIsLost(start: System, steps: seq<Step>)
    requires Start(start) && Feasible(start, steps) && Spared(start, steps)
    requires Asleep in After(start, steps).threads
    ensures var s := After(start, steps);
      && Count(s.pool.slots, IsFree) <= Count(s.threads, IsWoken)
      && ((exists i :: 0 <= i < |s.pool.slots| && IsFree(s.pool.slots[i])) ==> Woken in s.threads)
  {
    StartInv(start);
    RunKeepsWakeup(start, steps);
    var s := After(start, steps);
    CountZero(s.threads, IsAsleep);
    CountZero(s.threads, IsWoken);
    CountZero(s.pool.slots, IsFree);
  }

  lemma SingleStart()
    ensures Reachable(System(PoolState([Live(7, false)], 1, 0), [Idle, Idle, Idle]))
  {
    var s := Initial(Opened(1, 1, [7]), 3);
    assert s == System(PoolState([Live(7, false)], 1, 0), [Idle, Idle, Idle]);
    assert Start(s);
    assert Feasible(s, []) && s == After(s, []);
  }

  /** Thread 0 gives the connection back, and thread 1 is woken. */
  lemma Signalled(s: System, n: System)
    requires Reachable(s) && s == System(PoolState([Live(7, true)], 1, 1), [Holding(7), Asleep, Asleep])
    requires n == System(PoolState([Live(7, false)], 1, 0), [Idle, Woken, Asleep])
    ensures Reachable(n)
  {
    ReachableNext(s, GiveBack(0, {1}));
    assert Find(s.pool.slots, 7, 0) == 0;
    assert Wake(s.threads[0 := Idle], {1}) == n.threads;
    assert Next(s, GiveBack(0, {1})) == n;
  }

  lemma LeavesLate(s: System)
    requires Reachable(s) && s == System(PoolState([Live(7, false)], 1, 0), [Idle, Woken, Asleep])
    ensures Enabled(s, LateTimeOut(1)) && Reachable(Next(s, LateTimeOut(1)))
    ensures Next(s, LateTimeOut(1)) == System(s.pool, [Idle, Idle, Asleep])
  {
    ReachableNext(s, LateTimeOut(1));
  }

  lemma SingleCount(s: System)
    requires s == System(PoolState([Live(7, false)], 1, 0), [Idle, Woken, Asleep])
    ensures !Spare(s)
  {
    assert Asleep == s.threads[2];
    assert s.threads[1..] == [Woken, Asleep] && s.threads[2..] == [Asleep];
    assert Count([Asleep], IsWoken) == 0;
    assert Count([Woken, Asleep], IsWoken) == 1 by { assert [Woken, Asleep][1..] == [Asleep]; }
    assert Count(s.pool.slots, IsFree) == 1;
  }

  /** Thread `t` asks for the one free connection and gets it. */
  lemma Served(s: System, t: nat, n: System)
    requires Reachable(s) && t < |s.threads| && s.threads[t] == Idle
    requires s.pool == PoolState([Live(7, false)], 1, 0)
    requires n == System(PoolState([Live(7, true)], 1, 1), s.threads[t := Holding(7)])
    ensures Reachable(n)
  {
    ReachableNext(s, Ask(t));
    var asking := Next(s, Ask(t));
    ReachableNext(asking, Rescan(t, {7}, None));
    assert Next(asking, Rescan(t, {7}, None)) == n;
  }

  /** Thread `t` asks while the one connection is in use, and goes to sleep. */
  lemma Refused(s: System, t: nat, n: System)
    requires Reachable(s) && t < |s.threads| && s.threads[t] == Idle
    requires s.pool == PoolState([Live(7, true)], 1, 1)
    requires n == s.(threads := s.threads[t := Asleep])
    ensures Reachable(n)
  {
    ReachableNext(s, Ask(t));
    var asking := Next(s, Ask(t));
    ReachableNext(asking, Rescan(t, {7}, None));
    assert Scan(s.pool.slots, 1, {7}) == (s.pool.slots, None);
    assert Next(asking, Rescan(t, {7}, None)) == n;
  }

  /** One connection, three threads: two wait for it, its release signals one of them, and that one times
      out with the signal. The connection is free and the third thread sleeps on. */
  lemma LateTimeOutLosesWakeup()
    ensures Reachable(System(PoolState([Live(7, false)], 1, 0), [Idle, Woken, Asleep]))
    ensures var s := System(PoolState([Live(7, false)], 1, 0), [Idle, Woken, Asleep]);
      && Enabled(s, LateTimeOut(1)) && !Spare(s)
      && Reachable(Next(s, LateTimeOut(1)))
      && Next(s, LateTimeOut(1)) == System(s.pool, [Idle, Idle, Asleep])
  {
    hide Reachable, Start, Enabled, Next, Spare;
    var free, used := PoolState([Live(7, false)], 1, 0), PoolState([Live(7, true)], 1, 1);
    SingleStart();
    Served(System(free, [Idle, Idle, Idle]), 0, System(used, [Holding(7), Idle, Idle]));
    Refused(System(used, [Holding(7), Idle, Idle]), 1, System(used, [Holding(7), Asleep, Idle]));
    Refused(System(used, [Holding(7), Asleep, Idle]), 2, System(used, [Holding(7), Asleep, Asleep]));
    Signalled(System(used, [Holding(7), Asleep, Asleep]), System(free, [Idle, Woken, Asleep]));
    SingleCount(System(free, [Idle, Woken, Asleep]));
    LeavesLate(System(free, [Idle, Woken, Asleep]));
  }

  /* ---------- how a request ends ---------- */

  /** Inside the getter. */
  predicate Waiting(th: Thread) {
    th.Asking? || th.Asleep? || th.Woken?
  }

  /** A request ends with a connection, and only by a round of its own, or without one, and only by a
      timeout; a thread enters the getter only by asking. */
  lemma RequestEndsIff(s: System, step: Step, t: nat)
    requires Enabled(s, step) && t < |s.threads|
    ensures |Next(s, step).threads| == |s.threads|
    ensures Waiting(s.threads[t]) ==>
      var th := Next(s, step).threads[t];
      && (th.Holding? <==> step.Rescan? && step.t == t && Round(s.pool, step.answering, step.created).1.Some?)
      && (th.Holding? ==> Round(s.pool, step.answering, step.created).1 == Some(th.handle))
      && (th == Idle <==> (step.TimeOut? || step.LateTimeOut?) && step.t == t)
      && (th == Asleep <==> if step.t == t then step.Rescan? && Round(s.pool, step.answering, step.created).1.None?
                            else s.threads[t] == Asleep && !(step.GiveBack? && t in step.woken))
    ensures !Waiting(s.threads[t]) ==> (Waiting(Next(s, step).threads[t]) <==> step == Ask(t))
    ensures s.threads[t].Holding? ==> (Next(s, step).threads[t] == s.threads[t] <==> !(step.GiveBack? && step.t == t))
  {
  }

  /** After these steps thread `t` holds a connection. */
  ghost predicate Serves(s: System, steps: seq<Step>, t: nat) {
    Feasible(s, steps) && t < |After(s, steps).threads| && After(s, steps).threads[t].Holding?
  }

  lemma ServesAfter(s: System, step: Step, steps: seq<Step>, t: nat)
    requires Enabled(s, step) && Serves(Next(s, step), steps, t)
    ensures Serves(s, [step] + steps, t)
  {
    var all := [step] + steps;
    assert all[0] == step && all[1..] == steps;
  }

  /** While any connection is live, each thread in the getter can still get one: a free one that answers,
      or one that its holder gives back. */
  lemma RequestCanBeServed(s: System, t: nat) returns (steps: seq<Step>)
    requires Inv(s) && t < |s.threads| && Waiting(s.threads[t])
    requires exists i :: 0 <= i < |s.pool.slots| && s.pool.slots[i].Live?
    ensures Serves(s, steps, t)
  {
    var i :| 0 <= i < |s.pool.slots| && s.pool.slots[i].Live?;
    if IsFree(s.pool.slots[i]) {
      steps := ServeFree(s, t, i);
    } else {
      var u :| 0 <= u < |s.threads| && s.threads[u] == Holding(s.pool.slots[i].handle);
      var k := HolderReleases(s, u);
      var asleep := set v: nat | v < |s.threads| && s.threads[v] == Asleep;
      var step := GiveBack(u, asleep);
      assert forall v :: 0 <= v < |s.threads| && s.threads[v] == Asleep ==> v in asleep;
      StepKeepsInv(s, step);
      var rest := ServeFree(Next(s, step), t, k);
      ServesAfter(s, step, rest, t);
      steps := [step] + rest;
    }
  }

  lemma ServeFree(s: System, t: nat, i: nat) returns (steps: seq<Step>)
    requires t < |s.threads| && Waiting(s.threads[t]) && i < |s.pool.slots| && IsFree(s.pool.slots[i])
    ensures Serves(s, steps, t)
  {
    var step := Rescan(t, {s.pool.slots[i].handle}, None);
    if s.threads[t] == Asleep {
      var up := Next(s, Spurious(t));
      RescanServes(up, t, i);
      ServesAfter(s, Spurious(t), [step], t);
      steps := [Spurious(t)] + [step];
    } else {
      RescanServes(s, t, i);
      steps := [step];
    }
  }

  lemma RescanServes(s: System, t: nat, i: nat)
    requires t < |s.threads| && (s.threads[t] == Asking || s.threads[t] == Woken) && i < |s.pool.slots| && IsFree(s.pool.slots[i])
    ensures Serves(s, [Rescan(t, {s.pool.slots[i].handle}, None)], t)
  {
    var step := Rescan(t, {s.pool.slots[i].handle}, None);
    RoundServesIff(s.pool, step.answering, None);
    assert [step][1..] == [];
    assert After(Next(s, step), []) == Next(s, step);
  }

  /** A held connection stays in its slot, open, through anything the other threads do. */
  lemma {:induction false} StableOwnership(s: System, steps: seq<Step>, t: nat, i: nat)
    requires Inv(s) && Feasible(s, steps)
    requires t < |s.threads| && i < |s.pool.slots|
    requires s.threads[t].Holding? && s.pool.slots[i] == Live(s.threads[t].handle, true)
    requires forall k :: 0 <= k < |steps| ==> steps[k].t != t
    ensures var n := After(s, steps);
      && t < |n.threads| && n.threads[t] == s.threads[t]
      && i < |n.pool.slots| && n.pool.slots[i] == s.pool.slots[i]
    decreases |steps|
  {
    if steps != [] {
      var step := steps[0];
      var n := Next(s, step);
      StepKeepsInv(s, step);
      match step {
        case Rescan(_, answering, created) =>
          RoundAccounting(s.pool, answering, created);
        case GiveBack(u, _) =>
          var _ := HolderReleases(s, u);
          assert s.threads[u] != s.threads[t];
        case _ =>
      }
      assert n.threads[t] == s.threads[t] && n.pool.slots[i] == s.pool.slots[i];
      StableOwnership(n, steps[1..], t, i);
    }
  }

  /** A live connection stays in its slot over every run in which it answers each round that runs: it
      disappears only in a round whose ping it fails. */
  lemma {:induction false} HealthyStays(s: System, steps: seq<Step>, i: nat)
    requires Feasible(s, steps) && i < |s.pool.slots| && s.pool.slots[i].Live?
    requires forall k :: 0 <= k < |steps| && steps[k].Rescan? ==> s.pool.slots[i].handle in steps[k].answering
    ensures var n := After(s, steps);
      i < |n.pool.slots| && n.pool.slots[i].Live? && n.pool.slots[i].handle == s.pool.slots[i].handle
    decreases |steps|
  {
    if steps != [] {
      var n := Next(s, steps[0]);
      match steps[0] {
        case Rescan(_, answering, created) => RoundKeepsHealthy(s.pool, answering, created, i);
        case _ =>
      }
      HealthyStays(n, steps[1..], i);
    }
  }

  /** Over any run `pool_size` never decreases and stays within the maximum, and once the maximum is
      reached the number of live connections never grows. */
  lemma {:induction false} PoolSizeOverRuns(s: System, steps: seq<Step>)
    requires Inv(s) && Feasible(s, steps)
    ensures var n := After(s, steps);
      && |s.pool.slots| <= |n.pool.slots| <= n.pool.maxSize == s.pool.maxSize
      && (|s.pool.slots| == s.pool.maxSize ==> Count(n.pool.slots, IsLive) <= Count(s.pool.slots, IsLive))
    decreases |steps|
  {
    if steps != [] {
      var step := steps[0];
      StepKeepsInv(s, step);
      match step {
        case Rescan(_, answering, created) =>
          RoundAccounting(s.pool, answering, created);
          FullPoolOnlyLoses(s.pool, answering, created);
        case GiveBack(u, _) =>
          var k := HolderReleases(s, u);
          CountUpdate(s.pool.slots, IsLive, k, Live(s.threads[u].handle, false));
        case _ =>
      }
      PoolSizeOverRuns(Next(s, step), steps[1..]);
    }
  }
}
