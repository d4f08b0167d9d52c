/** The database connection pool (src/server/db_pool.c): slots with holes, in-use flags and counters. */
module DbPool {
  import opened Basics

  /** A slot of the connection array: emptied for good, or a live handle. */
  datatype Slot = Hole | Live(handle: nat, inUse: bool)

  /** The fields under the pool's mutex; `pool_size` is the number of slots. */
  datatype PoolState = PoolState(slots: seq<Slot>, maxSize: nat, inUseCount: int)

  predicate IsInUse(slot: Slot) { slot.Live? && slot.inUse }

  predicate IsFree(slot: Slot) { slot.Live? && !slot.inUse }

  predicate IsLive(slot: Slot) { slot.Live? }

  predicate IsHole(slot: Slot) { slot.Hole? }

  /** One pass over the slots from `i`: dead free connections are dropped, the first that answers the
      ping is taken. `answering` are the handles that answer. */
  function Scan(slots: seq<Slot>, i: nat, answering: set<nat>): (r: (seq<Slot>, Option<nat>))
    requires i <= |slots|
    decreases |slots| - i
  {
    if i == |slots| then (slots, None)
    else if IsFree(slots[i]) then
      if slots[i].handle in answering then (slots[i := Live(slots[i].handle, true)], Some(slots[i].handle))
      else Scan(slots[i := Hole], i + 1, answering)
    else Scan(slots, i + 1, answering)
  }

  /** What one round of the getter's loop does before it would wait: a pass, then a new connection if
      there is room and `created` is one. No handle means that it goes on to wait. */
  function Round(p: PoolState, answering: set<nat>, created: Option<nat>): (PoolState, Option<nat>) {
    var (slots, taken) := Scan(p.slots, 0, answering);
    if taken.Some? then (p.(slots := slots, inUseCount := p.inUseCount + 1), taken)
    else if |slots| < p.maxSize && created.Some? then
      (p.(slots := slots + [Live(created.value, true)], inUseCount := p.inUseCount + 1), created)
    else (p.(slots := slots), None)
  }

  /** The slot that holds `handle`, searching from `i`; `|slots|` when there is none. */
  function Find(slots: seq<Slot>, handle: nat, i: nat): (k: nat)
    requires i <= |slots|
    ensures i <= k <= |slots|
    ensures k < |slots| ==> slots[k].Live? && slots[k].handle == handle
    ensures forall j :: i <= j < k ==> !(slots[j].Live? && slots[j].handle == handle)
    decreases |slots| - i
  {
    if i == |slots| || (slots[i].Live? && slots[i].handle == handle) then i else Find(slots, handle, i + 1)
  }

  function Released(p: PoolState, handle: nat): PoolState {
    var k := Find(p.slots, handle, 0);
    if k == |p.slots| then p
    else p.(slots := p.slots[k := Live(handle, false)], inUseCount := p.inUseCount - 1)
  }

  /** The pool after init: up to `min` connections, stopping at the first that cannot be created. */
  function Opened(max: nat, min: int, created: seq<nat>): PoolState {
    PoolState(seq(InitCount(min, created), i requires 0 <= i < InitCount(min, created) => Live(created[i], false)), max, 0)
  }

  function InitCount(min: int, created: seq<nat>): (n: nat)
    ensures n <= |created|
  {
    if min < 0 then 0 else Min(min, |created|)
  }

  /* ---------- accounting ---------- */

  ghost predicate DistinctHandles(slots: seq<Slot>) {
    forall i, j :: 0 <= i < j < |slots| && slots[i].Live? && slots[j].Live? ==> slots[i].handle != slots[j].handle
  }

  ghost predicate Accounted(p: PoolState) {
    && p.inUseCount == Count(p.slots, IsInUse)
    && |p.slots| <= p.maxSize
    && DistinctHandles(p.slots)
  }

  /** How a pass changes the slots: holes and connections in use stay as they are, a free connection is
      kept, dropped, or (one at most) taken. */
  ghost predicate Rescanned(s: seq<Slot>, t: seq<Slot>, taken: Option<nat>) {
    && |t| == |s|
    && (forall i :: 0 <= i < |s| && !IsFree(s[i]) ==> t[i] == s[i])
    && (forall i :: 0 <= i < |s| && IsFree(s[i]) ==>
          t[i] == s[i] || t[i] == Hole || (taken == Some(s[i].handle) && t[i] == Live(s[i].handle, true)))
    && (taken.None? ==> forall i :: 0 <= i < |t| ==> !IsFree(t[i]))
    && (taken.Some? ==> exists i :: 0 <= i < |s| && s[i] == Live(taken.value, false) && t[i] == Live(taken.value, true))
  }

  lemma {:induction false} ScanRescans(slots: seq<Slot>, i: nat, answering: set<nat>)
    requires i <= |slots|
    requires forall j :: 0 <= j < i ==> !IsFree(slots[j])
    ensures var (t, taken) := Scan(slots, i, answering); Rescanned(slots, t, taken)
    ensures forall h :: Scan(slots, i, answering).1 == Some(h) ==> h in answering
    decreases |slots| - i
  {
    if i < |slots| {
      if IsFree(slots[i]) {
        if slots[i].handle !in answering {
          ScanRescans(slots[i := Hole], i + 1, answering);
          var (t, taken) := Scan(slots, i, answering);
          if taken.Some? {
            var k :| 0 <= k < |slots| && slots[i := Hole][k] == Live(taken.value, false) && t[k] == Live(taken.value, true);
            assert slots[k] == Live(taken.value, false);
          }
        }
      } else {
        ScanRescans(slots, i + 1, answering);
      }
    }
  }

  /** A pass takes a connection exactly when some free one answers, and keeps no free one that was tried. */
  lemma {:induction false} ScanTakesIff(slots: seq<Slot>, i: nat, answering: set<nat>)
    requires i <= |slots|
    ensures Scan(slots, i, answering).1.Some? <==>
      exists j :: i <= j < |slots| && IsFree(slots[j]) && slots[j].handle in answering
    decreases |slots| - i
  {
    if i < |slots| {
      if IsFree(slots[i]) {
        if slots[i].handle !in answering {
          var rest := slots[i := Hole];
          ScanTakesIff(rest, i + 1, answering);
          if j :| i <= j < |slots| && IsFree(slots[j]) && slots[j].handle in answering {
            assert rest[j] == slots[j];
          }
        }
      } else {
        ScanTakesIff(slots, i + 1, answering);
      }
    }
  }

  /** The first free connection from `i` on that answers; `|slots|` when there is none. */
  function FirstAnswering(slots: seq<Slot>, i: nat, answering: set<nat>): (k: nat)
    requires i <= |slots|
    ensures i <= k <= |slots|
    ensures k < |slots| ==> IsFree(slots[k]) && slots[k].handle in answering
    ensures forall j :: i <= j < k && IsFree(slots[j]) ==> slots[j].handle !in answering
    decreases |slots| - i
  {
    if i == |slots| || (IsFree(slots[i]) && slots[i].handle in answering) then i
    else FirstAnswering(slots, i + 1, answering)
  }

  /** What a pass leaves of one slot, when it takes the one at `k`. */
  function Passed(slots: seq<Slot>, k: nat, j: nat): Slot
    requires j < |slots|
    requires k < |slots| ==> slots[k].Live?
  {
    if j == k then Live(slots[k].handle, true) else if j < k && IsFree(slots[j]) then Hole else slots[j]
  }

  /** A pass slot by slot: the first free connection that answers is taken, the free ones in front of it
      are dropped, and nothing else is touched. */
  lemma {:induction false} ScanExactly(slots: seq<Slot>, i: nat, answering: set<nat>)
    requires i <= |slots|
    ensures var (t, got) := Scan(slots, i, answering);
            var k := FirstAnswering(slots, i, answering);
      && |t| == |slots|
      && got == (if k < |slots| then Some(slots[k].handle) else None)
      && (forall j :: 0 <= j < i ==> t[j] == slots[j])
      && (forall j :: i <= j < |slots| ==> t[j] == Passed(slots, k, j))
    decreases |slots| - i
  {
    if i < |slots| {
      if IsFree(slots[i]) {
        if slots[i].handle !in answering {
          var rest := slots[i := Hole];
          SameFirst(slots, i, i + 1, answering);
          ScanExactly(rest, i + 1, answering);
        }
      } else {
        ScanExactly(slots, i + 1, answering);
      }
    }
  }

  lemma {:induction false} SameFirst(slots: seq<Slot>, hole: nat, i: nat, answering: set<nat>)
    requires hole < i <= |slots|
    ensures FirstAnswering(slots[hole := Hole], i, answering) == FirstAnswering(slots, i, answering)
    decreases |slots| - i
  {
    if i < |slots| { SameFirst(slots, hole, i + 1, answering); }
  }

  /** A round, slot by slot, for every pool: what it hands out, what becomes of each slot, and the count. */
  lemma RoundExactly(p: PoolState, answering: set<nat>, created: Option<nat>)
    ensures var (q, got) := Round(p, answering, created);
            var k := FirstAnswering(p.slots, 0, answering);
            var grows := k == |p.slots| < p.maxSize && created.Some?;
      && got == (if k < |p.slots| then Some(p.slots[k].handle) else if grows then created else None)
      && |q.slots| == |p.slots| + (if grows then 1 else 0)
      && (forall j :: 0 <= j < |p.slots| ==> q.slots[j] == Passed(p.slots, k, j))
      && (grows ==> q.slots[|p.slots|] == Live(created.value, true))
      && q.inUseCount == p.inUseCount + (if got.Some? then 1 else 0) && q.maxSize == p.maxSize
  {
    ScanExactly(p.slots, 0, answering);
  }

  /** A round closes no connection that answers and disturbs none but the one it hands out: a hole is new
      only where a free connection did not answer, and a free connection that answers stays or is taken,
      the first one first. */
  lemma RoundKeepsHealthy(p: PoolState, answering: set<nat>, created: Option<nat>, j: nat)
    requires j < |p.slots|
    ensures var (q, got) := Round(p, answering, created);
      && j < |q.slots|
      && (q.slots[j] == Hole ==> p.slots[j] == Hole || (IsFree(p.slots[j]) && p.slots[j].handle !in answering))
      && (p.slots[j].Live? && !(IsFree(p.slots[j]) && p.slots[j].handle !in answering) ==>
            q.slots[j] == p.slots[j] || (got == Some(p.slots[j].handle) && q.slots[j] == Live(p.slots[j].handle, true)))
      && (IsFree(p.slots[j]) && q.slots[j] == Live(p.slots[j].handle, true) ==>
            p.slots[j].handle in answering && forall i :: 0 <= i < j && IsFree(p.slots[i]) ==> p.slots[i].handle !in answering)
  {
    RoundExactly(p, answering, created);
  }

  /** A caller gets a connection at once exactly when a free one answers the ping, or the array has room
      and a new one can be created; free connections come first. */
  lemma RoundServesIff(p: PoolState, answering: set<nat>, created: Option<nat>)
    ensures Round(p, answering, created).1.Some? <==>
      || (exists j :: 0 <= j < |p.slots| && IsFree(p.slots[j]) && p.slots[j].handle in answering)
      || (|p.slots| < p.maxSize && created.Some?)
    ensures (exists j :: 0 <= j < |p.slots| && IsFree(p.slots[j]) && p.slots[j].handle in answering) ==>
      |Round(p, answering, created).0.slots| == |p.slots|
  {
    ScanTakesIff(p.slots, 0, answering);
    ScanLength(p.slots, 0, answering);
  }

  lemma {:induction false} ScanLength(slots: seq<Slot>, i: nat, answering: set<nat>)
    requires i <= |slots|
    ensures |Scan(slots, i, answering).0| == |slots|
    decreases |slots| - i
  {
    if i < |slots| {
      ScanLength(if IsFree(slots[i]) then slots[i := Hole] else slots, i + 1, answering);
    }
  }

  lemma {:induction false} ScanCountsInUse(slots: seq<Slot>, i: nat, answering: set<nat>)
    requires i <= |slots|
    ensures Count(Scan(slots, i, answering).0, IsInUse) == Count(slots, IsInUse) + (if Scan(slots, i, answering).1.Some? then 1 else 0)
    decreases |slots| - i
  {
    if i < |slots| {
      if IsFree(slots[i]) {
        if slots[i].handle in answering {
          CountUpdate(slots, IsInUse, i, Live(slots[i].handle, true));
        } else {
          CountUpdate(slots, IsInUse, i, Hole);
          ScanCountsInUse(slots[i := Hole], i + 1, answering);
        }
      } else {
        ScanCountsInUse(slots, i + 1, answering);
      }
    }
  }

  /** A new handle differs from every live one. The pass comes first, so it may well be the handle of a
      connection that the same round has just closed. */
  ghost predicate FreshHandle(slots: seq<Slot>, created: Option<nat>) {
    created.Some? ==> forall i :: 0 <= i < |slots| && slots[i].Live? ==> slots[i].handle != created.value
  }

  /** What a round does to a connection in use, and what it hands out. */
  ghost predicate RoundFrame(s: seq<Slot>, t: seq<Slot>, got: Option<nat>) {
    && |s| <= |t|
    && (forall i :: 0 <= i < |s| && !IsFree(s[i]) ==> t[i] == s[i])
    && (forall i :: 0 <= i < |s| && t[i].Live? ==> s[i].Live? && s[i].handle == t[i].handle)
    && (got.None? ==> |t| == |s| && forall i :: 0 <= i < |t| ==> !IsFree(t[i]))
    && (got.Some? ==> forall i :: 0 <= i < |s| ==> s[i] != Live(got.value, true))
    && (got.Some? ==> exists i :: 0 <= i < |t| && t[i] == Live(got.value, true) && (i < |s| ==> s[i] == Live(got.value, false)))
  }

  lemma ReusedFrame(s: seq<Slot>, t: seq<Slot>, taken: Option<nat>)
    requires DistinctHandles(s) && Rescanned(s, t, taken)
    ensures RoundFrame(s, t, taken) && DistinctHandles(t)
  {
    if taken.Some? {
      var k :| 0 <= k < |s| && s[k] == Live(taken.value, false) && t[k] == Live(taken.value, true);
      forall i | 0 <= i < |s| ensures s[i] != Live(taken.value, true) {
      }
    }
  }

  lemma CreatedFrame(s: seq<Slot>, t: seq<Slot>, h: nat)
    requires RoundFrame(s, t, None) && DistinctHandles(t) && FreshHandle(t, Some(h))
    ensures RoundFrame(s, t + [Live(h, true)], Some(h)) && DistinctHandles(t + [Live(h, true)])
  {
    var u := t + [Live(h, true)];
    assert u[|t|] == Live(h, true);
    assert forall i :: 0 <= i < |t| ==> u[i] == t[i];
    assert forall i :: 0 <= i < |t| && t[i].Live? ==> s[i].handle == t[i].handle;
  }

  /** A round keeps the accounting, never shrinks the array, and never disturbs a connection in use. It
      waits only when nothing is free any more. */
  lemma RoundAccounting(p: PoolState, answering: set<nat>, created: Option<nat>)
    requires Accounted(p) && FreshHandle(Scan(p.slots, 0, answering).0, created)
    ensures var (q, got) := Round(p, answering, created);
      Accounted(q) && q.maxSize == p.maxSize && RoundFrame(p.slots, q.slots, got)
  {
    ScanRescans(p.slots, 0, answering);
    ScanCountsInUse(p.slots, 0, answering);
    var (slots, taken) := Scan(p.slots, 0, answering);
    ReusedFrame(p.slots, slots, taken);
    if taken.None? && |slots| < p.maxSize && created.Some? {
      CountAppend(slots, IsInUse, Live(created.value, true));
      CreatedFrame(p.slots, slots, created.value);
    }
  }

  /** Live slots and holes make up `pool_size`; once it has reached the maximum no round adds a live slot. */
  lemma FullPoolOnlyLoses(p: PoolState, answering: set<nat>, created: Option<nat>)
    requires Accounted(p) && FreshHandle(Scan(p.slots, 0, answering).0, created)
    ensures Count(p.slots, IsLive) + Count(p.slots, IsHole) == |p.slots|
    ensures |p.slots| == p.maxSize ==>
      && |Round(p, answering, created).0.slots| == p.maxSize
      && Count(Round(p, answering, created).0.slots, IsLive) <= Count(p.slots, IsLive)
  {
    LiveAndHoles(p.slots);
    if |p.slots| == p.maxSize {
      ScanRescans(p.slots, 0, answering);
      CountMonotone(Scan(p.slots, 0, answering).0, p.slots, IsLive);
    }
  }

  lemma {:induction false} LiveAndHoles(slots: seq<Slot>)
    ensures Count(slots, IsLive) + Count(slots, IsHole) == |slots|
  {
    if slots != [] { LiveAndHoles(slots[1..]); }
  }

  /** Holes are never refilled: a pool at its maximum that has lost every connection serves nobody again. */
  lemma DrainedPoolIsDead(p: PoolState, answering: set<nat>, created: Option<nat>)
    requires |p.slots| >= p.maxSize && forall i :: 0 <= i < |p.slots| ==> p.slots[i] == Hole
    ensures Round(p, answering, created) == (p, None)
  {
    ScanHoles(p.slots, 0, answering);
  }

  lemma {:induction false} ScanHoles(slots: seq<Slot>, i: nat, answering: set<nat>)
    requires i <= |slots| && forall j :: 0 <= j < |slots| ==> slots[j] == Hole
    ensures Scan(slots, i, answering) == (slots, None)
    decreases |slots| - i
  {
    if i < |slots| { ScanHoles(slots, i + 1, answering); }
  }

  /** Releasing keeps the accounting exactly when the handle is not in the pool or is in use: the code
      does not test the flag. */
  lemma ReleaseKeepsAccountsIff(p: PoolState, handle: nat)
    requires Accounted(p)
    ensures Accounted(Released(p, handle)) <==>
      forall i :: 0 <= i < |p.slots| && p.slots[i].Live? && p.slots[i].handle == handle ==> p.slots[i].inUse
  {
    var k := Find(p.slots, handle, 0);
    if k < |p.slots| {
      CountUpdate(p.slots, IsInUse, k, Live(handle, false));
    }
  }

  /** A release, slot by slot: the slot with the handle becomes free, the count drops by one and nothing
      else changes; a handle that no slot has changes nothing. */
  lemma ReleasedExactly(p: PoolState, handle: nat)
    requires DistinctHandles(p.slots)
    ensures var q := Released(p, handle);
      && |q.slots| == |p.slots| && q.maxSize == p.maxSize
      && (forall j :: 0 <= j < |p.slots| ==>
            q.slots[j] == if p.slots[j].Live? && p.slots[j].handle == handle then Live(handle, false) else p.slots[j])
      && q.inUseCount == p.inUseCount - (if Live(handle, true) in p.slots || Live(handle, false) in p.slots then 1 else 0)
  {
  }

  /** A double release in figures: one connection, free, and the counter ends at -1. */
  lemma DoubleReleaseMiscounts()
    ensures var p := PoolState([Live(7, false)], 1, 0);
      && Accounted(p)
      && Released(p, 7) == PoolState([Live(7, false)], 1, -1)
      && !Accounted(Released(p, 7))
  {
    var p := PoolState([Live(7, false)], 1, 0);
    assert Find(p.slots, 7, 0) == 0;
    assert Released(p, 7).slots == p.slots;
    CountZero(p.slots, IsInUse);
  }

  /** Init writes one slot per created connection into an array of `max` slots. It stays inside the
      array whatever the database answers exactly when min <= max. */
  lemma InitFitsIff(min: int, max: nat)
    ensures (forall created: seq<nat> :: InitCount(min, created) <= max) <==> min <= max
  {
    if min > max {
      assert InitCount(min, Iota(min)) > max;
    }
  }

  /** The sizes the server passes: 7 and 7 / 2. */
  lemma CallSiteDoesNotFit()
    ensures InitCount(5 + 2, [0, 1, 2, 3, 4, 5, 6]) > (5 + 2) / 2
  {
  }

  /** Init stores the connections in the order in which they were granted, all of them free: as many as
      were asked for, or as many as there were before the first refusal. */
  lemma OpenedExactly(max: nat, min: nat, created: seq<nat>)
    ensures var p := Opened(max, min, created);
      && |p.slots| == (if |created| < min then |created| else min)
      && (forall i :: 0 <= i < |p.slots| ==> p.slots[i] == Live(created[i], false))
      && p.inUseCount == 0 && p.maxSize == max
  {
  }

  lemma OpenedAccounts(max: nat, min: int, created: seq<nat>)
    requires min <= max && NoDuplicates(created)
    ensures Accounted(Opened(max, min, created))
  {
    CountZero(Opened(max, min, created).slots, IsInUse);
  }

  /* ---------- the pool itself ---------- */

  class DbConnection {
    const conn: nat
    var inUse: bool

    constructor (conn: nat, inUse: bool)
      ensures this.conn == conn && this.inUse == inUse
    {
      this.conn, this.inUse := conn, inUse;
    }
  }

  class Pool {
    const connections: array<DbConnection?>
    const maxSize: nat
    var poolSize: int
    var inUseCount: int
    ghost var Repr: set<object>

    ghost predicate Valid()
      reads this, Repr
    {
      && this in Repr && connections in Repr
      && connections.Length == maxSize && 0 <= poolSize <= maxSize
      && (forall i :: 0 <= i < poolSize ==> connections[i] == null || connections[i] in Repr)
      && (forall i, j :: 0 <= i < j < poolSize && connections[i] != null ==> connections[i] != connections[j])
    }

    ghost function SlotAt(i: nat): Slot
      requires Valid() && i < poolSize
      reads this, Repr
    {
      if connections[i] == null then Hole else Live(connections[i].conn, connections[i].inUse)
    }

    ghost function Slots(): (s: seq<Slot>)
      requires Valid()
      reads this, Repr
      ensures |s| == poolSize
      ensures forall i :: 0 <= i < |s| ==> s[i] == SlotAt(i)
    {
      seq(poolSize, i requires 0 <= i < poolSize && Valid() reads this, Repr => SlotAt(i))
    }

    ghost function View(): PoolState
      requires Valid()
      reads this, Repr
    {
      PoolState(Slots(), maxSize, inUseCount)
    }

    /** db_pool_init: `created` are the connections the database grants, and it refuses the next. The
        requirement is that the writes stay inside the allocated array. */
    constructor (min: int, max: nat, created: seq<nat>)
      requires InitCount(min, created) <= max
      ensures Valid() && fresh(Repr)
      ensures View() == Opened(max, min, created)
    {
      var slots := new DbConnection?[max](i => null);
      connections, maxSize, poolSize, inUseCount := slots, max, 0, 0;
      Repr := {this, slots};
      new;
      for i := 0 to (if min < 0 then 0 else min)
        invariant Valid() && fresh(Repr) && inUseCount == 0
        invariant poolSize == i <= |created|
        invariant forall j :: 0 <= j < i ==> SlotAt(j) == Live(created[j], false)
      {
        if i >= |created| {
          break;
        }
        var dbConn := new DbConnection(created[i], false);
        connections[poolSize] := dbConn;
        poolSize := poolSize + 1;
        Repr := Repr + {dbConn};
      }
      assert Slots() == Opened(max, min, created).slots;
    }

    /** One pass of the getter over the array. */
    method TakeFree(answering: set<nat>) returns (got: Option<nat>)
      requires Valid()
      modifies Repr
      ensures Valid() && Repr == old(Repr)
      ensures (Slots(), got) == Scan(old(Slots()), 0, answering)
      ensures inUseCount == old(inUseCount) + if got.Some? then 1 else 0
    {
      for i := 0 to poolSize
        invariant Valid() && Repr == old(Repr) && poolSize == old(poolSize) && inUseCount == old(inUseCount)
        invariant Scan(Slots(), i, answering) == Scan(old(Slots()), 0, answering)
      {
        ghost var before := Slots();
        var dbConn := connections[i];
        if dbConn != null && !dbConn.inUse {
          if dbConn.conn in answering {
            dbConn.inUse := true;
            inUseCount := inUseCount + 1;
            assert Slots() == before[i := Live(dbConn.conn, true)];
            return Some(dbConn.conn);
          } else {
            connections[i] := null;
            assert Slots() == before[i := Hole];
          }
        }
      }
      return None;
    }

    /** One round of db_pool_get_connection under the mutex; None means it goes on to wait. */
    method GetRound(answering: set<nat>, created: Option<nat>) returns (got: Option<nat>)
      requires Valid()
      modifies Repr
      ensures Valid() && fresh(Repr - old(Repr))
      ensures (View(), got) == Round(old(View()), answering, created)
    {
      got := TakeFree(answering);
      if got.Some? {
        return;
      }
      if poolSize < maxSize {
        if created.Some? {
          ghost var before := Slots();
          var dbConn := new DbConnection(created.value, true);
          connections[poolSize] := dbConn;
          poolSize := poolSize + 1;
          inUseCount := inUseCount + 1;
          Repr := Repr + {dbConn};
          assert Slots() == before + [Live(created.value, true)];
          return created;
        }
      }
    }

    /** db_pool_release_connection; `found` is when it signals the condition variable. */
    method Release(conn: nat) returns (found: bool)
      requires Valid()
      modifies Repr
      ensures Valid() && Repr == old(Repr)
      ensures View() == Released(old(View()), conn)
      ensures found <==> exists i :: 0 <= i < |old(Slots())| && old(Slots())[i].Live? && old(Slots())[i].handle == conn
    {
      ghost var before := Slots();
      for i := 0 to poolSize
        invariant Slots() == before && inUseCount == old(inUseCount)
        invariant Valid() && Repr == old(Repr) && poolSize == old(poolSize)
        invariant Find(before, conn, i) == Find(before, conn, 0)
        invariant forall j :: 0 <= j < i ==> !(before[j].Live? && before[j].handle == conn)
      {
        var dbConn := connections[i];
        if dbConn != null && dbConn.conn == conn {
          dbConn.inUse := false;
          inUseCount := inUseCount - 1;
          assert Slots() == before[i := Live(conn, false)];
          assert before[i].Live? && before[i].handle == conn;
          return true;
        }
      }
      return false;
    }
  }
}
