/** All interleavings of the main thread, the workers and the clients over the shared pool state.
    One step is one region run under the mutex, or one action outside it
    (src/server/worker.c, src/server/server.c, src/server/session.c lines 34-40). */
module WorkerSystem {
  import opened Basics
  import opened ThreadPool

  /** Where a worker is. `Closed` is the stretch between close() and clearing busy_fds, where the
      published descriptor is stale. */
  datatype Pc = Starting | AtLock | Asleep | Woken | Serving(conn: nat) | Closed | Returned

  /** An accepted connection, named by its position in accept order. `inbox` counts the commands that
      have arrived and not been received. */
  datatype Conn = Conn(fd: int, inbox: nat, peerClosed: bool, shut: bool, open: bool)

  datatype System = System(
    shared: Shared,
    pcs: seq<Pc>,
    conns: seq<Conn>,
    queued: seq<nat>,
    dispatched: seq<(nat, nat)>,   // (worker, connection), oldest first
    drained: seq<nat>)

  datatype Step =
    | Start(i: nat, connected: bool)
    | Accept(fd: int, woken: set<nat>)
    | Spurious(i: nat)
    | Turn(i: nat)
    | Arrive(c: nat)
    | PeerClose(c: nat)
    | Command(i: nat)
    | EndSession(i: nat, malformed: bool)
    | Clear(i: nat)
    | Exit

  predicate IsAsleep(pc: Pc) { pc.Asleep? }

  predicate IsWoken(pc: Pc) { pc.Woken? }

  ghost function Initial(workers: nat): System {
    System(Shared([], false, seq(workers, i => -1)), seq(workers, i => Starting), [], [], [], [])
  }

  ghost predicate Live(s: System, c: nat) {
    c < |s.conns| && s.conns[c].open && !s.conns[c].shut && !s.conns[c].peerClosed
  }

  ghost predicate ServingOk(s: System, i: nat) {
    i < |s.pcs| && s.pcs[i].Serving? && s.pcs[i].conn < |s.conns|
  }

  /** pthread_cond_signal wakes at least one sleeper when there is one; a sleeper may also wake for no
      reason. accept() returns a descriptor that no open connection has. The main thread accepts
      nothing once it is in its exit branch. */
  ghost predicate Enabled(s: System, step: Step) {
    match step
    case Start(i, _) => i < |s.pcs| && s.pcs[i] == Starting
    case Accept(fd, woken) =>
      && !s.shared.exit
      && fd >= 0
      && (forall c :: 0 <= c < |s.conns| && s.conns[c].open ==> s.conns[c].fd != fd)
      && (forall i :: i in woken ==> i < |s.pcs| && s.pcs[i] == Asleep)
      && ((exists i :: 0 <= i < |s.pcs| && s.pcs[i] == Asleep) ==> woken != {})
    case Spurious(i) => i < |s.pcs| && s.pcs[i] == Asleep
    case Turn(i) =>
      && i < |s.pcs| && i < |s.shared.busy|
      && (s.pcs[i] == AtLock || s.pcs[i] == Woken)
      && |s.queued| == |s.shared.queue|
    case Arrive(c) => Live(s, c)
    case PeerClose(c) => Live(s, c)
    case Command(i) => ServingOk(s, i) && s.conns[s.pcs[i].conn].inbox > 0
    case EndSession(i, malformed) =>
      && ServingOk(s, i)
      && var conn := s.conns[s.pcs[i].conn];
         if malformed then conn.inbox > 0 else conn.inbox == 0 && (conn.peerClosed || conn.shut)
    case Clear(i) => i < |s.pcs| && i < |s.shared.busy| && s.pcs[i] == Closed
    case Exit => !s.shared.exit
  }

  ghost function Wake(pcs: seq<Pc>, woken: set<nat>): (r: seq<Pc>)
    ensures |r| == |pcs|
    ensures forall i :: 0 <= i < |pcs| ==> r[i] == if i in woken then Woken else pcs[i]
  {
    seq(|pcs|, i requires 0 <= i < |pcs| => if i in woken then Woken else pcs[i])
  }

  ghost function Broadcast(pcs: seq<Pc>): (r: seq<Pc>)
    ensures |r| == |pcs|
    ensures forall i :: 0 <= i < |pcs| ==> r[i] == if pcs[i].Asleep? then Woken else pcs[i]
  {
    seq(|pcs|, i requires 0 <= i < |pcs| => if pcs[i].Asleep? then Woken else pcs[i])
  }

  /** shutdown(fd) acts on whichever connection has that descriptor open at the time. */
  ghost function Shutdown(conns: seq<Conn>, fds: seq<int>): (r: seq<Conn>)
    ensures |r| == |conns|
    ensures forall c :: 0 <= c < |conns| ==>
      r[c] == if conns[c].open && conns[c].fd in fds then conns[c].(shut := true) else conns[c]
  {
    seq(|conns|, c requires 0 <= c < |conns| =>
      if conns[c].open && conns[c].fd in fds then conns[c].(shut := true) else conns[c])
  }

  ghost function Next(s: System, step: Step): System
    requires Enabled(s, step)
  {
    match step
    case Start(i, connected) => s.(pcs := s.pcs[i := if connected then AtLock else Returned])
    case Accept(fd, woken) =>
      s.(shared := Enqueued(s.shared, fd),
         pcs := Wake(s.pcs, woken),
         conns := s.conns + [Conn(fd, 0, false, false, true)],
         queued := s.queued + [|s.conns|])
    case Spurious(i) => s.(pcs := s.pcs[i := Woken])
    case Turn(i) =>
      (match TurnOf(s.shared)
       case Wait => s.(pcs := s.pcs[i := Asleep])
       case Leave => s.(pcs := s.pcs[i := Returned])
       case Serve(_) =>
         s.(shared := AfterTurn(s.shared, i),
            pcs := s.pcs[i := Serving(s.queued[0])],
            queued := s.queued[1..],
            dispatched := s.dispatched + [(i, s.queued[0])]))
    case Arrive(c) => s.(conns := s.conns[c := s.conns[c].(inbox := s.conns[c].inbox + 1)])
    case PeerClose(c) => s.(conns := s.conns[c := s.conns[c].(peerClosed := true)])
    case Command(i) =>
      var c := s.pcs[i].conn;
      s.(conns := s.conns[c := s.conns[c].(inbox := s.conns[c].inbox - 1)])
    case EndSession(i, _) =>
      var c := s.pcs[i].conn;
      s.(pcs := s.pcs[i := Closed], conns := s.conns[c := s.conns[c].(open := false)])
    case Clear(i) => s.(shared := Cleared(s.shared, i), pcs := s.pcs[i := AtLock])
    case Exit =>
      s.(shared := Exited(s.shared),
         pcs := Broadcast(s.pcs),
         conns := Shutdown(s.conns, ShutAtExit(s.shared)),
         queued := [],
         drained := s.drained + s.queued)
  }

  /* ---------- the invariant ---------- */

  ghost function Handed(dispatched: seq<(nat, nat)>): (r: seq<nat>)
    ensures |r| == |dispatched|
    ensures forall k :: 0 <= k < |r| ==> r[k] == dispatched[k].1
  {
    seq(|dispatched|, k requires 0 <= k < |dispatched| => dispatched[k].1)
  }

  /** Dispatched, then drained, then queued: exactly the accepted connections in accept order. */
  ghost predicate Conserved(s: System) {
    Handed(s.dispatched) + s.drained + s.queued == Iota(|s.conns|)
  }

  /** The queue holds the descriptors of the queued connections; what a worker serves is published;
      an idle worker publishes -1. */
  ghost predicate Published(s: System) {
    && |s.pcs| == |s.shared.busy|
    && |s.shared.queue| == |s.queued|
    && (forall k :: 0 <= k < |s.queued| ==> s.queued[k] < |s.conns| && s.shared.queue[k] == s.conns[s.queued[k]].fd)
    && (forall i :: 0 <= i < |s.pcs| && s.pcs[i].Serving? ==>
          && s.pcs[i].conn < |s.dispatched| <= |s.conns|
          && s.dispatched[s.pcs[i].conn] == (i, s.pcs[i].conn)
          && s.shared.busy[i] == s.conns[s.pcs[i].conn].fd)
    && (forall i :: 0 <= i < |s.pcs| && !s.pcs[i].Serving? && !s.pcs[i].Closed? ==> s.shared.busy[i] == -1)
  }

  /** Open descriptors are distinct; a dispatched connection is open exactly while its worker serves it. */
  ghost predicate Descriptors(s: System) {
    && (forall c :: 0 <= c < |s.conns| && s.conns[c].open ==> s.conns[c].fd >= 0)
    && (forall c, d :: 0 <= c < d < |s.conns| && s.conns[c].open && s.conns[d].open ==> s.conns[c].fd != s.conns[d].fd)
    && |s.dispatched| <= |s.conns|
    && (forall c :: |s.dispatched| <= c < |s.conns| ==> s.conns[c].open)
    && (forall c :: 0 <= c < |s.dispatched| ==>
          (s.conns[c].open <==> s.dispatched[c].0 < |s.pcs| && s.pcs[s.dispatched[c].0] == Serving(c)))
  }

  /** No lost wakeup: while some worker sleeps, every queued connection has a woken worker of its own
      that has not rechecked the queue yet. */
  ghost predicate NoLostWakeup(s: System) {
    Count(s.pcs, IsAsleep) > 0 ==> |s.shared.queue| <= Count(s.pcs, IsWoken)
  }

  ghost predicate Shutting(s: System) {
    && (!s.shared.exit ==> s.drained == [] && forall c :: 0 <= c < |s.conns| ==> !s.conns[c].shut)
    && (s.shared.exit ==>
          && s.queued == []
          && (forall i :: 0 <= i < |s.pcs| ==> !s.pcs[i].Asleep?)
          && (forall c :: 0 <= c < |s.conns| && s.conns[c].open ==> s.conns[c].shut))
  }

  ghost predicate Inv(s: System) {
    Conserved(s) && Published(s) && Descriptors(s) && NoLostWakeup(s) && Shutting(s)
  }

  lemma Positions(s: System)
    requires Conserved(s)
    ensures |s.dispatched| + |s.drained| + |s.queued| == |s.conns|
    ensures forall k :: 0 <= k < |s.dispatched| ==> s.dispatched[k].1 == k
    ensures forall k :: 0 <= k < |s.drained| ==> s.drained[k] == |s.dispatched| + k
    ensures forall k :: 0 <= k < |s.queued| ==> s.queued[k] == |s.dispatched| + |s.drained| + k
  {
    var all := Handed(s.dispatched) + s.drained + s.queued;
    assert |all| == |s.conns|;
    forall k | 0 <= k < |s.dispatched| ensures s.dispatched[k].1 == k {
      assert all[k] == Handed(s.dispatched)[k];
    }
    forall k | 0 <= k < |s.drained| ensures s.drained[k] == |s.dispatched| + k {
      assert all[|s.dispatched| + k] == s.drained[k];
    }
    forall k | 0 <= k < |s.queued| ensures s.queued[k] == |s.dispatched| + |s.drained| + k {
      assert all[|s.dispatched| + |s.drained| + k] == s.queued[k];
    }
  }

  lemma InitialInv(workers: nat)
    ensures Inv(Initial(workers))
  {
    hide Count, Handed;
    var s := Initial(workers);
    CountZero(s.pcs, IsAsleep);
    assert Conserved(s) by {
      var handed := Handed(s.dispatched);
      assert handed == [];
      assert handed + [] + [] == Iota(0);
    }
  }

  lemma KeepsConserved(s: System, step: Step)
    requires Inv(s) && Enabled(s, step)
    ensures Conserved(Next(s, step))
  {
    var t := Next(s, step);
    match step {
      case Accept(_, _) =>
        assert Iota(|s.conns| + 1) == Iota(|s.conns|) + [|s.conns|];
        Associative(Handed(s.dispatched) + s.drained, s.queued, [|s.conns|]);
      case Turn(i) =>
        if TurnOf(s.shared).Serve? {
          TurnConserved(s, t, i);
        }
      case Exit =>
        Associative(Handed(s.dispatched), s.drained, s.queued);
        assert Handed(t.dispatched) + t.drained + [] == Handed(t.dispatched) + t.drained;
      case _ =>
        assert |t.conns| == |s.conns| && t.queued == s.queued && t.dispatched == s.dispatched && t.drained == s.drained;
    }
  }

  lemma TurnConserved(s: System, t: System, i: nat)
    requires Conserved(s) && s.drained == t.drained == [] && s.queued != [] && |t.conns| == |s.conns|
    requires t.queued == s.queued[1..] && t.dispatched == s.dispatched + [(i, s.queued[0])]
    ensures Conserved(t)
  {
    assert Handed(t.dispatched) == Handed(s.dispatched) + [s.queued[0]];
    assert s.queued == [s.queued[0]] + t.queued;
    Associative(Handed(s.dispatched), [s.queued[0]], t.queued);
    assert Handed(s.dispatched) + [] == Handed(s.dispatched);
    assert Handed(t.dispatched) + [] == Handed(t.dispatched);
  }

  lemma EndPublished(s: System, step: Step)
    requires Inv(s) && Enabled(s, step) && step.EndSession?
    ensures Published(Next(s, step))
  {
    hide Conserved, Descriptors, NoLostWakeup;
    var t := Next(s, step);
    assert t.shared == s.shared && t.dispatched == s.dispatched;
    assert forall k :: 0 <= k < |s.conns| ==> t.conns[k].fd == s.conns[k].fd;
  }

  lemma KeepsPublished(s: System, step: Step)
    requires Inv(s) && Enabled(s, step)
    ensures Published(Next(s, step))
  {
    hide Conserved, Descriptors, NoLostWakeup, TurnOf, AfterTurn;
    Positions(s);
    match step {
      case Accept(_, _) => AcceptPublished(s, step);
      case Turn(_) => TurnPublished(s, step);
      case Exit =>
      case EndSession(_, _) => EndPublished(s, step);
      case Start(_, _) =>
      case Spurious(_) =>
      case Arrive(_) => SameDescriptors(s, step);
      case PeerClose(_) => SameDescriptors(s, step);
      case Command(_) => SameDescriptors(s, step);
      case Clear(_) =>
    }
  }

  lemma SameDescriptors(s: System, step: Step)
    requires Inv(s) && Enabled(s, step) && (step.Arrive? || step.PeerClose? || step.Command?)
    ensures var t := Next(s, step);
      && Published(t)
      && t == s.(conns := t.conns) && |t.conns| == |s.conns|
      && forall k :: 0 <= k < |s.conns| ==>
           t.conns[k].fd == s.conns[k].fd && t.conns[k].open == s.conns[k].open && t.conns[k].shut == s.conns[k].shut
  {
    hide Conserved, Descriptors, NoLostWakeup, Shutting;
  }

  lemma AcceptPublished(s: System, step: Step)
    requires Inv(s) && Enabled(s, step) && step.Accept?
    ensures Published(Next(s, step))
  {
    var t := Next(s, step);
    assert forall k :: 0 <= k < |s.conns| ==> t.conns[k] == s.conns[k];
    assert forall k :: 0 <= k < |s.queued| ==> t.queued[k] == s.queued[k];
    assert forall i :: 0 <= i < |s.pcs| && t.pcs[i].Serving? ==> s.pcs[i].Serving?;
  }

  lemma TurnPublished(s: System, step: Step)
    requires Inv(s) && Enabled(s, step) && step.Turn?
    ensures Published(Next(s, step))
  {
    Positions(s);
    var t, i := Next(s, step), step.i;
    if TurnOf(s.shared).Serve? {
      assert s.drained == [];
      var c := s.queued[0];
      assert c == |s.dispatched|;
      assert t.dispatched[c] == (i, c);
      assert forall k :: 0 <= k < |s.dispatched| ==> t.dispatched[k] == s.dispatched[k];
      assert forall k :: 0 <= k < |t.queued| ==> t.queued[k] == s.queued[k + 1] && t.shared.queue[k] == s.shared.queue[k + 1];
    }
  }

  lemma KeepsDescriptors(s: System, step: Step)
    requires Inv(s) && Enabled(s, step)
    ensures Descriptors(Next(s, step))
  {
    match step {
      case Accept(_, _) => AcceptDescriptors(s, step);
      case Turn(_) => TurnDescriptors(s, step);
      case EndSession(_, _) => EndDescriptors(s, step);
      case Arrive(_) => SameDescriptors(s, step);
      case PeerClose(_) => SameDescriptors(s, step);
      case Command(_) => SameDescriptors(s, step);
      case _ => SameServing(s, step);
    }
  }

  lemma SameServing(s: System, step: Step)
    requires Inv(s) && Enabled(s, step) && (step.Start? || step.Spurious? || step.Clear? || step.Exit?)
    ensures Descriptors(Next(s, step))
  {
    hide Conserved, NoLostWakeup, Published;
    var t := Next(s, step);
    assert |t.conns| == |s.conns| && t.dispatched == s.dispatched && |t.pcs| == |s.pcs|;
    assert forall c :: 0 <= c < |s.conns| ==> t.conns[c].fd == s.conns[c].fd && t.conns[c].open == s.conns[c].open;
    assert forall i :: 0 <= i < |s.pcs| && (s.pcs[i].Serving? || t.pcs[i].Serving?) ==> t.pcs[i] == s.pcs[i];
  }

  lemma AcceptDescriptors(s: System, step: Step)
    requires Inv(s) && Enabled(s, step) && step.Accept?
    ensures Descriptors(Next(s, step))
  {
    var t := Next(s, step);
    assert forall k :: 0 <= k < |s.conns| ==> t.conns[k] == s.conns[k];
    assert forall i, c :: 0 <= i < |s.pcs| ==> (t.pcs[i] == Serving(c) <==> s.pcs[i] == Serving(c));
  }

  lemma TurnDescriptors(s: System, step: Step)
    requires Inv(s) && Enabled(s, step) && step.Turn?
    ensures Descriptors(Next(s, step))
  {
    Positions(s);
    var t, i := Next(s, step), step.i;
    if TurnOf(s.shared).Serve? {
      var c := s.queued[0];
      assert c == |s.dispatched| && t.dispatched[c] == (i, c);
      assert forall k :: 0 <= k < |s.dispatched| ==> t.dispatched[k] == s.dispatched[k];
      assert forall k :: 0 <= k < |s.dispatched| ==> !(s.dispatched[k].0 == i && t.pcs[i] == Serving(k));
    }
  }

  lemma EndDescriptors(s: System, step: Step)
    requires Inv(s) && Enabled(s, step) && step.EndSession?
    ensures Descriptors(Next(s, step))
  {
    var t, i := Next(s, step), step.i;
    var c := s.pcs[i].conn;
    assert s.dispatched[c] == (i, c);
    assert forall k :: 0 <= k < |s.conns| && k != c ==> t.conns[k] == s.conns[k];
  }

  lemma TurnShutting(s: System, step: Step)
    requires Inv(s) && Enabled(s, step) && step.Turn?
    ensures Shutting(Next(s, step))
  {
    hide NoLostWakeup, Conserved, Descriptors;
  }

  lemma KeepsShutting(s: System, step: Step)
    requires Inv(s) && Enabled(s, step)
    ensures Shutting(Next(s, step))
  {
    hide NoLostWakeup, Conserved;
    Positions(s);
    match step {
      case Exit => ExitShutsAll(s);
      case Turn(_) => TurnShutting(s, step);
      case _ =>
    }
  }

  /** The signal behind an accept wakes a sleeper of its own, if anyone sleeps. */
  lemma AcceptWakeup(s: System, step: Step)
    requires NoLostWakeup(s) && Enabled(s, step) && step.Accept?
    ensures NoLostWakeup(Next(s, step))
  {
    var t := Next(s, step);
    if Count(t.pcs, IsAsleep) > 0 {
      CountZero(t.pcs, IsAsleep);
      var i :| 0 <= i < |t.pcs| && t.pcs[i].Asleep?;
      CountZero(s.pcs, IsAsleep);
      assert s.pcs[i] == Asleep;
      var w :| w in step.woken;
      assert IsWoken(t.pcs[w]) && !IsWoken(s.pcs[w]);
      CountMonotone(s.pcs, t.pcs, IsWoken);
    }
  }

  lemma TurnWakeup(s: System, step: Step)
    requires Inv(s) && Enabled(s, step) && step.Turn?
    ensures NoLostWakeup(Next(s, step))
  {
    hide Conserved, Published, Descriptors;
    CountZero(s.pcs, IsAsleep);
    UpdateCounts(s.pcs, step.i, Next(s, step).pcs[step.i]);
  }

  lemma KeepsWakeup(s: System, step: Step)
    requires Inv(s) && Enabled(s, step)
    ensures NoLostWakeup(Next(s, step))
  {
    hide Conserved, Published, Descriptors, TurnOf, AfterTurn;
    var t := Next(s, step);
    match step {
      case Accept(_, _) => AcceptWakeup(s, step);
      case Exit => CountZero(t.pcs, IsAsleep);
      case Arrive(_) =>
      case PeerClose(_) =>
      case Command(_) =>
      case Start(i, _) => UpdateCounts(s.pcs, i, t.pcs[i]);
      case Spurious(i) => UpdateCounts(s.pcs, i, t.pcs[i]);
      case Turn(_) => TurnWakeup(s, step);
      case EndSession(i, _) => UpdateCounts(s.pcs, i, t.pcs[i]);
      case Clear(i) => UpdateCounts(s.pcs, i, t.pcs[i]);
    }
  }

  lemma UpdateCounts(pcs: seq<Pc>, i: nat, pc: Pc)
    requires i < |pcs|
    ensures Count(pcs[i := pc], IsAsleep) + (if pcs[i].Asleep? then 1 else 0) == Count(pcs, IsAsleep) + (if pc.Asleep? then 1 else 0)
    ensures Count(pcs[i := pc], IsWoken) + (if pcs[i].Woken? then 1 else 0) == Count(pcs, IsWoken) + (if pc.Woken? then 1 else 0)
  {
    CountUpdate(pcs, IsAsleep, i, pc);
    CountUpdate(pcs, IsWoken, i, pc);
  }

  lemma StepKeepsInv(s: System, step: Step)
    requires Inv(s) && Enabled(s, step)
    ensures Inv(Next(s, step))
  {
    KeepsConserved(s, step);
    KeepsPublished(s, step);
    KeepsDescriptors(s, step);
    KeepsWakeup(s, step);
    KeepsShutting(s, step);
  }

  /* ---------- the exit step ---------- */

  /** Which connection a descriptor in the shutdown list reaches: one still queued or one being served.
      Stale entries of busy_fds reach nothing else, and no open connection is missed. */
  lemma ExitShutsAll(s: System)
    requires Inv(s) && !s.shared.exit
    ensures forall c :: 0 <= c < |s.conns| ==>
      (s.conns[c].open <==> c in s.queued || exists i :: 0 <= i < |s.pcs| && s.pcs[i] == Serving(c))
    ensures forall c :: 0 <= c < |s.conns| && s.conns[c].open ==> Next(s, Exit).conns[c].shut
  {
    Positions(s);
    forall c | 0 <= c < |s.conns|
      ensures s.conns[c].open <==> c in s.queued || exists i :: 0 <= i < |s.pcs| && s.pcs[i] == Serving(c)
      ensures s.conns[c].open ==> s.conns[c].fd in ShutAtExit(s.shared)
    {
      KnownMembers(s.shared.queue, s.conns[c].fd);
      KnownMembers(s.shared.busy, s.conns[c].fd);
      if c < |s.dispatched| {
        if c in s.queued { assert false; }
        if s.conns[c].open {
          var i := s.dispatched[c].0;
          assert s.pcs[i] == Serving(c) && s.shared.busy[i] == s.conns[c].fd;
        }
      } else {
        assert s.queued[c - |s.dispatched|] == c;
        assert s.shared.queue[c - |s.dispatched|] == s.conns[c].fd;
      }
    }
  }

  /* ---------- whole runs ---------- */

  ghost predicate Feasible(s: System, steps: seq<Step>)
    decreases |steps|
  {
    steps == [] || (Enabled(s, steps[0]) && Feasible(Next(s, steps[0]), steps[1..]))
  }

  ghost function After(s: System, steps: seq<Step>): System
    requires Feasible(s, steps)
    decreases |steps|
  {
    if steps == [] then s else After(Next(s, steps[0]), steps[1..])
  }

  lemma {:induction false} RunKeepsInv(s: System, steps: seq<Step>)
    requires Inv(s) && Feasible(s, steps)
    ensures Inv(After(s, steps))
    decreases |steps|
  {
    if steps != [] {
      StepKeepsInv(s, steps[0]);
      RunKeepsInv(Next(s, steps[0]), steps[1..]);
    }
  }

  /** A state some interleaving reaches from a fresh pool of some size. */
  ghost predicate Reachable(s: System) {
    exists workers: nat, steps :: Feasible(Initial(workers), steps) && s == After(Initial(workers), steps)
  }

  lemma ReachableInv(s: System)
    requires Reachable(s)
    ensures Inv(s)
  {
    var workers: nat, steps :| Feasible(Initial(workers), steps) && s == After(Initial(workers), steps);
    InitialInv(workers);
    RunKeepsInv(Initial(workers), steps);
  }

  /** The accepted connections are, in accept order, the dispatched ones, then the drained ones, then
      the queued ones. So each is handed to at most one worker, once, and never both handed out and
      drained. */
  lemma ConnectionConservation(s: System)
    requires Reachable(s)
    ensures Handed(s.dispatched) + s.drained + s.queued == Iota(|s.conns|)
    ensures forall j, k :: 0 <= j < k < |s.dispatched| ==> s.dispatched[j].1 != s.dispatched[k].1
    ensures forall j, k :: 0 <= j < |s.dispatched| && 0 <= k < |s.drained| ==> s.dispatched[j].1 != s.drained[k]
  {
    ReachableInv(s);
    Positions(s);
  }

  /** No lost wakeup: a worker sleeps only before exit, and only while at least as many woken workers
      are on their way to the queue as there are connections in it. */
  lemma NoWakeupIsLost(s: System)
    requires Reachable(s)
    requires exists i :: 0 <= i < |s.pcs| && s.pcs[i].Asleep?
    ensures !s.shared.exit
    ensures |s.queued| == |s.shared.queue| <= Count(s.pcs, IsWoken)
    ensures s.queued != [] ==> exists i :: 0 <= i < |s.pcs| && s.pcs[i].Woken?
  {
    ReachableInv(s);
    CountZero(s.pcs, IsAsleep);
    CountZero(s.pcs, IsWoken);
  }

  /** While a connection waits and the server is not exiting, either every worker is starting, serving,
      clearing or gone, or some worker can take the oldest connection right now. */
  lemma QueueIsServed(s: System)
    requires Reachable(s) && !s.shared.exit && s.queued != []
    requires exists i :: 0 <= i < |s.pcs| && (s.pcs[i].Asleep? || s.pcs[i].AtLock? || s.pcs[i].Woken?)
    ensures exists i :: Enabled(s, Turn(i)) && Next(s, Turn(i)).dispatched == s.dispatched + [(i, s.queued[0])]
  {
    ReachableInv(s);
    CountZero(s.pcs, IsAsleep);
    CountZero(s.pcs, IsWoken);
    var i :| 0 <= i < |s.pcs| && (s.pcs[i].AtLock? || s.pcs[i].Woken?);
    assert Enabled(s, Turn(i));
  }

  /* ---------- who leaves, and that every connection can be served ---------- */

  /** Before exit the only way to return is to start without a database connection. */
  lemma OnlyStartReturns(s: System, step: Step, i: nat)
    requires Enabled(s, step) && !s.shared.exit && i < |s.pcs|
    ensures |Next(s, step).pcs| == |s.pcs|
    ensures Next(s, step).pcs[i] == Returned <==> s.pcs[i] == Returned || step == Start(i, false)
    ensures Next(s, step).pcs[i] == Starting <==> s.pcs[i] == Starting && !(step.Start? && step.i == i)
  {
  }

  /** The exit flag is never taken back. */
  lemma ExitStays(s: System, step: Step)
    requires Enabled(s, step)
    ensures Next(s, step).shared.exit <==> s.shared.exit || step.Exit?
  {
  }

  /** Over every run that has not come to exit: a worker has returned exactly when it started without a
      database connection, and is starting exactly when it never started. */
  lemma {:induction false} ReturnedIff(s: System, steps: seq<Step>, i: nat)
    requires Feasible(s, steps) && !After(s, steps).shared.exit && i < |s.pcs|
    ensures !s.shared.exit && i < |After(s, steps).pcs|
    ensures After(s, steps).pcs[i] == Returned <==> s.pcs[i] == Returned || Start(i, false) in steps
    ensures After(s, steps).pcs[i] == Starting <==> s.pcs[i] == Starting && Start(i, true) !in steps && Start(i, false) !in steps
    decreases |steps|
  {
    if steps != [] {
      var n := Next(s, steps[0]);
      ExitStays(s, steps[0]);
      ReturnedIff(n, steps[1..], i);
      OnlyStartReturns(s, steps[0], i);
      assert forall step :: step in steps <==> step == steps[0] || step in steps[1..];
    }
  }

  /** A worker that started with a connection stays at work until exit. */
  lemma ConnectedWorkersStay(workers: nat, steps: seq<Step>, i: nat)
    requires Feasible(Initial(workers), steps) && !After(Initial(workers), steps).shared.exit
    requires i < workers && Start(i, true) in steps
    ensures i < |After(Initial(workers), steps).pcs| && AtWork(After(Initial(workers), steps), i)
  {
    ReturnedIff(Initial(workers), steps, i);
    StartsOnce(Initial(workers), steps, i);
  }

  lemma {:induction false} StartsOnce(s: System, steps: seq<Step>, i: nat)
    requires Feasible(s, steps) && !After(s, steps).shared.exit && i < |s.pcs|
    ensures !(Start(i, true) in steps && Start(i, false) in steps)
    ensures s.pcs[i] != Starting ==> Start(i, true) !in steps && Start(i, false) !in steps
    decreases |steps|
  {
    if steps != [] {
      ReturnedIff(s, steps, i);
      StartsOnce(Next(s, steps[0]), steps[1..], i);
      OnlyStartReturns(s, steps[0], i);
      assert forall step :: step in steps <==> step == steps[0] || step in steps[1..];
    }
  }

  /** Started with a connection, and not gone. */
  predicate AtWork(s: System, i: nat) {
    i < |s.pcs| && s.pcs[i] != Starting && s.pcs[i] != Returned
  }

  /** A turn before exit: to sleep at an empty queue, and otherwise off with the oldest connection. */
  lemma TurnBeforeExit(s: System, i: nat)
    requires Enabled(s, Turn(i)) && !s.shared.exit
    ensures s.queued == [] ==> Next(s, Turn(i)) == s.(pcs := s.pcs[i := Asleep])
    ensures s.queued != [] ==>
      && Next(s, Turn(i)).dispatched == s.dispatched + [(i, s.queued[0])]
      && Next(s, Turn(i)).pcs == s.pcs[i := Serving(s.queued[0])]
      && Next(s, Turn(i)).shared.busy == s.shared.busy[i := s.shared.queue[0]]
  {
  }

  /** The oldest queued connection is handed out by this run, in which nobody exits, nothing is accepted,
      no packet is malformed and nobody wakes without reason. */
  ghost predicate Dispatches(s: System, steps: seq<Step>) {
    && Feasible(s, steps) && s.queued != []
    && (exists i :: After(s, steps).dispatched == s.dispatched + [(i, s.queued[0])])
    && forall k :: 0 <= k < |steps| ==> Friendly(steps[k])
  }

  predicate Friendly(step: Step) {
    step.Turn? || step.Clear? || step.Command? || step.PeerClose? || (step.EndSession? && !step.malformed)
  }

  lemma DispatchesAfter(s: System, step: Step, steps: seq<Step>)
    requires Enabled(s, step) && Friendly(step) && s.queued != [] && Dispatches(Next(s, step), steps)
    requires Next(s, step).dispatched == s.dispatched && Next(s, step).queued == s.queued
    ensures Dispatches(s, [step] + steps)
  {
    var all := [step] + steps;
    assert all[0] == step && all[1..] == steps;
    assert forall k :: 1 <= k < |all| ==> all[k] == steps[k - 1];
    assert After(s, all) == After(Next(s, step), steps);
  }

  lemma TurnDispatches(s: System, i: nat)
    requires Enabled(s, Turn(i)) && !s.shared.exit && s.queued != []
    ensures Dispatches(s, [Turn(i)])
  {
    TurnBeforeExit(s, i);
    assert After(Next(s, Turn(i)), []) == Next(s, Turn(i));
    assert [Turn(i)][1..] == [];
  }

  /** In every state before exit with a connection queued and a worker at work, the oldest connection can
      be handed out: by a worker that is up already, or by this one once its client has been served. */
  lemma OldestCanBeServed(s: System, i: nat) returns (steps: seq<Step>)
    requires Reachable(s) && !s.shared.exit && s.queued != [] && AtWork(s, i)
    ensures Dispatches(s, steps)
  {
    ReachableInv(s);
    steps := CanDispatch(s, i);
  }

  lemma CanDispatch(s: System, i: nat) returns (steps: seq<Step>)
    requires Inv(s) && !s.shared.exit && s.queued != [] && AtWork(s, i)
    ensures Dispatches(s, steps)
  {
    match s.pcs[i] {
      case AtLock =>
        steps := [Turn(i)];
        TurnDispatches(s, i);
      case Woken =>
        steps := [Turn(i)];
        TurnDispatches(s, i);
      case Asleep =>
        var j := WokenTurn(s, i);
        steps := [Turn(j)];
        TurnDispatches(s, j);
      case Closed => steps := ClearThenDispatch(s, i);
      case Serving(c) => steps := ServeThenDispatch(s, i);
    }
  }

  /** No lost wakeup, once more: while one sleeps and a connection waits, somebody has been woken for it. */
  lemma WokenTurn(s: System, i: nat) returns (j: nat)
    requires Inv(s) && s.queued != [] && i < |s.pcs| && s.pcs[i] == Asleep
    ensures Enabled(s, Turn(j))
  {
    CountZero(s.pcs, IsAsleep);
    CountZero(s.pcs, IsWoken);
    j :| 0 <= j < |s.pcs| && s.pcs[j].Woken?;
  }

  lemma ClearThenDispatch(s: System, i: nat) returns (steps: seq<Step>)
    requires Inv(s) && !s.shared.exit && s.queued != [] && i < |s.pcs| && s.pcs[i] == Closed
    ensures Dispatches(s, steps)
  {
    var n := Next(s, Clear(i));
    TurnDispatches(n, i);
    DispatchesAfter(s, Clear(i), [Turn(i)]);
    steps := [Clear(i)] + [Turn(i)];
  }

  /** The client's commands are served, it closes, and the worker comes back. */
  lemma ServeThenDispatch(s: System, i: nat) returns (steps: seq<Step>)
    requires Inv(s) && !s.shared.exit && s.queued != [] && i < |s.pcs| && s.pcs[i].Serving?
    ensures Dispatches(s, steps)
    decreases if s.pcs[i].conn < |s.conns| then s.conns[s.pcs[i].conn].inbox else 0,
      if s.pcs[i].conn < |s.conns| && !s.conns[s.pcs[i].conn].peerClosed then 1 else 0
  {
    var c := s.pcs[i].conn;
    assert c < |s.conns| && s.conns[c].open && !s.conns[c].shut;
    var step :=
      if s.conns[c].inbox > 0 then Command(i)
      else if !s.conns[c].peerClosed then PeerClose(c)
      else EndSession(i, false);
    StepKeepsInv(s, step);
    var n := Next(s, step);
    var rest;
    if step.EndSession? {
      rest := ClearThenDispatch(n, i);
    } else {
      rest := ServeThenDispatch(n, i);
    }
    DispatchesAfter(s, step, rest);
    steps := [step] + rest;
  }

  /** The exit step: every session being served is published and is shut down, the queued connections
      are drained and shut down, and no connection outside these two groups is touched, however stale
      busy_fds is. */
  lemma ExitReachesEverySession(s: System)
    requires Reachable(s) && !s.shared.exit
    ensures var t := Next(s, Exit);
      t.drained == s.queued && t.queued == [] && t.dispatched == s.dispatched && |t.conns| == |s.conns|
    ensures |s.shared.busy| == |s.pcs| == |Next(s, Exit).pcs|
    ensures forall i :: 0 <= i < |s.pcs| ==> !Next(s, Exit).pcs[i].Asleep?
    ensures forall i :: 0 <= i < |s.pcs| && s.pcs[i].Serving? ==>
      && s.pcs[i].conn < |s.conns|
      && s.shared.busy[i] == s.conns[s.pcs[i].conn].fd
      && Next(s, Exit).conns[s.pcs[i].conn].shut
    ensures forall c :: 0 <= c < |s.conns| ==>
      (Next(s, Exit).conns[c].shut <==> c in s.queued || exists i :: 0 <= i < |s.pcs| && s.pcs[i] == Serving(c))
  {
    ReachableInv(s);
    ExitShutsAll(s);
    assert s.drained == [];
    forall i | 0 <= i < |s.pcs| && s.pcs[i].Serving?
      ensures s.conns[s.pcs[i].conn].open
    {
      var c := s.pcs[i].conn;
      assert s.dispatched[c] == (i, c);
    }
  }

  /** Once exiting: nothing is accepted, queued, dispatched or drained any more, by any run. */
  lemma {:induction false} ExitIsFinal(s: System, steps: seq<Step>)
    requires Inv(s) && s.shared.exit && Feasible(s, steps)
    ensures var t := After(s, steps);
      && t.shared.exit && t.queued == [] && t.shared.queue == []
      && t.dispatched == s.dispatched && t.drained == s.drained && |t.conns| == |s.conns|
    decreases |steps|
  {
    if steps != [] {
      StepKeepsInv(s, steps[0]);
      ExitIsFinal(Next(s, steps[0]), steps[1..]);
    }
  }

  /* ---------- termination after exit ---------- */

  /** How much a worker still has to do once the server is exiting. */
  ghost function Work(conns: seq<Conn>, pc: Pc): nat {
    match pc
    case Returned => 0
    case AtLock => 1
    case Asleep => 1
    case Woken => 1
    case Starting => 2
    case Closed => 2
    case Serving(c) => 3 + if c < |conns| then conns[c].inbox else 0
  }

  ghost function Measure(conns: seq<Conn>, pcs: seq<Pc>): nat {
    if pcs == [] then 0 else Work(conns, pcs[0]) + Measure(conns, pcs[1..])
  }

  lemma {:induction false} MeasureLess(conns: seq<Conn>, pcs: seq<Pc>, conns': seq<Conn>, pcs': seq<Pc>, i: nat)
    requires |pcs| == |pcs'| && i < |pcs|
    requires forall j :: 0 <= j < |pcs| && j != i ==> Work(conns', pcs'[j]) == Work(conns, pcs[j])
    requires Work(conns', pcs'[i]) < Work(conns, pcs[i])
    ensures Measure(conns', pcs') < Measure(conns, pcs)
  {
    if i == 0 {
      MeasureSame(conns, pcs[1..], conns', pcs'[1..]);
    } else {
      MeasureLess(conns, pcs[1..], conns', pcs'[1..], i - 1);
    }
  }

  lemma {:induction false} MeasureSame(conns: seq<Conn>, pcs: seq<Pc>, conns': seq<Conn>, pcs': seq<Pc>)
    requires |pcs| == |pcs'|
    requires forall j :: 0 <= j < |pcs| ==> Work(conns', pcs'[j]) == Work(conns, pcs[j])
    ensures Measure(conns', pcs') == Measure(conns, pcs)
  {
    if pcs != [] { MeasureSame(conns, pcs[1..], conns', pcs'[1..]); }
  }

  lemma OthersUntouched(s: System, i: nat)
    requires Inv(s) && ServingOk(s, i)
    ensures forall j :: 0 <= j < |s.pcs| && j != i ==> s.pcs[j] != s.pcs[i]
  {
    var c := s.pcs[i].conn;
    assert s.dispatched[c] == (i, c);
    assert forall j :: 0 <= j < |s.pcs| && s.pcs[j] == Serving(c) ==> s.dispatched[c] == (j, c);
  }

  lemma CommandShrinks(s: System, step: Step)
    requires Inv(s) && Enabled(s, step) && (step.Command? || step.EndSession?)
    ensures Measure(Next(s, step).conns, Next(s, step).pcs) < Measure(s.conns, s.pcs)
  {
    hide Conserved, NoLostWakeup, Shutting, Measure;
    var t := Next(s, step);
    OthersUntouched(s, step.i);
    forall j | 0 <= j < |s.pcs| && j != step.i ensures Work(t.conns, t.pcs[j]) == Work(s.conns, s.pcs[j]) {
      assert t.pcs[j] == s.pcs[j] != s.pcs[step.i];
    }
    MeasureLess(s.conns, s.pcs, t.conns, t.pcs, step.i);
  }

  /** Only workers move after exit, and each move leaves less to do. */
  lemma ExitStepShrinks(s: System, step: Step)
    requires Inv(s) && s.shared.exit && Enabled(s, step)
    ensures Measure(Next(s, step).conns, Next(s, step).pcs) < Measure(s.conns, s.pcs)
  {
    hide Conserved, NoLostWakeup, Measure, Published;
    var t := Next(s, step);
    match step {
      case Start(i, _) => MeasureLess(s.conns, s.pcs, t.conns, t.pcs, i);
      case Turn(i) => MeasureLess(s.conns, s.pcs, t.conns, t.pcs, i);
      case Clear(i) => MeasureLess(s.conns, s.pcs, t.conns, t.pcs, i);
      case EndSession(_, _) => CommandShrinks(s, step);
      case Command(_) => CommandShrinks(s, step);
    }
  }

  lemma WorkerCanMove(s: System, i: nat)
    requires Inv(s) && s.shared.exit && i < |s.pcs| && s.pcs[i] != Returned
    ensures exists step :: Enabled(s, step)
  {
    match s.pcs[i] {
      case Starting => assert Enabled(s, Start(i, true));
      case AtLock => assert Enabled(s, Turn(i));
      case Woken => assert Enabled(s, Turn(i));
      case Closed => assert Enabled(s, Clear(i));
      case Serving(c) =>
        Positions(s);
        assert s.conns[c].open;
        if s.conns[c].inbox > 0 {
          assert Enabled(s, Command(i));
        } else {
          assert Enabled(s, EndSession(i, false));
        }
    }
  }

  /** Nothing can move exactly when every worker has returned. */
  lemma StuckIff(s: System)
    requires Inv(s) && s.shared.exit
    ensures (forall i :: 0 <= i < |s.pcs| ==> s.pcs[i] == Returned) <==> !exists step :: Enabled(s, step)
  {
    if exists i :: 0 <= i < |s.pcs| && s.pcs[i] != Returned {
      var i :| 0 <= i < |s.pcs| && s.pcs[i] != Returned;
      WorkerCanMove(s, i);
    } else if exists step :: Enabled(s, step) {
      var step :| Enabled(s, step);
      NothingToDo(s.conns, s.pcs);
      ExitStepShrinks(s, step);
    }
  }

  lemma {:induction false} NothingToDo(conns: seq<Conn>, pcs: seq<Pc>)
    requires forall i :: 0 <= i < |pcs| ==> pcs[i] == Returned
    ensures Measure(conns, pcs) == 0
  {
    if pcs != [] { NothingToDo(conns, pcs[1..]); }
  }

  /** Every run after exit is at most as long as the work that was left, and it can always be
      continued until every worker has returned. */
  lemma {:induction false} ShutdownTerminates(s: System, steps: seq<Step>)
    requires Inv(s) && s.shared.exit && Feasible(s, steps)
    ensures |steps| + Measure(After(s, steps).conns, After(s, steps).pcs) <= Measure(s.conns, s.pcs)
    ensures var t := After(s, steps);
      (forall i :: 0 <= i < |t.pcs| ==> t.pcs[i] == Returned) <==> !exists step :: Enabled(t, step)
    decreases |steps|
  {
    hide Conserved, Published, Descriptors, NoLostWakeup, Measure;
    if steps != [] {
      StepKeepsInv(s, steps[0]);
      ExitStepShrinks(s, steps[0]);
      ShutdownTerminates(Next(s, steps[0]), steps[1..]);
    } else {
      StuckIff(s);
    }
  }

  /** When every worker has returned, the connections still open are exactly the drained ones: they
      were shut down at exit but nothing closes them. */
  lemma DrainedStayOpen(s: System)
    requires Reachable(s) && s.shared.exit
    requires forall i :: 0 <= i < |s.pcs| ==> s.pcs[i] == Returned
    ensures forall c :: 0 <= c < |s.conns| ==> (s.conns[c].open <==> c in s.drained)
  {
    ReachableInv(s);
    Positions(s);
    forall c | 0 <= c < |s.conns| ensures s.conns[c].open <==> c in s.drained {
      if c >= |s.dispatched| {
        assert s.drained[c - |s.dispatched|] == c;
      }
    }
  }
}
