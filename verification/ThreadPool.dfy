/** The state the worker pool shares under its mutex, and the four regions of code that run while
    holding it (src/server/thread_pool.c, src/server/worker.c, src/server/server.c). */
module ThreadPool {
  import opened Basics
  import opened FdQueue

  /** The shared part of `thread_pool_t`: queued descriptors, exit flag, and busy_fds (-1 when idle). */
  datatype Shared = Shared(queue: seq<int>, exit: bool, busy: seq<int>)

  /** What a worker does when it holds the lock at the top of its loop. */
  datatype Turn = Wait | Leave | Serve(fd: int)

  function Enqueued(s: Shared, fd: int): Shared {
    s.(queue := s.queue + [fd])
  }

  /** The decision taken under the lock: the exit flag wins over a waiting connection. */
  function TurnOf(s: Shared): Turn {
    if s.exit then Leave else if s.queue == [] then Wait else Serve(s.queue[0])
  }

  function AfterTurn(s: Shared, i: nat): Shared
    requires i < |s.busy|
  {
    if TurnOf(s).Serve? then s.(queue := s.queue[1..], busy := s.busy[i := s.queue[0]]) else s
  }

  function Cleared(s: Shared, i: nat): Shared
    requires i < |s.busy|
  {
    s.(busy := s.busy[i := -1])
  }

  function Known(fds: seq<int>): seq<int> {
    if fds == [] then [] else (if fds[0] != -1 then [fds[0]] else []) + Known(fds[1..])
  }

  /** The exit region empties the queue and raises the flag; busy_fds is left as it is. */
  function Exited(s: Shared): Shared {
    s.(queue := [], exit := true)
  }

  /** The descriptors it shuts down: the drained ones, then the published ones. */
  function ShutAtExit(s: Shared): seq<int> {
    Known(s.queue) + Known(s.busy)
  }

  lemma {:induction false} KnownMembers(fds: seq<int>, fd: int)
    ensures fd in Known(fds) <==> fd != -1 && fd in fds
  {
    if fds != [] {
      KnownMembers(fds[1..], fd);
      assert fd in fds <==> fd == fds[0] || fd in fds[1..];
    }
  }

  lemma {:induction false} KnownAppend(fds: seq<int>, fd: int)
    ensures Known(fds + [fd]) == Known(fds) + (if fd != -1 then [fd] else [])
  {
    if fds == [] {
      assert (fds + [fd])[1..] == [];
    } else {
      assert (fds + [fd])[1..] == fds[1..] + [fd];
      KnownAppend(fds[1..], fd);
    }
  }

  lemma KnownHead(fds: seq<int>)
    requires fds != []
    ensures Known(fds) == (if fds[0] != -1 then [fds[0]] else []) + Known(fds[1..])
  {
  }

  lemma NothingKnown()
    ensures Known([]) == []
  {
  }

  class Pool {
    const num: nat
    const queue: Queue
    const busyFds: array<int>
    var exitFlag: bool
    // how often the condition variable has been signalled, and broadcast to
    ghost var signals: nat
    ghost var broadcasts: nat

    ghost predicate Valid()
      reads this, queue, queue.nodes, busyFds
    {
      busyFds.Length == num && queue.Valid()
    }

    ghost function View(): Shared
      reads this, queue, busyFds
    {
      Shared(queue.contents, exitFlag, busyFds[..])
    }

    /** init_thread_pool: nothing queued, not exiting, no worker busy. */
    constructor (num: nat)
      ensures Valid() && fresh(queue) && fresh(queue.nodes) && fresh(busyFds)
      ensures View() == Shared([], false, seq(num, i => -1))
      ensures this.num == num && signals == broadcasts == 0
    {
      this.num := num;
      var busy := new int[num];
      for idx := 0 to num
        invariant forall j :: 0 <= j < idx ==> busy[j] == -1
      {
        busy[idx] := -1;
      }
      assert busy[..] == seq(num, i => -1);
      var q := new Queue();
      queue, busyFds, exitFlag, signals, broadcasts := q, busy, false, 0, 0;
    }

    /** The accept branch between lock and unlock: enqueue, then signal. */
    method Accept(connFd: int)
      requires Valid()
      modifies queue, queue.nodes, `signals
      ensures Valid() && View() == Enqueued(old(View()), connFd) && signals == old(signals) + 1
      ensures forall k :: 0 <= k < |queue.nodes| ==> queue.nodes[k] in old(queue.nodes) || fresh(queue.nodes[k])
    {
      var _ := queue.EnQueue(connFd);
      signals := signals + 1;
    }

    /** A worker's region: it leaves exactly when the flag is up, waits exactly when it is not and nothing
        is queued, and otherwise takes the oldest descriptor and publishes it. */
    method TakeTurn(i: nat) returns (t: Turn)
      requires Valid() && i < num
      modifies queue, busyFds
      ensures Valid() && exitFlag == old(exitFlag)
      ensures t == Leave <==> exitFlag
      ensures t == Wait <==> !exitFlag && old(queue.contents) == []
      ensures t.Serve? ==> old(queue.contents) == [t.fd] + queue.contents && busyFds[..] == old(busyFds[..])[i := t.fd]
      ensures !t.Serve? ==> queue.contents == old(queue.contents) && busyFds[..] == old(busyFds[..])
      ensures t == TurnOf(old(View())) && View() == AfterTurn(old(View()), i)
      ensures forall k :: 0 <= k < |queue.nodes| ==> queue.nodes[k] in old(queue.nodes)
    {
      if queue.size == 0 && !exitFlag {
        return Wait;
      }
      if exitFlag {
        return Leave;
      }
      var clientFd := queue.DeQueue();
      busyFds[i] := clientFd;
      return Serve(clientFd);
    }

    method Clear(i: nat)
      requires Valid() && i < num
      modifies busyFds
      ensures Valid() && View() == Cleared(old(View()), i)
    {
      busyFds[i] := -1;
    }

    /** The drain loop: empties the queue, shutting each descriptor down. */
    method Drain() returns (shut: seq<int>)
      requires Valid()
      modifies queue
      ensures Valid() && queue.contents == []
      ensures shut == Known(old(queue.contents))
      ensures forall k :: 0 <= k < |queue.nodes| ==> queue.nodes[k] in old(queue.nodes)
    {
      hide Known, Queue.Valid;
      shut := [];
      queue.SizeCounts();
      while queue.size > 0
        invariant Valid() && queue.size == |queue.contents|
        invariant forall k :: 0 <= k < |queue.nodes| ==> queue.nodes[k] in old(queue.nodes)
        invariant shut + Known(queue.contents) == Known(old(queue.contents))
        decreases queue.size
      {
        KnownHead(queue.contents);
        var clientFd := queue.DeQueue();
        queue.SizeCounts();
        if clientFd != -1 {
          Associative(shut, [clientFd], Known(queue.contents));
          shut := shut + [clientFd];
        }
      }
      NothingKnown();
    }

    /** The loop over busy_fds. */
    method ShutBusy() returns (shut: seq<int>)
      requires Valid()
      ensures shut == Known(busyFds[..])
    {
      shut := [];
      for i := 0 to num
        invariant shut == Known(busyFds[..i])
      {
        KnownAppend(busyFds[..i], busyFds[i]);
        assert busyFds[..i + 1] == busyFds[..i] + [busyFds[i]];
        if busyFds[i] != -1 {
          shut := shut + [busyFds[i]];
        }
      }
      assert busyFds[..num] == busyFds[..];
    }

    /** The exit branch between lock and unlock: raise the flag, drain, shut down what is published, and
        broadcast. */
    method Exit() returns (shut: seq<int>)
      requires Valid()
      modifies this, queue
      ensures Valid() && View() == Exited(old(View()))
      ensures broadcasts == old(broadcasts) + 1 && signals == old(signals)
      ensures shut == ShutAtExit(old(View()))
    {
      exitFlag := true;
      var drained := Drain();
      var busy := ShutBusy();
      shut := drained + busy;
      broadcasts := broadcasts + 1;
    }
  }
}
