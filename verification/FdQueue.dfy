/** The linked FIFO of accepted connections (src/server/queue.c). */
module FdQueue {
  import opened Basics

  class Node {
    var fd: int
    var next: Node?

    constructor (fd: int)
      ensures this.fd == fd && next == null
    {
      this.fd := fd;
      next := null;
    }
  }

  class Queue {
    var head: Node?
    var end: Node?
    var size: int
    ghost var nodes: seq<Node>     // the chain, from head to end
    ghost var contents: seq<int>   // the queued descriptors, oldest first

    /** `size` counts the chain, `head` and `end` are its two ends, and the chain is acyclic. */
    ghost predicate Valid()
      reads this, nodes
    {
      && size == |nodes| == |contents|
      && (forall i, j :: 0 <= i < j < |nodes| ==> nodes[i] != nodes[j])
      && (forall i :: 0 <= i < |nodes| ==> nodes[i].fd == contents[i])
      && (forall i :: 0 <= i < |nodes| - 1 ==> nodes[i].next == nodes[i + 1])
      && (nodes == [] ==> head == null && end == null)
      && (nodes != [] ==> head == nodes[0] && end == nodes[|nodes| - 1] && nodes[|nodes| - 1].next == null)
    }

    lemma SizeCounts()
      requires Valid()
      ensures size == |contents|
    {
    }

    /** The all-zero queue that the thread pool starts from. */
    constructor ()
      ensures Valid() && contents == [] && nodes == []
    {
      head, end, size := null, null, 0;
      nodes, contents := [], [];
    }

    method EnQueue(fd: int) returns (r: int)
      requires Valid()
      modifies this, nodes
      ensures Valid() && r == 0
      ensures contents == old(contents) + [fd]
      ensures forall k :: 0 <= k < |nodes| ==> nodes[k] in old(nodes) || fresh(nodes[k])
    {
      var node := new Node(fd);
      if size == 0 {
        head := node;
        end := node;
      } else {
        end.next := node;
        end := node;
      }
      size := size + 1;
      nodes, contents := nodes + [node], contents + [fd];
      return 0;
    }

    /** Takes the oldest descriptor; -1 and no change when the queue is empty. */
    method DeQueue() returns (fd: int)
      requires Valid()
      modifies this
      ensures Valid()
      ensures old(contents) == [] ==> fd == -1 && contents == []
      ensures old(contents) != [] ==> fd == old(contents)[0] && contents == old(contents)[1..]
      ensures forall k :: 0 <= k < |nodes| ==> nodes[k] in old(nodes)
    {
      if size == 0 {
        return -1;
      }
      var p := head;
      fd := p.fd;
      head := p.next;
      if size == 1 {
        end := null;
      }
      size := size - 1;
      nodes, contents := nodes[1..], contents[1..];
    }
  }

  datatype Op = Put(fd: int) | Take

  /** What a FIFO of descriptors answers to `ops`, starting from `q`: the values returned and what is left. */
  function Replay(q: seq<int>, ops: seq<Op>): (seq<int>, seq<int>)
    decreases |ops|
  {
    if ops == [] then ([], q)
    else match ops[0]
      case Put(fd) => Replay(q + [fd], ops[1..])
      case Take =>
        if q == [] then
          var (outs, rest) := Replay(q, ops[1..]);
          ([-1] + outs, rest)
        else
          var (outs, rest) := Replay(q[1..], ops[1..]);
          ([q[0]] + outs, rest)
  }

  /** Takes until nothing is left. */
  method Empty(q: Queue) returns (rest: seq<int>)
    requires q.Valid()
    modifies q
    ensures q.Valid() && q.contents == [] && rest == old(q.contents)
  {
    hide Queue.Valid;
    rest := [];
    q.SizeCounts();
    while q.size > 0
      invariant q.Valid() && q.size == |q.contents|
      invariant old(q.contents) == rest + q.contents
      decreases q.size
    {
      var fd := q.DeQueue();
      q.SizeCounts();
      rest := rest + [fd];
    }
  }

  /** Any interleaving of enQueue and deQueue on the linked list answers as the FIFO does, and
      emptying the list afterwards hands back what the FIFO still holds, in order. */
  method Drive(ops: seq<Op>) returns (outs: seq<int>, rest: seq<int>)
    ensures outs == Replay([], ops).0 && rest == Replay([], ops).1
  {
    var q := new Queue();
    outs := [];
    var i := 0;
    while i < |ops|
      invariant 0 <= i <= |ops|
      invariant q.Valid() && fresh(q) && forall k :: 0 <= k < |q.nodes| ==> fresh(q.nodes[k])
      invariant Replay([], ops).0 == outs + Replay(q.contents, ops[i..]).0
      invariant Replay([], ops).1 == Replay(q.contents, ops[i..]).1
    {
      assert ops[i..][0] == ops[i] && ops[i..][1..] == ops[i + 1..];
      ghost var was := q.contents;
      match ops[i] {
        case Put(fd) =>
          var _ := q.EnQueue(fd);
        case Take =>
          var fd := q.DeQueue();
          assert Replay(was, ops[i..]).0 == [fd] + Replay(q.contents, ops[i + 1..]).0;
          outs := outs + [fd];
      }
      i := i + 1;
    }
    assert ops[i..] == [];
    rest := Empty(q);
  }

  function Puts(ops: seq<Op>): seq<int> {
    if ops == [] then []
    else (if ops[0].Put? then [ops[0].fd] else []) + Puts(ops[1..])
  }

  function Answered(outs: seq<int>): seq<int> {
    if outs == [] then []
    else (if outs[0] != -1 then [outs[0]] else []) + Answered(outs[1..])
  }

  lemma AnsweredCons(x: int, outs: seq<int>)
    ensures Answered([x] + outs) == (if x != -1 then [x] else []) + Answered(outs)
  {
    assert ([x] + outs)[1..] == outs;
  }

  ghost predicate Descriptors(ops: seq<Op>) {
    forall op :: op in ops && op.Put? ==> op.fd >= 0
  }

  lemma ReplayPut(q: seq<int>, fd: int, tail: seq<Op>)
    ensures Replay(q, [Put(fd)] + tail) == Replay(q + [fd], tail)
    ensures Puts([Put(fd)] + tail) == [fd] + Puts(tail)
  {
    assert ([Put(fd)] + tail)[1..] == tail;
  }

  lemma ReplayTake(q: seq<int>, tail: seq<Op>)
    requires -1 !in q
    ensures Puts([Take] + tail) == Puts(tail)
    ensures q == [] ==> Answered(Replay(q, [Take] + tail).0) == Answered(Replay(q, tail).0)
    ensures q != [] ==> Answered(Replay(q, [Take] + tail).0) == [q[0]] + Answered(Replay(q[1..], tail).0)
    ensures Replay(q, [Take] + tail).1 == Replay(if q == [] then q else q[1..], tail).1
  {
    assert ([Take] + tail)[1..] == tail;
    AnsweredCons(-1, Replay(q, tail).0);
    if q != [] { AnsweredCons(q[0], Replay(q[1..], tail).0); }
  }

  /** Conservation and order: for non-negative descriptors, everything put in comes out in the
      order it went in, or is still queued; -1 stands for "empty" and for nothing else. */
  lemma {:induction false} FifoConservation(q: seq<int>, ops: seq<Op>)
    requires -1 !in q && Descriptors(ops)
    ensures q + Puts(ops) == Answered(Replay(q, ops).0) + Replay(q, ops).1
    decreases |ops|
  {
    if ops != [] {
      var tail := ops[1..];
      assert ops == [ops[0]] + tail;
      assert Descriptors(tail) by { assert forall op :: op in tail ==> op in ops; }
      match ops[0] {
        case Put(fd) =>
          assert ops[0] in ops;
          assert -1 !in q + [fd];
          ReplayPut(q, fd, tail);
          FifoConservation(q + [fd], tail);
          Associative(q, [fd], Puts(tail));
        case Take =>
          ReplayTake(q, tail);
          if q == [] {
            FifoConservation(q, tail);
          } else {
            FifoConservation(q[1..], tail);
            var (outs, rest) := Replay(q[1..], tail);
            Associative([q[0]], q[1..], Puts(tail));
            Associative([q[0]], Answered(outs), rest);
            assert q == [q[0]] + q[1..];
          }
      }
    }
  }
}
