/** The bounded FIFO queue: a linked list of live nodes and a list of recycled ones. */
module NodeQueue {
  import opened Options

  const MAX_FREE := 64

  // ----- The bounded FIFO -----

  datatype Fifo<T> = Fifo(items: seq<T>, closed: bool)

  function Pushed<T>(q: Fifo<T>, capacity: nat, item: T): (Fifo<T>, bool) {
    if q.closed || (capacity > 0 && |q.items| >= capacity) then (q, false)
    else (q.(items := q.items + [item]), true)
  }

  function Polled<T>(q: Fifo<T>): (Fifo<T>, Option<T>) {
    if q.items == [] then (q, None) else (q.(items := q.items[1..]), Some(q.items[0]))
  }

  datatype Op<T> = Push(item: T) | Poll | Close

  /** The queue after a run, with all items accepted and all items taken, in order. */
  datatype Trace<T> = Trace(queue: Fifo<T>, accepted: seq<T>, taken: seq<T>)

  function Run<T>(ops: seq<Op<T>>, capacity: nat): Trace<T> {
    if ops == [] then Trace(Fifo([], false), [], [])
    else
      var t := Run(ops[..|ops| - 1], capacity);
      match ops[|ops| - 1]
      case Push(item) =>
        var (q, ok) := Pushed(t.queue, capacity, item);
        Trace(q, if ok then t.accepted + [item] else t.accepted, t.taken)
      case Poll =>
        var (q, r) := Polled(t.queue);
        Trace(q, t.accepted, if r.Some? then t.taken + [r.value] else t.taken)
      case Close => t.(queue := t.queue.(closed := true))
  }

  /** Nothing is lost, duplicated or reordered, and the bound holds throughout. */
  lemma {:induction false} RunIsFifo<T>(ops: seq<Op<T>>, capacity: nat)
    ensures var t := Run(ops, capacity);
      t.accepted == t.taken + t.queue.items && (capacity > 0 ==> |t.queue.items| <= capacity)
  {
    if ops != [] {
      RunIsFifo(ops[..|ops| - 1], capacity);
    }
  }

  // ----- Nodes and chains -----

  class Node<T> {
    var item: Option<T>
    var next: Node?<T>

    constructor ()
      ensures item == None && next == null
    {
      item, next := None, null;
    }
  }

  /** nodes is the chain that starts at first and ends in null, without a cycle. */
  ghost predicate Chain<T>(nodes: seq<Node<T>>, first: Node?<T>)
    reads set n | n in nodes
  {
    && (first == if nodes == [] then null else nodes[0])
    && (forall i, j :: 0 <= i < j < |nodes| && j == i + 1 ==> nodes[i].next == nodes[j])
    && (nodes != [] ==> nodes[|nodes| - 1].next == null)
    && (forall i, j :: 0 <= i < j < |nodes| ==> nodes[i] != nodes[j])
  }

  /** The items of a chain of live nodes. */
  ghost function Items<T>(nodes: seq<Node<T>>): (items: seq<T>)
    requires forall i :: 0 <= i < |nodes| ==> nodes[i].item.Some?
    reads set n | n in nodes
    ensures |items| == |nodes|
  {
    seq(|nodes|,
        i requires 0 <= i < |nodes| reads set n | n in nodes requires nodes[i].item.Some? => nodes[i].item.value)
  }

  class Queue<T> {
    const capacity: nat
    var size: nat
    var head: Node?<T>
    var tail: Node?<T>
    var freeNodes: Node?<T>
    var freeCount: nat
    var closed: bool
    ghost var live: seq<Node<T>>
    ghost var free: seq<Node<T>>

    ghost function Repr(): set<object>
      reads this
    {
      (set n | n in live) + (set n | n in free)
    }

    /** Both chains are acyclic and disjoint and have the recorded lengths; the tail is the last live node. */
    ghost predicate Valid()
      reads this, Repr()
    {
      && Chain(live, head) && Chain(free, freeNodes)
      && (forall n :: n in live ==> n !in free)
      && (forall i :: 0 <= i < |live| ==> live[i].item.Some?)
      && size == |live| && freeCount == |free| <= MAX_FREE
      && tail == (if live == [] then null else live[|live| - 1])
      && (capacity > 0 ==> size <= capacity)
    }

    ghost function Contents(): seq<T>
      requires Valid()
      reads this, Repr()
    {
      Items(live)
    }

    ghost function Abstract(): Fifo<T>
      requires Valid()
      reads this, Repr()
    {
      Fifo(Contents(), closed)
    }

    constructor (limit: nat)
      ensures Valid() && Abstract() == Fifo([], false) && capacity == limit && fresh(Repr())
    {
      capacity, size, head, tail, freeNodes, freeCount, closed := limit, 0, null, null, null, 0, false;
      live, free := [], [];
    }

    /** Takes a node from the free list, or makes a new one. */
    method ObtainNode() returns (node: Node<T>)
      requires Valid()
      modifies this`freeNodes, this`freeCount, this`free, Repr()
      ensures Valid() && live == old(live) && Contents() == old(Contents())
      ensures node !in live && node !in free && node.next == null
      ensures if old(free) == [] then fresh(node) && free == [] else node == old(free)[0] && free == old(free)[1..]
    {
      if freeNodes != null {
        ghost var was := free;
        assert free[0].next == if 1 < |free| then free[1] else null;
        node := freeNodes;
        freeNodes := node.next;
        node.next := null;
        freeCount := freeCount - 1;
        free := free[1..];
        assert forall i :: 0 <= i < |free| ==> free[i] == was[i + 1];
      } else {
        node := new Node();
      }
    }

    /** Appends an occupied node to the live chain. */
    method LinkTail(node: Node<T>)
      requires Valid() && node !in live && node !in free && node.next == null && node.item.Some?
      requires capacity > 0 ==> size < capacity
      modifies this`head, this`tail, this`size, this`live, tail
      ensures Valid() && live == old(live) + [node] && Contents() == old(Contents()) + [node.item.value]
    {
      if tail != null {
        tail.next := node;
        tail := node;
      } else {
        head := node;
        tail := node;
      }
      live := live + [node];
      size := size + 1;
    }

    method TryPush(item: T) returns (ok: bool)
      requires Valid()
      modifies this, Repr()
      ensures Valid() && fresh(Repr() - old(Repr()))
      ensures (Abstract(), ok) == Pushed(old(Abstract()), capacity, item)
    {
      hide Chain, Items;
      if closed || (capacity > 0 && size >= capacity) {
        return false;
      }
      var node := ObtainNode();
      node.item := Some(item);
      LinkTail(node);
      ok := true;
    }

    /** Returns an emptied node to the free list, unless that is full. */
    method RecycleNode(node: Node<T>)
      requires Valid() && node !in live && node !in free
      modifies this`freeNodes, this`freeCount, this`free, node
      ensures Valid() && live == old(live) && Contents() == old(Contents())
      ensures free == if |old(free)| < MAX_FREE then [node] + old(free) else old(free)
      ensures node.item == None
    {
      node.item := None;
      if freeCount < MAX_FREE {
        node.next := freeNodes;
        freeNodes := node;
        freeCount := freeCount + 1;
        ghost var was := free;
        free := [node] + free;
        assert forall i :: 0 < i < |free| ==> free[i] == was[i - 1];
      }
    }

    /** Detaches the head of the live chain. */
    method DetachHead() returns (node: Node<T>)
      requires Valid() && live != []
      modifies this`head, this`tail, this`size, this`live
      ensures Valid() && node == old(head) == old(live)[0] && live == old(live)[1..] && node !in live && node !in free
      ensures node.item.Some? && [node.item.value] + Contents() == old(Contents())
    {
      node := head;
      ghost var was := live;
      assert live[0].next == if 1 < |live| then live[1] else null;
      head := node.next;
      if head == null {
        tail := null;
      }
      size := size - 1;
      live := live[1..];
      assert forall i :: 0 <= i < |live| ==> live[i] == was[i + 1];
    }

    /** Takes the first item; its node goes to the free list. */
    method UnlinkHead() returns (item: T)
      requires Valid() && live != []
      modifies this`head, this`tail, this`size, this`live, this`freeNodes, this`freeCount, this`free, head
      ensures Valid() && [item] + Contents() == old(Contents()) && fresh(Repr() - old(Repr()))
      ensures live == old(live)[1..]
      ensures free == if |old(free)| < MAX_FREE then [old(live)[0]] + old(free) else old(free)
    {
      hide Chain, Items;
      var node := DetachHead();
      item := node.item.value;
      RecycleNode(node);
    }

    method Poll() returns (r: Option<T>)
      requires Valid()
      modifies this, Repr()
      ensures Valid() && fresh(Repr() - old(Repr()))
      ensures (Abstract(), r) == Polled(old(Abstract()))
    {
      if size == 0 {
        return None;
      }
      var item := UnlinkHead();
      r := Some(item);
    }

    /** Closing refuses further items; what is queued can still be taken. */
    method Close()
      requires Valid()
      modifies this`closed
      ensures Valid() && Abstract() == old(Abstract()).(closed := true) && live == old(live) && free == old(free)
    {
      closed := true;
    }
  }
}
