/** The locked linked-list queue of src/kernel/queue.c, one atomic operation at a time, and the bounded FIFO it stands
    for. */
module Queues {

  // ----- the bounded FIFO -----

  /** A negative capacity is no bound. */
  datatype Bounded<T> = Bounded(items: seq<T>, capacity: int)

  datatype Op<T> = TryPush(x: T) | TryPop | SetCapacity(c: int)

  predicate Full<T>(q: Bounded<T>) {
    q.capacity >= 0 && |q.items| == q.capacity
  }

  function After<T>(q: Bounded<T>, op: Op<T>): Bounded<T> {
    match op
    case TryPush(x) => if Full(q) then q else q.(items := q.items + [x])
    case TryPop => if q.items == [] then q else q.(items := q.items[1..])
    case SetCapacity(c) => q.(capacity := c)
  }

  /** What an operation takes in, and what it hands out. */
  function In<T>(q: Bounded<T>, op: Op<T>): seq<T> {
    if op.TryPush? && !Full(q) then [op.x] else []
  }

  function Out<T>(q: Bounded<T>, op: Op<T>): seq<T> {
    if op.TryPop? && q.items != [] then [q.items[0]] else []
  }

  function AfterAll<T>(q: Bounded<T>, ops: seq<Op<T>>): Bounded<T>
    decreases |ops|
  {
    if ops == [] then q else AfterAll(After(q, ops[0]), ops[1..])
  }

  function AllIn<T>(q: Bounded<T>, ops: seq<Op<T>>): seq<T>
    decreases |ops|
  {
    if ops == [] then [] else In(q, ops[0]) + AllIn(After(q, ops[0]), ops[1..])
  }

  function AllOut<T>(q: Bounded<T>, ops: seq<Op<T>>): seq<T>
    decreases |ops|
  {
    if ops == [] then [] else Out(q, ops[0]) + AllOut(After(q, ops[0]), ops[1..])
  }

  lemma OneInOneOut<T>(q: Bounded<T>, op: Op<T>)
    ensures q.items + In(q, op) == Out(q, op) + After(q, op).items
  {
  }

  /** First in, first out: over any run, what was held and what came in is what went out and what is still held, in
      order. */
  lemma {:induction false} FirstInFirstOut<T>(q: Bounded<T>, ops: seq<Op<T>>)
    ensures q.items + AllIn(q, ops) == AllOut(q, ops) + AfterAll(q, ops).items
    decreases |ops|
  {
    hide After, In, Out;
    if ops != [] {
      var r := After(q, ops[0]);
      FirstInFirstOut(r, ops[1..]);
      OneInOneOut(q, ops[0]);
      var a, b, c := In(q, ops[0]), AllIn(r, ops[1..]), Out(q, ops[0]);
      assert q.items + (a + b) == (q.items + a) + b == c + (r.items + b);
    }
  }

  predicate Within<T>(q: Bounded<T>) {
    q.capacity < 0 || |q.items| <= q.capacity
  }

  /** The operation does not set the capacity below the size. */
  predicate LeavesRoom<T>(q: Bounded<T>, op: Op<T>) {
    op.SetCapacity? ==> op.c < 0 || |q.items| <= op.c
  }

  lemma StepWithin<T>(q: Bounded<T>, op: Op<T>)
    requires Within(q)
    ensures Within(After(q, op)) <==> LeavesRoom(q, op)
  {
  }

  /** Every operation of a run satisfies `p` on the queue it is applied to. */
  predicate Along<T>(q: Bounded<T>, ops: seq<Op<T>>, p: (Bounded<T>, Op<T>) -> bool)
    decreases |ops|
  {
    ops == [] || (p(q, ops[0]) && Along(After(q, ops[0]), ops[1..], p))
  }

  /** Over any run the size is within the capacity after every operation, exactly when no operation sets the capacity
      below it. */
  lemma {:induction false} WithinExactly<T>(q: Bounded<T>, ops: seq<Op<T>>)
    requires Within(q)
    ensures Along(q, ops, (r, op) => Within(After(r, op))) <==> Along(q, ops, (r, op) => LeavesRoom(r, op))
    ensures Along(q, ops, (r, op) => LeavesRoom(r, op)) ==> Within(AfterAll(q, ops))
    decreases |ops|
  {
    if ops != [] {
      StepWithin(q, ops[0]);
      if LeavesRoom(q, ops[0]) {
        WithinExactly(After(q, ops[0]), ops[1..]);
      }
    }
  }

  function Pushes<T>(xs: seq<T>): seq<Op<T>> {
    seq(|xs|, i requires 0 <= i < |xs| => TryPush(xs[i]))
  }

  /** A queue within its capacity takes elements until it is at it, and no more. */
  lemma {:induction false} FillsExactly<T>(q: Bounded<T>, xs: seq<T>)
    requires 0 <= |q.items| <= q.capacity
    ensures var n := if |xs| <= q.capacity - |q.items| then |xs| else q.capacity - |q.items|;
            AfterAll(q, Pushes(xs)) == q.(items := q.items + xs[..n])
    decreases |xs|
  {
    if xs != [] {
      assert Pushes(xs)[1..] == Pushes(xs[1..]);
      FillsExactly(After(q, TryPush(xs[0])), xs[1..]);
      if |q.items| < q.capacity {
        var n := if |xs| <= q.capacity - |q.items| then |xs| else q.capacity - |q.items|;
        assert [xs[0]] + xs[1..][..n - 1] == xs[..n];
        assert q.items + [xs[0]] + xs[1..][..n - 1] == q.items + xs[..n];
      }
    }
  }

  /** A queue that is over its capacity no longer refuses anything. */
  lemma OverfullGrows<T>(q: Bounded<T>, xs: seq<T>)
    requires !Within(q)
    ensures AfterAll(q, Pushes(xs)) == q.(items := q.items + xs)
    decreases |xs|
  {
    if xs == [] {
      assert q.items + xs == q.items;
    } else {
      assert Pushes(xs)[1..] == Pushes(xs[1..]);
      OverfullGrows(After(q, TryPush(xs[0])), xs[1..]);
      assert q.items + [xs[0]] + xs[1..] == q.items + xs;
    }
  }

  // ----- the linked list -----

  class Node<T> {
    const ptr: T
    var next: Node?<T>

    constructor (ptr: T)
      ensures this.ptr == ptr && next == null
    {
      this.ptr := ptr;
      next := null;
    }
  }

  ghost function Ptrs<T>(nodes: seq<Node<T>>): (r: seq<T>)
    ensures |r| == |nodes| && forall i | 0 <= i < |nodes| :: r[i] == nodes[i].ptr
  {
    seq(|nodes|, i requires 0 <= i < |nodes| => nodes[i].ptr)
  }

  datatype Popped<T> = Nothing | Item(x: T)

  class LinkedQueue<T> {
    var head: Node?<T>
    var tail: Node?<T>
    var size: int
    var capacity: int
    ghost var nodes: seq<Node<T>>

    /** `nodes` is the chain from `head`; the tail of an empty queue is null or a node that has left it. */
    ghost predicate Valid()
      reads this, nodes
    {
      && size == |nodes|
      && (forall i, j | 0 <= i < j < |nodes| :: nodes[i] != nodes[j])
      && (forall i | 0 <= i < |nodes| - 1 :: nodes[i].next == nodes[i + 1])
      && (if nodes == [] then head == null
          else head == nodes[0] && tail == nodes[|nodes| - 1] && nodes[|nodes| - 1].next == null)
    }

    ghost function View(): Bounded<T>
      reads this
    {
      Bounded(Ptrs(nodes), capacity)
    }

    /** queue_new */
    constructor ()
      ensures Valid() && View() == Bounded([], -1) && tail == null
    {
      head, tail, size, capacity := null, null, 0, -1;
      nodes := [];
    }

    /** queue_set_capacity */
    method SetCapacity(c: int)
      requires Valid()
      modifies this`capacity
      ensures Valid() && View() == After(old(View()), Op.SetCapacity(c))
    {
      capacity := c;
    }

    /** The element goes behind the tail of a list that is not empty. */
    method Link(el: Node<T>)
      requires Valid() && nodes != [] && el.next == null && el !in nodes
      modifies this`tail, this`size, this`nodes, tail
      ensures Valid() && nodes == old(nodes) + [el] && tail == el
    {
      tail.next := el;
      tail := el;
      size := size + 1;
      nodes := nodes + [el];
    }

    /** queue_try_push: false exactly when the queue has a bound and is at it */
    method TryPush(x: T) returns (ok: bool)
      requires Valid()
      modifies this, tail
      ensures Valid() && View() == After(old(View()), Op.TryPush(x))
      ensures ok <==> !Full(old(View()))
      ensures tail == old(tail) || fresh(tail)
    {
      if capacity >= 0 && size == capacity {
        return false;
      }
      var el := new Node(x);
      if size <= 0 {
        head, tail, size := el, el, 1;
        nodes := [el];
      } else {
        Link(el);
      }
      assert Ptrs(nodes) == Ptrs(old(nodes)) + [x];
      ok := true;
    }

    method Unlink() returns (x: T)
      requires Valid() && nodes != []
      modifies this`head, this`nodes, this`size
      ensures Valid() && tail == old(tail)
      ensures nodes == old(nodes)[1..] && Ptrs(nodes) == Ptrs(old(nodes))[1..] && x == Ptrs(old(nodes))[0]
    {
      size := size - 1;
      x := head.ptr;
      head := head.next;
      nodes := nodes[1..];
      assert Ptrs(nodes) == Ptrs(old(nodes))[1..];
    }

    /** queue_try_pop: nothing exactly when the queue is empty */
    method TryPop() returns (r: Popped<T>)
      requires Valid()
      modifies this`head, this`nodes, this`size
      ensures tail == old(tail)
      ensures Valid() && View() == After(old(View()), Op.TryPop)
      ensures Out(old(View()), Op.TryPop) == if r.Item? then [r.x] else []
    {
      if size <= 0 {
        return Nothing;
      }
      var x := Unlink();
      r := Item(x);
    }

    /** queue_pop, entered while the list is not empty */
    method Pop() returns (x: T)
      requires Valid() && nodes != []
      modifies this`head, this`nodes, this`size
      ensures tail == old(tail)
      ensures Valid() && View() == After(old(View()), Op.TryPop) && Out(old(View()), Op.TryPop) == [x]
    {
      x := Unlink();
    }

    /** queue_push, once there is room: a push exactly when the tail is null or the list is not empty; on a list that
        was drained the element is not reachable, though the size says it is there */
    method Push(x: T)
      requires Valid() && !Full(View())
      modifies this, tail
      ensures old(tail == null || nodes != []) ==> Valid() && View() == After(old(View()), Op.TryPush(x))
      ensures fresh(tail)
      ensures !old(tail == null || nodes != []) ==> !Valid() && head == null && size == 1
    {
      var el := new Node(x);
      if tail == null {
        head, tail := el, el;
        size := size + 1;
        nodes := [el];
        assert Ptrs(nodes) == Ptrs(old(nodes)) + [x];
      } else {
        tail.next := el;
        tail := el;
        size := size + 1;
        if old(nodes) != [] {
          nodes := nodes + [el];
          assert Ptrs(nodes) == Ptrs(old(nodes)) + [x];
        }
      }
    }
  }

  /** A whole run on the linked list hands out what the bounded FIFO hands out, and ends in the same state. */
  method Replay<T>(ops: seq<Op<T>>) returns (outs: seq<T>, size: int)
    ensures outs == AllOut(Bounded([], -1), ops)
    ensures size == |AfterAll(Bounded([], -1), ops).items|
  {
    hide After, Out;
    ghost var start: Bounded<T> := Bounded([], -1);
    var q := new LinkedQueue<T>();
    outs := [];
    var i := 0;
    while i < |ops|
      invariant 0 <= i <= |ops| && q.Valid() && fresh(q) && (q.tail != null ==> fresh(q.tail))
      invariant AllOut(start, ops) == outs + AllOut(q.View(), ops[i..])
      invariant AfterAll(start, ops) == AfterAll(q.View(), ops[i..])
    {
      assert ops[i..][1..] == ops[i + 1..];
      ghost var before := q.View();
      OutOfPop(before, ops[i]);
      match ops[i] {
        case TryPush(x) =>
          var ok := q.TryPush(x);
        case TryPop =>
          var r := q.TryPop();
          outs := outs + if r.Item? then [r.x] else [];
        case SetCapacity(c) =>
          q.SetCapacity(c);
      }
      i := i + 1;
    }
    size := q.size;
  }

  lemma OutOfPop<T>(q: Bounded<T>, op: Op<T>)
    ensures !op.TryPop? ==> Out(q, op) == []
  {
  }

  /** queue_push on a queue that was used and emptied: its size is one, its list is empty. */
  method PushAfterDrain<T>(x: T, y: T) returns (size: int, empty: bool)
    ensures size == 1 && empty
  {
    var q := new LinkedQueue<T>();
    q.Push(x);
    var z := q.Pop();
    q.Push(y);
    size, empty := q.size, q.head == null;
  }
}
