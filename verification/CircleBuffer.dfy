// The circle buffer: a front slot and a ring whose indices run downwards.

/** `CircleBuffer`, shown to be a first-in-first-out queue. */
module CircleBuffers {

  import opened Basics

  // ----- the queue it stands for -----

  /** A bounded queue: posting to a full one is refused, getting from an empty
      one gives nothing. */
  datatype Fifo<T> = Fifo(capacity: nat, items: seq<T>)

  function Posted<T>(q: Fifo<T>, x: T): Fifo<T> {
    if |q.items| < q.capacity then q.(items := q.items + [x]) else q
  }

  function Got<T>(q: Fifo<T>): Fifo<T> {
    if q.items == [] then q else q.(items := q.items[1..])
  }

  datatype Op<T> = Post(x: T) | Get

  function Perform<T>(q: Fifo<T>, op: Op<T>): Fifo<T> {
    match op
    case Post(x) => Posted(q, x)
    case Get => Got(q)
  }

  function PerformAll<T>(q: Fifo<T>, ops: seq<Op<T>>): Fifo<T>
    decreases |ops|
  {
    if ops == [] then q else PerformAll(Perform(q, ops[0]), ops[1..])
  }

  /** The value a step accepts, or hands out. */
  function StepAccepts<T>(q: Fifo<T>, op: Op<T>): seq<T> {
    if op.Post? && |q.items| < q.capacity then [op.x] else []
  }

  function StepHandsOut<T>(q: Fifo<T>, op: Op<T>): seq<T> {
    if op.Get? && q.items != [] then [q.items[0]] else []
  }

  function Accepted<T>(q: Fifo<T>, ops: seq<Op<T>>): seq<T>
    decreases |ops|
  {
    if ops == [] then [] else StepAccepts(q, ops[0]) + Accepted(Perform(q, ops[0]), ops[1..])
  }

  function HandedOut<T>(q: Fifo<T>, ops: seq<Op<T>>): seq<T>
    decreases |ops|
  {
    if ops == [] then [] else StepHandsOut(q, ops[0]) + HandedOut(Perform(q, ops[0]), ops[1..])
  }

  lemma StepInOrder<T>(q: Fifo<T>, op: Op<T>)
    ensures q.items + StepAccepts(q, op) == StepHandsOut(q, op) + Perform(q, op).items
  {
  }

  /** What comes out is what was accepted, in the same order, up to what is
      still inside; there are never more than the capacity inside. */
  lemma {:induction false} InOrderOut<T>(q: Fifo<T>, ops: seq<Op<T>>)
    requires |q.items| <= q.capacity
    ensures q.items + Accepted(q, ops) == HandedOut(q, ops) + PerformAll(q, ops).items
    ensures |PerformAll(q, ops).items| <= q.capacity == PerformAll(q, ops).capacity
    decreases |ops|
  {
    if ops == [] {
      assert q.items + [] == [] + q.items;
    } else {
      var r := Perform(q, ops[0]);
      StepInOrder(q, ops[0]);
      InOrderOut(r, ops[1..]);
      ChainQueues(q.items, StepAccepts(q, ops[0]), StepHandsOut(q, ops[0]), r.items,
        Accepted(r, ops[1..]), HandedOut(r, ops[1..]), PerformAll(r, ops[1..]).items);
    }
  }

  // ----- the ring -----

  /** The k-th ring index from `tail`, downwards with wrap-around. */
  function Slot(tail: int, k: int, end: int): int {
    if k <= tail then tail - k else tail - k + end
  }

  /** The n values of the ring from `tail` on. */
  function Ring<T>(cells: seq<T>, tail: int, n: int): (r: seq<T>)
    requires 0 <= n <= |cells| && (n > 0 ==> 0 <= tail < |cells|)
    ensures |r| == n
  {
    seq(n, k requires 0 <= k < n => cells[Slot(tail, k, |cells|)])
  }

  /** Taking the value at the tail moves the tail one place on, ... */
  lemma RingTaken<T>(cells: seq<T>, tail: int, n: int, front: T)
    requires 0 < n <= |cells| && 0 <= tail < |cells|
    ensures ([front] + Ring(cells, tail, n))[1..] ==
            [cells[tail]] + Ring(cells, Slot(tail, 1, |cells|), n - 1)
  {
  }

  /** ... and the value put behind the last one does not touch the others. */
  lemma RingPut<T>(cells: seq<T>, tail: int, n: int, front: T, x: T)
    requires 0 <= n < |cells| && 0 <= tail < |cells|
    ensures [front] + Ring(cells[Slot(tail, n, |cells|) := x], tail, n + 1) ==
            [front] + Ring(cells, tail, n) + [x]
  {
  }

  /** A circle buffer of non-null values.  `modulus` is the number of values of
      SIZE_TYPE, so `size + 1U` may wrap around to 0. */
  class CircleBuffer<T(0)> {
    var front: Option<T>             // m_front, None for nullptr
    const end: nat                   // m_end
    var head: nat                    // m_head
    var tail: nat                    // m_tail
    var free: nat                    // m_free
    const ring: array<T>             // m_ring
    ghost const capacity: nat

    ghost function Inside(): nat
      requires free <= capacity
      reads this
    {
      capacity - free
    }

    ghost predicate Valid()
      reads this, ring
    {
      && ring.Length == end && (capacity == end + 1 || capacity == 0)
      && free <= capacity
      && (front.None? <==> Inside() == 0)
      && (end > 0 ==> head < end && tail < end)
      && (end == 0 ==> head == 0 && tail == 0)
      && (front.None? ==> head == tail)
      && (front.Some? && end > 0 ==>
            head == if Inside() - 1 == end then tail else Slot(tail, Inside() - 1, end))
    }

    /** The values inside, oldest first. */
    ghost function Items(): (r: seq<T>)
      requires Valid()
      reads this, ring
      ensures |r| == Inside()
    {
      if front.None? then [] else [front.value] + Ring(ring[..], tail, Inside() - 1)
    }

    ghost function View(): Fifo<T>
      requires Valid()
      reads this, ring
    {
      Fifo(capacity, Items())
    }

    constructor (size: nat, modulus: nat)
      requires size < modulus
      ensures Valid() && fresh(ring)
      ensures View() == Fifo(if size + 1 < modulus then size + 1 else 0, [])
    {
      front := None;
      end, head, tail := size, 0, 0;
      free := (size + 1) % modulus;
      ring := new T[size];
      capacity := (size + 1) % modulus;
    }

    method Get() returns (value: Option<T>)
      requires Valid()
      modifies this
      ensures Valid() && View() == Got(old(View()))
      ensures value == if old(Items()) == [] then None else Some(old(Items())[0])
    {
      ghost var before := Items();
      value := front;
      if front != None {
        free := free + 1;
        if free <= end {
          RingTaken(ring[..], tail, Inside(), front.value);
          front := Some(ring[tail]);
          if 0 == tail {
            tail := end;
          }
          tail := tail - 1;
          assert tail == Slot(old(tail), 1, end);
          assert Items() == before[1..];
        } else {
          front := None;
          assert Items() == before[1..];
        }
      }
    }

    method Post(value: T) returns (status: bool)
      requires Valid()
      modifies this, ring
      ensures Valid() && View() == Posted(old(View()), value)
      ensures status <==> |old(Items())| < capacity
    {
      ghost var before := Items();
      if free != 0 {
        free := free - 1;
        if front == None {
          front := Some(value);
        } else {
          RingPut(ring[..], tail, Inside() - 2, front.value, value);
          ring[head] := value;
          if head == 0 {
            head := end;
          }
          head := head - 1;
          assert head == Slot(old(head), 1, end);
        }
        assert Items() == before + [value];
        status := true;
      } else {
        status := false;
      }
    }

    /** A run of posts and gets.  What it hands out and what is left inside follow
        `HandedOut` and `PerformAll`, so `InOrderOut` holds of the ring. */
    method PerformOps(ops: seq<Op<T>>) returns (outs: seq<T>)
      requires Valid()
      modifies this, ring
      ensures Valid() && View() == PerformAll(old(View()), ops)
      ensures outs == HandedOut(old(View()), ops)
      ensures old(Items()) + Accepted(old(View()), ops) == outs + Items()
    {
      ghost var goal, all := PerformAll(View(), ops), HandedOut(View(), ops);
      ghost var rest := ops;
      InOrderOut(View(), ops);
      outs := [];
      EmptyAppend(all);
      for i := 0 to |ops|
        invariant Valid() && rest == ops[i..]
        invariant PerformAll(View(), rest) == goal
        invariant outs + HandedOut(View(), rest) == all
      {
        ghost var q, before := View(), outs;
        match ops[i] {
          case Post(x) =>
            var _ := Post(x);
          case Get =>
            var value := Get();
            if value.Some? { outs := outs + [value.value]; }
        }
        assert View() == Perform(q, rest[0]) && outs == before + StepHandsOut(q, rest[0]);
        AppendAssoc(before, StepHandsOut(q, rest[0]), HandedOut(View(), rest[1..]));
        rest := rest[1..];
      }
    }
  }
}
