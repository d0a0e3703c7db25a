/**
 * The bounded queue of library.c (struct Queue over struct Node): the chain from
 * `head` to `tail` is modelled by the sequence of the nodes' data, head first.
 */
module Queue {

  /** isQueueFull as written: the size is above the capacity. */
  predicate IsFullAsWritten(size: nat, capacity: nat)
  {
    size > capacity
  }

  /** The test enqueue applies before adding a node: the size has reached the capacity. */
  predicate IsFull(size: nat, capacity: nat)
  {
    size >= capacity
  }

  /**
   * isQueueFull as written never reports a queue that holds at most its capacity
   * as full, so on a queue at capacity it answers false while enqueue refuses.
   */
  lemma FullAsWrittenMissesFullQueue(size: nat, capacity: nat)
    requires size <= capacity
    ensures !IsFullAsWritten(size, capacity)
    ensures size == capacity ==> IsFull(size, capacity)
  {
  }

  /** The input that shows it: a queue of capacity 1 holding one node. */
  lemma FullAsWrittenCounterexample()
    ensures !IsFullAsWritten(1, 1) && IsFull(1, 1)
  {
  }

  class Queue<T> {
    /** The data of the nodes from head to tail. */
    var nodes: seq<T>
    var size: nat
    var capacity: nat

    ghost predicate Valid()
      reads this
    {
      size == |nodes| && size <= capacity
    }

    /** The state initQueue is meant to produce: no nodes, the given capacity. */
    constructor (capacity: nat)
      ensures Valid() && nodes == [] && this.capacity == capacity
    {
      nodes := [];
      size := 0;
      this.capacity := capacity;
    }

    /** isQueueEmpty. */
    method IsEmpty() returns (empty: bool)
      requires Valid()
      ensures empty <==> nodes == []
    {
      empty := size == 0;
    }

    /** isQueueFull, with the comparison enqueue uses. */
    method IsQueueFull() returns (full: bool)
      requires Valid()
      ensures full <==> |nodes| == capacity
      ensures full <==> IsFull(size, capacity)
    {
      full := size >= capacity;
    }

    /** getQueueSize. */
    method GetSize() returns (n: nat)
      requires Valid()
      ensures n == |nodes|
    {
      n := size;
    }

    /**
     * enqueue: refused when the size has reached the capacity (the source exits);
     * otherwise the new node becomes the tail.
     */
    method Enqueue(data: T) returns (ok: bool)
      requires Valid()
      modifies this
      ensures Valid() && capacity == old(capacity)
      ensures ok <==> old(size) < capacity
      ensures ok ==> nodes == old(nodes) + [data] && size == old(size) + 1
      ensures !ok ==> nodes == old(nodes) && size == old(size)
    {
      if size >= capacity {
        return false;
      }
      nodes := nodes + [data];
      size := size + 1;
      ok := true;
    }

    /** dequeue on a non-empty queue: the head is unlinked and its data returned. */
    method Dequeue() returns (data: T)
      requires Valid() && nodes != []
      modifies this
      ensures Valid() && capacity == old(capacity)
      ensures data == old(nodes)[0] && nodes == old(nodes)[1..] && size == old(size) - 1
    {
      data := nodes[0];
      nodes := nodes[1..];
      size := size - 1;
    }
  }

  /** First in, first out: two values enqueued into an empty queue come out in order. */
  method FirstInFirstOut<T>(q: Queue<T>, a: T, b: T) returns (first: T, second: T)
    requires q.Valid() && q.nodes == [] && q.capacity >= 2
    modifies q
    ensures first == a && second == b && q.nodes == []
  {
    var ok := q.Enqueue(a);
    ok := q.Enqueue(b);
    first := q.Dequeue();
    second := q.Dequeue();
  }
}
