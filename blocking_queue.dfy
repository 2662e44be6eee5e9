/**
 * `BlockingQueue<T>` of `blocking_queue.h`: a FIFO `std::queue` behind a mutex.
 *
 * Each method is one critical section. `Pop` waits on a condition variable
 * until the queue is non-empty; that wait is the precondition `|queue| > 0`.
 * The queue has no capacity, so pushing is always possible.
 */
module Queues {

  /** A variable the caller passes by reference, as `Pop(T& element)` takes one. */
  class Cell<T> {
    var value: T

    constructor (value: T)
      ensures this.value == value
    {
      this.value := value;
    }
  }

  class BlockingQueue<T> {
    /** `m_queue`, front first. */
    var queue: seq<T>

    /** `BlockingQueue() = default`: an empty queue. */
    constructor ()
      ensures queue == []
    {
      queue := [];
    }

    /** `m_queue.push(element)`: append at the back, nothing else changes. */
    method Push(element: T)
      modifies this
      ensures queue == old(queue) + [element]
    {
      queue := queue + [element];
    }

    /** `m_queue.emplace(std::move(element))`: the same as `Push` for the queue. */
    method Emplace(element: T)
      modifies this
      ensures queue == old(queue) + [element]
    {
      queue := queue + [element];
    }

    /** Wait for an element, then remove and return the front one. */
    method Pop() returns (element: T)
      requires |queue| > 0
      modifies this
      ensures element == old(queue)[0]
      ensures queue == old(queue)[1..]
    {
      element := queue[0];
      queue := queue[1..];
    }

    /** `Pop(T& element)`: the same removal as `Pop()`, the front element written into `element`. */
    method PopInto(element: Cell<T>)
      requires |queue| > 0
      modifies this, element
      ensures element.value == old(queue)[0]
      ensures queue == old(queue)[1..]
    {
      element.value := queue[0];
      queue := queue[1..];
    }

    /** `m_queue.size()`. */
    method Size() returns (n: nat)
      ensures n == |queue|
    {
      n := |queue|;
    }

    /** `m_queue.empty()`: exactly when `Size` is 0. */
    method Empty() returns (b: bool)
      ensures b <==> |queue| == 0
    {
      b := |queue| == 0;
    }

    /** Remove every element (called by the thread pool; not declared in the header). */
    method Clear()
      modifies this
      ensures queue == []
    {
      queue := [];
    }
  }

  /** A value pushed onto an empty queue is the value popped next. */
  method PushThenPop<T>(v: T) returns (r: T)
    ensures r == v
  {
    var q := new BlockingQueue<T>();
    q.Push(v);
    r := q.Pop();
  }

  /** Two pushes come out in the order they went in. */
  method FirstInFirstOut<T>(a: T, b: T) returns (first: T, second: T)
    ensures first == a && second == b
  {
    var q := new BlockingQueue<T>();
    q.Push(a);
    q.Emplace(b);
    first := q.Pop();
    var cell := new Cell(a);
    q.PopInto(cell);
    second := cell.value;
  }
}
