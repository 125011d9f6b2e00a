/** The abstract object both shared queues implement: a first-in first-out queue of limited capacity. */
module BoundedFifo {

  /** What one atomic step may do to the queue: nothing, append when there is room, or remove the head. */
  ghost predicate FifoStep<T>(capacity: nat, q: seq<T>, q': seq<T>) {
    || q' == q
    || (|q| < capacity && |q'| == |q| + 1 && q <= q')
    || (q != [] && q' == q[1..])
  }
}
