/**
 * A FIFO queue shared between threads (Python's `queue.Queue`), reduced to
 * what the modelled code does with it: `put` appends at the back.
 */
module Queues {

  class Queue<T> {
    /** The queued items, oldest first. */
    var items: seq<T>

    constructor ()
      ensures items == []
    {
      items := [];
    }

    method Put(x: T)
      modifies this
      ensures items == old(items) + [x]
    {
      items := items + [x];
    }
  }
}
