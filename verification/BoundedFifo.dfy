/** The bounded queue as its two callers see it. */
module BoundedFifo {

  datatype Fifo<T> = Fifo(items: seq<T>, capacity: nat)

  /** What a caller learns from a move; exact marks an answer based on the newest index. */
  datatype Observation<T> =
    | Silent
    | Accepted(item: T)
    | AnsweredFull(item: T, exact: bool)
    | Delivered(item: T)
    | AnsweredEmpty(exact: bool)

  /** What a bounded queue may show: only answers that are not exact may be wrong. */
  ghost predicate FifoAllows<T>(q: Fifo<T>, o: Observation<T>) {
    match o
    case Silent => true
    case Accepted(_) => |q.items| < q.capacity
    case AnsweredFull(_, exact) => exact ==> |q.items| == q.capacity
    case Delivered(x) => q.items != [] && x == q.items[0]
    case AnsweredEmpty(exact) => exact ==> q.items == []
  }

  function FifoNext<T>(q: Fifo<T>, o: Observation<T>): Fifo<T> {
    match o
    case Accepted(x) => q.(items := q.items + [x])
    case Delivered(_) => if q.items == [] then q else q.(items := q.items[1..])
    case _ => q
  }

  ghost predicate FifoStep<T>(q: Fifo<T>, o: Observation<T>, q': Fifo<T>) {
    FifoAllows(q, o) && q' == FifoNext(q, o)
  }
}
