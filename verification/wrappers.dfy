/** Failure-carrying results shared by the containers and the graph. */
module Wrappers {

  datatype Option<T> = None | Some(value: T)

  datatype Result<T, Err> = Success(value: T) | Failure(error: Err)

  /** The outcome of an operation that returns nothing but may raise. */
  datatype Outcome = Pass | Fail(error: Error)

  /** The error conditions the modelled code raises. */
  datatype Error =
    | EmptyContainer    // remove() on an empty aggregate or priority queue
    | Overflow          // add() on a full bounded queue
    | InvalidCapacity   // a bounded queue built with a capacity <= 0
    | NotDirected       // inverse_graph() on an undirected graph
    | NegativeMutations // Gen.of with a negative mutation count
}
