/**
 * The value records shared by the two migration validators: one point of an
 * edge's inferred geographic history, and the problems reported about an edge.
 */
module Records {

  /** One `(time, state_id)` point of an edge's time series. */
  datatype Entry<T> = Entry(time: T, state: int)

  /**
   * A problem found on one edge: a transition between two states that the
   * adjacency matrix does not allow, or two or more distinct states recorded
   * at the same time point.
   */
  datatype Violation<T> =
    | Transition(timeStart: T, timeEnd: T, fromState: int, toState: int)
    | SameTime(time: T, states: set<int>)
}
