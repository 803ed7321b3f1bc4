/** Failure-compatible Option and Result types used by both solvers. */
module Wrappers {

  datatype Option<+T> = None | Some(value: T)

  datatype Result<+R, +E> = Success(value: R) | Failure(error: E) {

    predicate IsFailure() {
      Failure?
    }

    function PropagateFailure<U>(): Result<U, E>
      requires Failure?
    {
      Failure(error)
    }

    function Extract(): R
      requires Success?
    {
      value
    }
  }

  /** `r` with `xs` in front of its elements; a failure stays as it is. */
  function Prepend<T, E>(xs: seq<T>, r: Result<seq<T>, E>): Result<seq<T>, E>
  {
    if r.Failure? then r else Success(xs + r.value)
  }

  /** The elements of `u` followed by those of `v`; the first failure wins. */
  function Join<T, E>(u: Result<seq<T>, E>, v: Result<seq<T>, E>): Result<seq<T>, E>
  {
    if u.Failure? then u else Prepend(u.value, v)
  }

  /** Prepending to a join is prepending to its second part, once the first
      part succeeds. */
  lemma PrependJoin<T, E>(xs: seq<T>, u: Result<seq<T>, E>, v: Result<seq<T>, E>)
    ensures Prepend(xs, Join(u, v)) == if u.Failure? then u else Prepend(xs + u.value, v)
  {
    if u.Success? && v.Success? {
      assert xs + (u.value + v.value) == (xs + u.value) + v.value;
    }
  }
}
