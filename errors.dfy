/** Failure-compatible results for one classification run of a flow component. */
module Errors {

  /** The ways one run can fail; each is an assertion or a lookup error of the original code. */
  datatype Error =
    | DomainMismatch       // a connection pulled back through a deformation of another surface
    | EmptyPullback        // the deformation produced no step (the vector sum reads the first step)
    | VectorMismatch       // the pulled-back steps do not add up to the connection's vector
    | PathAsymmetry        // a step's path does not pair up with the path of the reversed step
    | UnknownHalfEdge      // an event is filed under a half-edge the surface does not have
    | AmbiguousOrdering    // the sort compared two events that neither precedes the other
    | UnresolvedHalfEdge   // classification left a half-edge without a start or end label

  datatype Option<+T> = None | Some(value: T)

  datatype Result<+T> = Success(value: T) | Failure(error: Error) {
    predicate IsFailure() { Failure? }

    function PropagateFailure<U>(): Result<U>
      requires Failure?
    {
      Failure(error)
    }

    function Extract(): T
      requires Success?
    {
      value
    }
  }

  /** `r` with `acc` put in front of its value; a failure stays that failure. */
  function Prepend<T>(acc: seq<T>, r: Result<seq<T>>): Result<seq<T>>
  {
    match r
    case Success(v) => Success(acc + v)
    case Failure(e) => Failure(e)
  }

  /** Both results in order: the first failure wins, otherwise the values are concatenated. */
  function Chain<T>(a: Result<seq<T>>, b: Result<seq<T>>): Result<seq<T>>
  {
    match a
    case Failure(e) => Failure(e)
    case Success(x) => Prepend(x, b)
  }

  lemma PrependPrepend<T>(a: seq<T>, b: seq<T>, r: Result<seq<T>>)
    ensures Prepend(a, Prepend(b, r)) == Prepend(a + b, r)
  {
    if r.Success? {
      assert a + (b + r.value) == (a + b) + r.value;
    }
  }

  lemma ChainPrepend<T>(a: seq<T>, x: Result<seq<T>>, y: Result<seq<T>>)
    ensures Chain(Prepend(a, x), y) == Prepend(a, Chain(x, y))
  {
    if x.Success? {
      PrependPrepend(a, x.value, y);
    }
  }

  lemma PrependNothing<T>(r: Result<seq<T>>)
    ensures Prepend([], r) == r
  {
    if r.Success? {
      assert [] + r.value == r.value;
    }
  }
}
