/** Small value types shared by the modules of this model. */
module Util {

  /** A possibly-absent value, standing for a shared handle that may be null. */
  datatype Option<T> = None | Some(value: T)

  /** The outcome of an operation that may throw. */
  datatype Result<T, E> = Ok(value: T) | Err(error: E)

  /** No element occurs twice. */
  predicate Distinct<T(==, !new)>(s: seq<T>)
  {
    forall x :: x in s ==> multiset(s)[x] <= 1
  }
}
