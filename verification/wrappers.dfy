/** Failure-carrying datatypes shared by every module of the model. */
module Wrappers {

  /** A Go pointer that may be nil, a PHP nullable, or a lookup that may miss. */
  datatype Option<+T> = None | Some(value: T) {

    /** The wrapped value, or `default` when there is none. */
    function GetOr(default: T): T {
      match this
      case Some(v) => v
      case None => default
    }
  }

  /** A Go `(value, error)` pair: either the value or the error. */
  datatype Result<+R, +E> = Ok(value: R) | Err(error: E)

  /** A Go `error` return without a value: nil or an error. */
  datatype Outcome<+E> = Pass | Fail(error: E)

  /**
   Some element of a non-empty set, chosen by the caller's environment: the
   model of visiting a Go map in an unspecified order.
   */
  method Pick<T>(s: set<T>) returns (x: T)
    requires s != {}
    ensures x in s
  {
    x :| x in s;
  }

  /** Some element of a non-empty set, for use in proofs. */
  ghost function Any<T>(s: set<T>): (x: T)
    requires s != {}
    ensures x in s
  {
    var x :| x in s; x
  }
}
