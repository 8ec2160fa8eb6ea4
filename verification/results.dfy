/** Failure-carrying values: `Option` stands for JavaScript's optional and
    possibly-undefined values, `Result` for a call that either returns or
    throws. */
module Results {

  datatype Option<+T> = None | Some(value: T) {

    /** The `??` operator: the carried value, or `default` when absent. */
    function GetOr(default: T): (v: T) {
      match this
      case Some(v) => v
      case None => default
    }
  }

  datatype Result<+T, +E> = Success(value: T) | Failure(error: E)
}
