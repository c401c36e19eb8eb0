/** Optional values and results, used wherever the pipeline's Python code
    returns `None` or lets an exception escape. */
module Wrappers {

  /** `None` stands for Python's `None` or for a missing JSON key. */
  datatype Option<+T> = None | Some(value: T) {

    /** Python's `d.get(key, default)`. */
    function GetOr(default: T): T {
      match this
      case Some(v) => v
      case None => default
    }
  }

  /** The Python exception classes the modelled code can raise. */
  datatype PyError = IndexError | TypeError | AttributeError | ValueError

  /** The outcome of a step that either returns a value or raises. */
  datatype Result<+T> = Ok(value: T) | Raised(error: PyError) {

    predicate IsFailure() {
      Raised?
    }

    function PropagateFailure<U>(): Result<U>
      requires Raised?
    {
      Raised(error)
    }

    function Extract(): T
      requires Ok?
    {
      value
    }
  }
}
