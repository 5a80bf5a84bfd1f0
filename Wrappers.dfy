/** Option and Outcome, the two failure-carrying shapes the model needs. */
module Wrappers {

  /** A value that may be absent (`undefined` in the plugin's JavaScript). */
  datatype Option<+T> = None | Some(value: T) {

    /** The held value, or `default` when there is none (JavaScript's `x || default` on a list). */
    function GetOr(default: T): T {
      match this
      case Some(v) => v
      case None => default
    }
  }

  /** The result of a step that either succeeds without a value or aborts with an error. */
  datatype Outcome<+E> = Pass | Fail(error: E)
}
