/** The optional-value type used across the model for values that may be
    missing. */
module Wrappers {

  /** A value that may be absent. `None` stands for the not-a-number marker
      that the original program writes into its float arrays. */
  datatype Option<+T> = None | Some(value: T) {

    /** The value if present, otherwise `default` (used to write the
        sentinel back in place of a missing value). */
    function GetOr(default: T): T {
      match this
      case Some(v) => v
      case None() => default
    }
  }
}
