/** The optional-value type the model uses in place of .NET `null` results
    and of exceptions that are caught and turned into a failure. */
module Wrappers {

  /** `None` stands for a `null` reference or a failed computation. */
  datatype Option<+T> = None | Some(value: T)
}
