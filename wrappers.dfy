/** Optional values and completions of a JavaScript call. */
module Wrappers {

  /** A value that may be absent: `None` stands for JavaScript's `null`
      (and for `NaN` where a number fails to parse). */
  datatype Option<+T> = None | Some(value: T)

  /** How a JavaScript call ends: it returns a value or it throws. */
  datatype Completion<+T> = Normal(value: T) | Throw(message: string)

  /** JavaScript truthiness of a number that may be null, undefined or NaN:
      those and 0 are falsy. */
  predicate Truthy(r: Option<int>)
  {
    r.Some? && r.value != 0
  }
}
