/** The optional value used throughout this project: JavaScript's `null`/`undefined` is `None`. */
module Wrappers {

  datatype Option<+T> = None | Some(value: T)

  /** JavaScript truthiness of a value that is either a string or absent: `null`,
      `undefined` and the empty string are falsy, every other string is truthy. */
  predicate Truthy(s: Option<string>)
  {
    s.Some? && s.value != ""
  }
}
