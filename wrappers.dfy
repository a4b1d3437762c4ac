/** Option, and JavaScript truthiness of a `string | undefined` value. */
module Wrappers {

  datatype Option<+T> = None | Some(value: T)

  /** `if (v)` for `v: string | undefined`: defined and not the empty string. */
  predicate Truthy(v: Option<string>) {
    v.Some? && v.value != ""
  }
}
