/** The absence-or-value type that stands for Python's `None`-or-value returns. */
module Wrappers {

  datatype Option<T> = None | Some(value: T)

  /** Python truthiness of an optional string: present and not empty. */
  predicate Truthy(o: Option<string>) {
    o.Some? && o.value != []
  }
}
