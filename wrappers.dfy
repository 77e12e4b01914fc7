/** The optional value used where Python returns None or an empty XPath result. */
module Wrappers {
  datatype Option<T> = None | Some(value: T)
}
