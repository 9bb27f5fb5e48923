/** The "no key" result of the delegate's queries (`undefined` / `null` in the source). */
module Wrappers {
  datatype Option<+T> = None | Some(value: T)
}
