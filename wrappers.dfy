/** The optional value used wherever the C code has a nullable pointer or the script has None. */
module Wrappers {
  datatype Option<+T> = None | Some(value: T)
}
