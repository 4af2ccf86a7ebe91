/** The optional value used for the language-model client, which may be absent. */
module Wrappers {

  datatype Option<+T> = None | Some(value: T)
}
