/** The optional value the engine's queries return where the source returns `None`. */
module Wrappers {

  datatype Option<T> = None | Some(value: T)
}
