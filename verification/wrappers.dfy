/** The optional value returned by the source's iterators (`Option<T>` in Rust). */
module Wrappers {

  datatype Option<+T> = None | Some(value: T)

}
