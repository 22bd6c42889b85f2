/** The optional value used by the searches and by the watcher's observations. */
module Wrappers {

  datatype Option<T> = None | Some(value: T)
}
