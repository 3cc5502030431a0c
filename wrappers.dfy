/** The optional value used by the layout inverse and by the playback log. */
module Wrappers {
  datatype Option<T> = None | Some(value: T)
}
