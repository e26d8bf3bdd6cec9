/** The optional value used by the decoder and by the fetcher. */
module Wrappers {
  datatype Option<T> = None | Some(value: T)
}
