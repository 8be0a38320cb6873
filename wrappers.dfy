/** The optional value used for table cells that may be null and for dictionary lookups that may fail. */
module Wrappers {

  datatype Option<T> = None | Some(value: T)
}
