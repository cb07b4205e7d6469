/** The optional value used for rapidjson's nullable pointers and for lookups that may fail. */
module Wrappers {
  datatype Option<+T> = None | Some(value: T)
}
