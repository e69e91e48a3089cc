/** Optional values: a request field that may be absent, a field of a record that may be unset,
    a lookup that may find nothing. */
module Wrappers {

  datatype Option<+T> = None | Some(value: T)
}
