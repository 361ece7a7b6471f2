/** The optional value used for results that may be absent: a failed read,
    a worker schedule that cannot happen, an unset file name. */
module Wrappers {

  datatype Option<+T> = None | Some(value: T)
}
