/** A value that may be absent: `search` and `reduce_puzzle` return `False` where this
    returns `None`. */
module Wrappers {
  datatype Option<T> = None | Some(value: T)
}
