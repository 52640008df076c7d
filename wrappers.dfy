/** A nullable reference (`T?` in the source) is an `Option<T>`: `None` stands for `null`. */
module Wrappers {

  datatype Option<+T> = None | Some(value: T)
}
