/** The optional value returned by every parser of the model: `None` is
    the parse error that the scoring code tests with `err == nil`. */
module Wrappers {

  datatype Option<T> = None | Some(value: T)
}
