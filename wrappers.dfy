/** The optional-value type shared by the route matchers and the suspense model. */
module Wrappers {

  datatype Option<+T> = None | Some(value: T)
}
