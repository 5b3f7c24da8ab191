/** A value that may be absent: models a nullable field such as a worker's `id`. */
module Wrappers {

  datatype Option<+T> = None | Some(value: T)
}
