/** The optional value used for PHP's `false`/`null` results (realpath, strpos, a missing key). */
module Wrappers {
  datatype Option<+T> = None | Some(value: T)
}
