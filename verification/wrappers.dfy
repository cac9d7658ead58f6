/** An optional value used by the scanner and the preview reader. */
module Wrappers {

  datatype Option<+T> = None | Some(value: T)

}
