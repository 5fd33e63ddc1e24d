/** A value that may be absent: the model of a JavaScript `string | null` parameter. */
module Wrappers {

  datatype Option<+T> = None | Some(value: T)
}
