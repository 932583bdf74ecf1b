/** The optional value used wherever the script works with a value that may be absent
    (`null` in JavaScript, or a regular expression that does not match). */
module Wrappers {

  datatype Option<+T> = None | Some(value: T)
}
