/** The optional reference: `None` plays the role of Java's `null`. */
module Wrappers {

  datatype Option<+T> = None | Some(value: T)
}
