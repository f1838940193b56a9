/** An optional value; `None` plays the part of JavaScript's `null`. */
module Wrappers {

  datatype Option<+T> = None | Some(value: T)

}
