/** An optional value; `None` stands for Go's nil (no value, no error,
    no registered function). */
module Wrappers {

  datatype Option<+T> = None | Some(value: T)

}
