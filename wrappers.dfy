/** A value that Java code represents as "possibly null". */
module Wrappers {

  datatype Option<+T> = None | Some(value: T)
}
