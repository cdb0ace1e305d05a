/** The optional value used wherever JavaScript yields `NaN`, `undefined`
    or an Invalid Date. */
module Wrappers {

  datatype Option<+T> = None | Some(value: T)
}
