/** The "no result" value of the calculator: `null` from calculateIRR, NaN from parseFloat. */
module Wrappers {

  datatype Option<+T> = None | Some(value: T)
}
