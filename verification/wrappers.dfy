/** A minimal optional-value datatype. In the telemetry model `None` plays the
    role of JavaScript's `undefined`, the value an out-of-range array read yields. */
module Wrappers {

  datatype Option<+T> = None | Some(value: T)
}
