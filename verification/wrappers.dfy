/** The Option datatype. A JavaScript time value is modelled as `Option<int>`:
    `Some(t)` for an integral number of milliseconds, `None` for NaN. */
module Wrappers {

  datatype Option<+T> = None | Some(value: T)
}
