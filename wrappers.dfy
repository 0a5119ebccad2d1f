/** The outcome of a Python call that may raise: `None` stands for the raised
    exception (ValueError, TypeError, ZeroDivisionError, IndexError or a failed
    assert), `Some(v)` for a normal return of `v`. */
module Wrappers {

  datatype Option<+T> = None | Some(value: T)

}
