/** Optional values and the Python exceptions the optimizers can raise. */
module Wrappers {

  datatype Option<+T> = None | Some(value: T)

  /** The built-in Python exceptions that the modelled code lets escape. */
  datatype Exception =
    | IndexError         // random.choice on an empty list
    | KeyError           // a dictionary lookup of a missing key
    | ValueError         // min() of an empty list
    | ZeroDivisionError  // 1 / length with a length of zero

  /** A call either returns a value or raises. */
  datatype Outcome<+T> = Ok(value: T) | Raise(error: Exception)
}
