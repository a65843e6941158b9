/** Option and Result for the places where the Python code either returns
    a value or raises. The error kinds are the Python exceptions the
    modelled code raises on those paths. */
module Errors {

  datatype Option<+T> = None | Some(value: T)

  /** The exception a Python call would raise. */
  datatype Error =
    | IndexError      // indexing an empty list, `x[0]`, `data[-1]`, `split()[3]`
    | ValueError      // `min()` of an empty sequence, `float(s)` of a non-number
    | UnboundLocal    // a name read before any assignment (`meanDist`, `reactants`)
    | ZeroDivision    // `360 / rotAngle` with `rotAngle == 0`
    | OSError         // `os.rename` of a file that is not there

  datatype Result<+T> = Ok(value: T) | Err(error: Error)
}
