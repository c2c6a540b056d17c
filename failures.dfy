/** The failures the tool can run into. In the Python program each of these is
    an exception that ends the run; here each is a value the caller can inspect. */
module Failures {

  datatype Error =
    | MissingYear(year: int)  // a year the table has no row for (KeyError on lookup)
    | EmptySeries             // min/max of a table with no rows (ValueError)
    | InsufficientData        // annualizing an empty list of returns (ZeroDivisionError)
    | InvalidReturn           // ln of a growth factor that is not positive (math domain ValueError)

  datatype Result<T> = Ok(value: T) | Err(error: Error)

  datatype Option<T> = None | Some(value: T)
}
