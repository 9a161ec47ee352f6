/** Failure-carrying results shared by the date adapter and the interval calculator.
    Every `ValueError` the Python code raises becomes one `Err` kind with the data its
    message carries. */
module Results {

  datatype Option<+T> = None | Some(value: T)

  datatype Result<+T, +E> = Success(value: T) | Failure(error: E)

  datatype Err =
    | InvalidFormat(format: string, text: string)  // parse_date: text does not match the pattern
    | NotADateTime                                 // format_date: argument is not a date-time
    | UnsupportedStyle(style: string)              // format_date: unknown style name
    | InvertedRange                                // calculate_interval: start later than end
    | InvalidReplace                               // calculate_interval: datetime.replace rejected the anchor
    | UnsupportedUnit(unit: string)                // calculate_interval: unknown unit
}
