/** Optional values, the failures a request can run into, and the result of a
    store call that either returns a value or throws one of those failures. */
module Outcomes {

  datatype Option<+T> = None | Some(value: T)

  /** What a store call or a route handler can throw. None of these carries an
      HTTP `status` property, so the global error handler answers 500 for each. */
  datatype Failure =
    | ConnectionLost                 // the database could not be reached
    | InvalidInteger(text: string)   // int4 input rejected: bad syntax or out of range
    | ValueTooLong                   // a title longer than varchar(255) allows
    | NotNullViolation               // a NULL title written into a row
    | SequenceExhausted              // the SERIAL sequence passed the int4 maximum
    | TypeError                      // `title.trim(...)` on a value that is not a string: `trim` is not a
                                     // function of a number, boolean or object, and `null` has no properties

  datatype Result<+T> = Ok(value: T) | Err(failure: Failure)
}
