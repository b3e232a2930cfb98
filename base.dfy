/** Shared wrappers: optional values, the failures the graph core raises, and results. */
module Base {

  datatype Option<T> = None | Some(value: T)

  /** Each assertion or lookup failure of the graph core, by cause. */
  datatype Error =
    | DuplicateName     // a scope already holds the name
    | UnknownName       // a name or element the scope (or a module) does not hold
    | DuplicateRole     // a module already has a port or hyperparameter role of that local name
    | AlreadyConnected  // connecting an input that already has an output
    | NotConnected      // disconnecting an input that has no output
    | AlreadySet        // assigning a hyperparameter twice
    | NotSet            // reading a hyperparameter that has no value yet
    | InvalidValue      // the hyperparameter's validation hook rejected the value
    | MissingValue      // reading a port value that was never written
    | NothingUnset      // asking for the unset hyperparameters of a fully specified graph

  datatype Result<T> = Ok(value: T) | Fail(error: Error)

  datatype Outcome = Pass | Failure(error: Error)
}
