/** Results and the exceptions the upload model can raise. */
module Outcomes {

  /** The exceptions `File` throws; every other rejection is a plain `false`. */
  datatype Error =
    | UnknownProperty(property: string)   // a rule setter named a property the entity does not declare
    | InvalidSizeType                      // the max size is neither an integer nor a string
    | PermissionDenied(dataRoot: string)   // the destination directory could not be created
    | InvalidFilesArgument                 // uploadFiles was given neither an array nor an Object

  /** Either a value or a raised exception. */
  datatype Result<+T> = Ok(value: T) | Thrown(error: Error)

  /** A call that returns the object itself (chaining) or raises. */
  datatype Outcome = Done | Raised(error: Error)

  datatype Option<+T> = None | Some(value: T)
}
