/** The build-time failures of the generators, and an optional value. */
module Errors {

  datatype Option<T> = None | Some(value: T) {
    function GetOr(default: T): T
    {
      match this
      case Some(v) => v
      case None => default
    }
  }

  /** The exceptions the generators raise while they build a routine. */
  datatype Error =
    | SerializationError    // serializable_errors.SerializationError, or json_serialization.SerializationError
    | TypeHintError         // type_serializer.TypeHintError (a SerializationError)
    | DeserializationError  // json_serialization.DeserializationError
    | IndexError            // `args[-1]` on an empty argument tuple
    | UnpackError           // ValueError: `a, b = names` with a list that is not of length 2
    | TypeError             // `issubclass` on a non-class, `typing.Union[()]`

  /** A value, or the exception raised while computing it. */
  datatype Result<T> = Ok(value: T) | Err(error: Error) {
    predicate IsFailure() { Err? }

    function PropagateFailure<U>(): Result<U>
      requires Err?
    {
      Err(error)
    }

    function Extract(): T
      requires Ok?
    {
      value
    }
  }
}
