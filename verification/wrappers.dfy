/** Option and exception-carrying results shared by every module of the model. */
module Wrappers {

  /** `None` models C# `null`: a null reference, or a `Nullable<T>` without a value. */
  datatype Option<+T> = None | Some(value: T) {

    /** Returns the wrapped value, or `default` for `None`. */
    function GetOr(default: T): T {
      match this
      case Some(v) => v
      case None => default
    }
  }

  /** The .NET exceptions the modelled code can raise. */
  datatype Exception =
    | ArgumentNullException(paramName: string)
    | ArgumentException(message: string)
    | ArgumentOutOfRangeException(paramName: string)
    | NullReferenceException
    | GenericException(message: string)
    /** an error reply from the shared store that aborts a server-side script */
    | RedisServerException(message: string)

  /** Either a normal return value or a thrown exception. */
  datatype Result<+R> = Ok(value: R) | Throws(error: Exception)
}
