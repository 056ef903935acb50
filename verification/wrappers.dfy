/** Option and Result wrappers, and the .NET exceptions that the modelled
    code raises, as values. */
module Wrappers {

  datatype Option<+T> = None | Some(value: T)

  /** The exceptions thrown by the identifier code; the parameter name carried by
      ArgumentOutOfRange and Argument is the `paramName` the C# code passes.
      An `ArgumentException` built from a message alone has no parameter name
      (`ParamName` is null), which is `Argument(None)`. */
  datatype Exception =
    | ArgumentOutOfRange(param: string)
    | Argument(paramName: Option<string>)
    | FormatError
    | Overflow
    | IndexOutOfRange
    | NullReference

  /** A value, or the exception that was thrown instead of returning it. */
  datatype Result<+T> = Ok(value: T) | Err(error: Exception)
}
