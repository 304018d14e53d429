/** Result and option types shared by every module, and the error kinds the
    server code throws (src/donkey.h and the error names used across src/). */
module Wrappers {

  datatype Option<T> = None | Some(value: T)

  /** The exceptions of the modelled code.  `Abort` stands for a failed
      BOOST_VERIFY / assert, which ends the process. */
  datatype Error =
    | UnknownError(what: string)
    | ConfigError(what: string)
    | RequestError(what: string)
    | ExternalError(what: string)
    | InternalError(what: string)
    | NotImplementedError(what: string)
    | ProxyBackendError(what: string)
    | PluginError(what: string)
    | HttpException(what: string)
    | RfcException
    | RuntimeError(what: string)
    | InvalidArgument(what: string)
    | BadLexicalCast
    | OutOfMemory
    | Abort

  datatype Result<T> = Ok(value: T) | Err(error: Error)
  {
    predicate IsFailure() { Err? }
    function PropagateFailure<U>(): Result<U> requires Err? { Err(error) }
    function Extract(): T requires Ok? { value }
  }

  /** `Error::code()` for the error classes declared with DEFINE_ERROR;
      only UnknownError is declared (code 0x0001). */
  function ErrorCode(e: Error): (r: Option<int>)
    ensures r.Some? <==> e.UnknownError?
    ensures e.UnknownError? ==> r == Some(0x0001)
  {
    match e
    case UnknownError(_) => Some(0x0001)
    case _ => None
  }
}
