/** Values the binding hands back to its callers: nullable strings and the outcome of
    an operation, which is either a value or one of the exceptions the C# wrappers throw. */
module Results {

  datatype Option<+T> = None | Some(value: T)

  /** A C# `string`, which may be null. */
  type NStr = Option<string>

  /** The exceptions of the binding layer. `ArgumentError`, `OSError`, `NotSupported` and
      `OutOfMemory` are the translations of the four negative `sp_return` codes; the
      others are raised by the managed code itself, before or instead of a native call. */
  datatype Error =
    | ArgumentError                        // ArgumentException for SP_ERR_ARG
    | OSError(code: int, message: NStr)    // LibSerialPortException for SP_ERR_FAIL
    | NotSupported                         // NotSupportedException for SP_ERR_SUPP
    | OutOfMemory                          // OutOfMemoryException for SP_ERR_MEM
    | CountArgument                        // ArgumentException of the byte[] wrappers
    | ObjectDisposed                       // ObjectDisposedException
    | ArgumentNull(parameter: string)      // ArgumentNullException
    | NullReference                        // NullReferenceException on a null receiver
    | InvalidOperation                     // InvalidOperationException (pointer size)

  /** Normal return with a value, or an exception. */
  datatype Outcome<+T> = Ok(value: T) | Fail(error: Error)

  /** The outcome of the same failure at another value type. */
  function Forward<T, U>(o: Outcome<T>, v: U): (r: Outcome<U>)
    ensures r.Ok? <==> o.Ok?
    ensures r.Ok? ==> r.value == v
    ensures o.Fail? ==> r.Fail? && r.error == o.error
  {
    match o
    case Ok(_) => Ok(v)
    case Fail(e) => Fail(e)
  }
}
