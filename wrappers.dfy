/** Optional values, results and the errors the extension raises. */
module Wrappers {

  datatype Option<+T> = None | Some(value: T)

  datatype Result<+R> = Success(value: R) | Failure(error: Error)

  /** The Ruby exceptions raised by the extension. */
  datatype Error =
      /** `ArgumentError` raised by the flag encoder, with its message. */
    | ArgumentError(message: string)
      /** `SystemCallError` raised when a system call returns -1; the errno text is not modelled. */
    | SystemCallError
      /** `RuntimeError` raised by Ruby's `fail`, with its message. */
    | RuntimeError(message: string)
      /** `NoMethodError` raised by calling `call` on `nil`: a watcher registered without a block. */
    | NoMethodError
}
