/** Optional values and results, the model's counterpart of PHP's `null`
    returns and thrown exceptions. */
module Wrappers {

  datatype Option<+T> = None | Some(value: T) {
    function GetOr(default: T): T {
      match this
      case Some(v) => v
      case None => default
    }
  }

  datatype Result<+R, +E> = Ok(value: R) | Err(error: E)

  /** The exceptions and fatal errors the modelled code can raise. */
  datatype Error =
    | InvalidArgument            // Pyncer\Exception\InvalidArgumentException
    | LocaleNotFound(code: string)
    | UnexpectedValue            // Pyncer\Exception\UnexpectedValueException
    | ValueError                 // PHP's ValueError (strpos offset out of range)
    | TypeError                  // PHP's TypeError (non-numeric string passed as int)
    | NullLocale                 // a method called on a null locale
    | UndefinedMethod(name: string)
    | UndefinedClass(name: string)
}
