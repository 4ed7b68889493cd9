/** Nullable values and typed outcomes shared by every module of the model.

    `Option` stands for a reference that may be null (a C# `string?`, a Java
    `Long`, a TypeScript `undefined`); `Result` stands for an operation that
    either returns a value or raises one of the exceptions the services throw. */
module Wrappers {

  datatype Option<+T> = None | Some(value: T) {

    /** The value, or `default` when absent (the `??` operator of C# and JS). */
    function GetOr(default: T): T {
      match this
      case Some(v) => v
      case None => default
    }
  }

  datatype Result<+T, +E> = Ok(value: T) | Err(error: E)
}
