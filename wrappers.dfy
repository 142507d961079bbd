/** Option and Result values shared by every module: `None` stands for JavaScript's
    `null`/`undefined`, `Err` for a thrown exception or an error response. */
module Wrappers {
  datatype Option<T> = None | Some(value: T)
  {
    function GetOr(default: T): T
    {
      match this
      case None => default
      case Some(v) => v
    }
  }

  datatype Result<T, E> = Ok(value: T) | Err(error: E)
}
