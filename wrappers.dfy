/** Optional values and error results shared by the model. `None` stands for a
    pandas missing value (NaN / None) wherever a column may hold one. */
module Wrappers {

  datatype Option<+T> = None | Some(value: T) {
    function GetOr(default: T): T {
      match this
      case Some(v) => v
      case None => default
    }
  }

  datatype Result<+T, +E> = Ok(value: T) | Err(error: E)
}
