/** Optional values, standing for JavaScript's `null`/`undefined` and for SQL lookups that find no row. */
module Wrappers {
  datatype Option<+T> = None | Some(value: T)
  {
    function GetOr(default: T): T
    {
      match this
      case Some(v) => v
      case None => default
    }
  }
}
