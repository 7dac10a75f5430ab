/** Optional values, used wherever the program has a nullable field. */
module Options {
  datatype Option<+T> = None | Some(value: T)
  {
    function UnwrapOr(default: T): T {
      match this
      case Some(v) => v
      case None => default
    }
  }
}
