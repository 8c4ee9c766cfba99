/** The optional value, used for JavaScript's `undefined`, `null` and NaN results. */
module Options {

  datatype Option<T> = None | Some(value: T)
  {
    /** The value, or `default` when there is none (JavaScript's `x ?? default`). */
    function GetOr(default: T): T
    {
      match this
      case Some(v) => v
      case None => default
    }
  }
}
