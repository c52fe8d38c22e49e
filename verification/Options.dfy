/** Optional values, the library's `_Optional` types. */
module Options {
  datatype Option<+T> = None | Some(value: T)
  {
    function GetOr(other: T): T {
      if Some? then value else other
    }
  }
}
