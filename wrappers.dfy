/** Optional values: an absent request field, a row that a query did not find. */
module Wrappers {

  datatype Option<+T> = None | Some(value: T)

  /** SQL COALESCE(given, current): the given value when there is one. */
  function Coalesce<T>(given: Option<T>, current: Option<T>): (r: Option<T>)
    ensures given.Some? ==> r == given
    ensures given.None? ==> r == current
  {
    if given.Some? then given else current
  }
}
