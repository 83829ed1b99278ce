/** Optional values: `null`/`undefined` in the TypeScript sources, `None` in the Python ones. */
module Wrappers {

  datatype Option<T> = None | Some(value: T) {

    /** The value, or `default` when absent. */
    function GetOr(default: T): T
    {
      match this
      case Some(v) => v
      case None => default
    }
  }

  /**
   * `b - a` as a JavaScript comparator result, where either number may be NaN (`None`): a NaN
   * difference sorts as 0.
   */
  function NumberDescending(a: Option<int>, b: Option<int>): (r: int)
    ensures a.Some? && b.Some? ==> (r < 0 <==> a.value > b.value) && (r == 0 <==> a == b)
    ensures a.None? || b.None? ==> r == 0
  {
    if a.Some? && b.Some? then b.value - a.value else 0
  }
}
