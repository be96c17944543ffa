/** The optional values that Swift writes as `T?`. */
module Wrappers {

  datatype Option<+T> = None | Some(value: T)

  /** `xs.first` of a Swift array. */
  function First<T>(xs: seq<T>): (r: Option<T>)
  {
    if |xs| == 0 then None else Some(xs[0])
  }

  /** `xs.last` of a Swift array. */
  function Last<T>(xs: seq<T>): (r: Option<T>)
  {
    if |xs| == 0 then None else Some(xs[|xs| - 1])
  }
}
