/** Shared value types. */
module Prelude {

  datatype Option<+T> = None | Some(value: T)

  function Elems<T>(s: seq<T>): set<T> { set x | x in s }
}
