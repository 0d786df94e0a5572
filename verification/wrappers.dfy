/** An optional value: JavaScript's `undefined`/`NaN` results and missing elements. */
module Wrappers {
  datatype Option<T> = None | Some(value: T)
}
