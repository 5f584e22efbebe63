/** The nullable values of the dashboard (`null` calendar cells, a `selectedDay` of `null`). */
module Wrappers {
  datatype Option<+T> = None | Some(value: T)
}
