/** The optional value the component writes as `null` (a start cell not yet
    chosen, a word with no placement, a selection that matches nothing). */
module Wrappers {
  datatype Option<+T> = None | Some(value: T)
}
