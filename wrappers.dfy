/** The optional value used for lookups that can miss (`localStorage.getItem`
    returning null, `indexOf` returning -1, a string that is not a number). */
module Wrappers {

  datatype Option<+T> = None | Some(value: T)

}
