/** The conventional Some/None datatype, used where the controller gets null
    (an EF `FirstOrDefault` with no match, an empty session slot). */
module Wrappers {

  datatype Option<+T> = None | Some(value: T)
}
