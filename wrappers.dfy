/** The optional value used where the source returns None or a regex match may be absent. */
module Wrappers {

  datatype Option<+T> = None | Some(value: T)

}
