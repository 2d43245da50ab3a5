/** The optional value used for dates that may be absent (a never-learned
    user has no last learning day; a fresh store has no saved day). */
module Wrappers {

  datatype Option<+T> = None | Some(value: T)
}
