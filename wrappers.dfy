/** The optional value used wherever the script works with something that may
    be absent: a key missing from the store (`getItem` answers `null`), a
    voice that `find` did not find, an empty handler slot. */
module Wrappers {

  datatype Option<+T> = None | Some(value: T)
}
