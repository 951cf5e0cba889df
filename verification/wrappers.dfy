/** The optional value the scripts express with None: a missing movie file, a year that was
    not found, a lookup that returned nothing. */
module Wrappers {

  datatype Option<+T> = None | Some(value: T)
}
