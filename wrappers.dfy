/** Optional values: a nullable foreign key, a missing request parameter,
    an anonymous caller. */
module Wrappers {

  datatype Option<+T> = None | Some(value: T)
}
