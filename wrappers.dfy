/** Optional results: a decoder answers None where the C++ code would hit an
    assertion or read past the end of its buffer. */
module Wrappers {

  datatype Option<+T> = None | Some(value: T)

}
