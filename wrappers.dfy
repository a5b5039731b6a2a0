/** Results of operations that can fail (an exception in the Python
    sources, a thrown `std::invalid_argument` in the C++ ones). */
module Wrappers {

  datatype Option<+T> = None | Some(value: T)

  datatype Result<+T, +E> = Ok(value: T) | Err(error: E)

  /** The Python exceptions the modelled code can raise. */
  datatype PyError =
    | StructError    // struct.pack / struct.unpack given the wrong number of bytes
    | IndexError     // indexing an empty bytes object
    | OverflowError  // int.to_bytes of a value that does not fit
    | ValueError     // pow(x, -1, p) of a value with no inverse
}
