/** How the library reports failure. */
module Results {

  /** The ways an operation of the library can fail: `throw -1` in the
      library's own code, the `std::out_of_range` that `std::vector::at`
      raises for an index past the end, and the `std::length_error` that
      the `std::vector` constructor raises for a size beyond `max_size()`. */
  datatype Error = MinusOne | OutOfRange | LengthError

  datatype Result<T> = Ok(value: T) | Err(error: Error)
}
