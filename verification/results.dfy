/** The one checked failure of the library: `std::out_of_range` thrown by `at`. */
module Results {

  datatype Error = OutOfRange

  /** The outcome of a checked accessor: the element, or the exception it throws. */
  datatype Result<T> = Ok(value: T) | Err(error: Error)
}
