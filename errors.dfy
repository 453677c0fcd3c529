/** The failures a sparse matrix operation can report, and the result type that carries them.
    Each kind stands for one exception the C++ class throws. */
module Errors {

  datatype MatrixError =
    | DimensionMismatch   // std::invalid_argument thrown by add, subtract and multiply
    | MalformedFile       // std::invalid_argument thrown by the loader (or by std::stoi on a non-number)
    | NumberOutOfRange    // std::out_of_range thrown by std::stoi on a number outside int

  datatype Result<+T> = Success(value: T) | Failure(error: MatrixError)
}
