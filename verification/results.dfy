/** Failure-carrying datatypes shared by the model.

    `Option` stands for Python's `None`-or-value, and `Result` for a
    computation that either returns a value or raises one of the error
    kinds the pipeline can meet. */
module Results {

  datatype Option<+T> = None | Some(value: T)

  /** The ways a step of the pipeline can fail. */
  datatype Error =
    | ReadError(path: string)   // a raster could not be opened or decoded
    | WriteError(path: string)  // an output raster could not be written
    | ReprojectError(path: string) // the raster at this path could not be reprojected
    | ShapeMismatch             // two grids that must be co-registered differ in shape
    | FormatError               // a metric of None handed to a numeric format

  datatype Result<+T> = Success(value: T) | Failure(error: Error)
}
