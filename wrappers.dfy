/** The two wrappers the stitcher needs: an optional value (the fill image) and a
    success-or-error result (the fatal checks of the stitcher). */
module Wrappers {

  datatype Option<+T> = None | Some(value: T)

  datatype Result<+T, +E> = Success(value: T) | Failure(error: E)
}
