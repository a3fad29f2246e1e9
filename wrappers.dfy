/** Result and outcome types for the error paths of the contour-to-grid pipeline. */
module Wrappers {

  /** The ways one run of the pipeline can fail. */
  datatype Error =
    | EmptyContour                   // no segment to seed the first cycle with
    | MalformedContour               // a full scan found no segment at the current endpoint
    | DanglingReference(node: nat)   // a linked vertex whose neighbour is not in the graph
    | IndexOutOfRange(index: int)    // a grid write outside [0, width*height)

  datatype Option<+T> = None | Some(value: T)

  datatype Result<+T> = Success(value: T) | Failure(error: Error)

  datatype Outcome = Pass | Fail(error: Error)
}
