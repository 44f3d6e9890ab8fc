/** Failure-carrying results shared by every module of the model. */
module Wrappers {

  datatype Option<+T> = None | Some(value: T)

  datatype Result<+T, +E> = Ok(value: T) | Err(error: E)

  /** The ways a mesh operation can fail. Where the C code would trip a debug
      assertion or read through a null table, the model reports one of these. */
  datatype MeshError =
    | InvalidTopology                      // unknown element type or arity
    | OutOfRangeIndex                      // an index outside its entity space
    | NonManifoldFace(face: int, cell: int) // a third cell claims a face
    | MalformedBlock                       // a missing connectivity table, or a block of no elements
    | MissingTag(name: string)             // a block tag the FV mesh does not have
}
