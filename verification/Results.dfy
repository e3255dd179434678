/** A value or its absence. */
module Options {
  datatype Option<+T> = None | Some(value: T)
}

/** Results and the decoder's error values. */
module Results {
  datatype Result<+T> = Ok(value: T) | Err(error: Error)

  datatype Error =
    | IntOverflow
    | UnexpectedEOF
    | InvalidLength
    | UnexpectedEndOfGroup
    | IllegalWireType(wireType: int)
    | EndGroupForNonGroup
    | IllegalTag(fieldNum: int, wire: int)
    | WrongWireType(field: int, found: int)
}
