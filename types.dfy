/** Values shared by the capture page's components. */
module Types {

  /** Raw bytes of a blob. */
  type Bytes = seq<bv8>

  /** The body of a successful `/capture` response: one camera frame, any size. */
  datatype RawFrame = RawFrame(payload: Bytes)

  /** One recorded frame: the 96x96 grayscale JPEG that `resizeTo96` encodes. */
  datatype Frame = Frame(jpeg: Bytes)

  datatype Option<T> = None | Some(value: T)

  /** The outcome of an operation that may throw an `Error` carrying a message. */
  datatype Result<T> = Ok(value: T) | Err(message: string)
}
