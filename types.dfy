// Shared vocabulary of the decoder: bytes, the failures the parser can raise,
// and the failure-compatible wrappers used to thread them.
module Types {

  /** One byte of the input file, as Python yields it when iterating over `bytes`. */
  type Byte = b: int | 0 <= b < 256

  /** Every way a parse can end without a document, one constructor per kind of failure. */
  datatype Error =
      /** `int(text)` on a text that is not a decimal literal (Python's ValueError);
          in practice the empty text read past the end of the buffer. */
    | InvalidLiteral(text: string)
    | WrongSignature(signature: string)
    | WrongVersion(version: nat)
    | InvalidReservedZeros(reserved: string)
    | ChannelCountOutOfBound(count: nat)
      /** The `_Version` validator refuses anything but 1 (PSD) and 2 (PSB). */
    | NotPsdOrPsb(version: nat)
      /** The `_Depth` validator; its message names an undefined variable, so the
          source actually raises NameError here. Either way the parse fails. */
    | InvalidColorDepth(depth: nat)
    | InvalidColorMode(mode: nat)
    | ImageTooBig(height: nat, width: nat)
      /** A non-empty colour-mode data section (palette or duotone data). */
    | ColorModeDataUnsupported
    | InvalidBlockSignature(signature: string)
      /** The resource name runs past the end of the section; the source keeps
          reading empty units and never returns. */
    | NameNeverTerminated

  datatype Option<+T> = None | Some(value: T)

  datatype Result<+T> = Ok(value: T) | Err(error: Error) {
    predicate IsFailure() { Err? }
    function PropagateFailure<U>(): Result<U>
      requires Err?
    {
      Err(error)
    }
    function Extract(): T
      requires Ok?
    {
      value
    }
  }

  /** The outcome of a step that produces nothing but may raise. */
  datatype Outcome = Pass | Fail(error: Error)
}
