/** Option and Result, and the error kinds the archiver reports. */
module Wrappers {

  datatype Option<+T> = None | Some(value: T)

  datatype Result<+T> = Ok(value: T) | Err(error: Error) {
    predicate IsFailure() { Err? }

    function PropagateFailure<U>(): Result<U>
      requires Err?
    {
      Err(error)
    }

    function Extract(): T
      requires Ok?
    {
      value
    }
  }

  /** The failures of pack, unpack and list.  `Abort` stands for a place where
      the Rust code panics (an `unwrap` or a slice copy of the wrong length). */
  datatype Error =
    | Io(what: string)
    | InvalidMagic
    | InvalidVersion(version: int)
    | InvalidAlgorithm(tag: int)
    | UnexpectedEof
    | InvalidData
    | FillShort
    | TotalSizeMismatch(expected: int, actual: int)
    | TotalChunksMismatch(expected: int, actual: int)
    | InvalidSourceName(path: string)
    | MalformedIndex
    | Abort(what: string)
}
