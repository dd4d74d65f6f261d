/** Shared vocabulary of the repair pipeline: optional values, results with
    an error, the record type produced by CSV parsing, and the errors that end
    the processing of one file. */
module Common {

  /** A value that may be absent, as returned by a dictionary lookup. */
  datatype Option<+T> = None | Some(value: T)

  /** Either a value or the error that stopped the computation. */
  datatype Result<+R, +E> = Success(value: R) | Failure(error: E)

  /** One parsed CSV record: its fields in order, empty fields included. */
  type Record = seq<string>

  /** The two errors the model distinguishes that stop a file's processing.
      - DecodeError(line): the 1-based physical line whose bytes, once NUL
        bytes are removed, are not valid UTF-8;
      - MissingHeader: the file holds no record at all, so there is no header
        to read the column count from. */
  datatype Error = DecodeError(line: nat) | MissingHeader
}
