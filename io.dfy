/** The failure-carrying types of the reader's interface: Rust's `Option`,
    `io::Error` (only the kinds the reader tells apart) and `io::Result`. */
module Io {

  datatype Option<+T> = None | Some(value: T)

  /** `InvalidData` is the kind the reader gives a line that is not UTF-8;
      `Os` stands for every other error kind a read can report. */
  datatype IoError = InvalidData | Os(code: int)

  datatype Result<+T> = Ok(value: T) | Err(error: IoError)
}
