/** Values standing for what the program gets from the operating system:
    optional values, I/O results and the errors they carry. */
module Io {

  datatype Option<+T> = None | Some(value: T)

  /** The kinds of `std::io::Error` the loader can report. `InvalidInput` is the one
      the loader itself constructs; the others come from the filesystem. */
  datatype ErrorKind = InvalidInput | NotFound | PermissionDenied | InvalidData | OtherKind

  datatype IoError = IoError(kind: ErrorKind, message: string)

  /** `std::io::Result<T>`. */
  datatype Result<+T> = Ok(value: T) | Err(error: IoError)

  /** What `fs::read_to_string` yields for one file. */
  datatype FileContent = Readable(text: string) | Unreadable(error: IoError)
}
