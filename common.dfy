/** Failure-carrying wrappers and the error kinds of the file-management core. */
module Common {

  datatype Option<+T> = None | Some(value: T)

  datatype Result<+T, +E> = Success(value: T) | Failure(error: E)

  /** A result without a value: `Ok(())` or an error. */
  datatype Outcome<+E> = Pass | Fail(error: E)

  /** The ways an operation of the core can fail. */
  datatype Error =
    | InvalidPath        // an `unwrap` on a missing prefix, parent or file name (the program panics there)
    | PhotoNotFound      // the file to review or to undo is absent
    | NoFoldersToReview  // the scanner found no image outside the score buckets
    | ExhaustedAttempts  // every unique-path candidate is taken
    | NoParent           // the path has no parent directory
    | IoError            // the operating system refused a read, mkdir, chmod, rename or directory listing

  newtype byte = x: int | 0 <= x < 256

  /** The contents of a regular file. */
  type Bytes = seq<byte>
}
