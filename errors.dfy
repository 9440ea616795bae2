/** Failure-carrying result types and the exceptions the archive package raises. */
module Errors {

  datatype Option<+T> = None | Some(value: T)

  datatype Result<+T, +E> = Success(value: T) | Failure(error: E)

  datatype Outcome<+E> = Pass | Fail(error: E)

  /** The exceptions of archive/__init__.py, plus the ValueError of `extract`. */
  datatype Error =
    | UnrecognizedCompressionFormat      // a CompressionException
    | UnrecognizedArchiveFormat          // an ArchiveException
    | UnsafeArchive(member: string)      // an ArchiveException naming the member
    | InvalidMethodOption                // ValueError("Invalid method option")

  /** `except CompressionException` catches exactly these. */
  predicate IsCompressionException(e: Error) {
    e.UnrecognizedCompressionFormat?
  }

  /** `except ArchiveException` catches exactly these. */
  predicate IsArchiveException(e: Error) {
    e.UnrecognizedArchiveFormat? || e.UnsafeArchive?
  }
}
