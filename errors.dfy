/** The exceptions the OSD publisher throws, as values. */
module Errors {

  /** One constructor per exception raised by OSD.cpp (or by the mapping calls it makes). */
  datatype Error =
    | EntryNameBlank        // ArgumentException: entry name null, empty or whitespace
    | EntryNameTooLong      // ArgumentException: entry name longer than 255 ANSI bytes
    | TextNull              // ArgumentNullException on the text argument
    | TextTooLong           // ArgumentException: text longer than 4095 ANSI bytes
    | AttachFailed          // OpenFileMapping / MapViewOfFile failed (server not running)
    | InvalidSharedMemory   // InvalidDataException: signature or version rejected

  /** A managed handle argument (String^) that may be null. */
  datatype Nullable<+T> = Null | NonNull(value: T)

  /** An operation that returns nothing but may throw. */
  datatype Outcome = Pass | Fail(error: Error)

  /** An operation that returns a value or throws. */
  datatype Result<+T> = Success(value: T) | Failure(error: Error)
}
