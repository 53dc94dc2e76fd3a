/** Small failure-carrying datatypes shared by the other modules. */
module Wrappers {

  /** A value that may be absent: a shape whose `text` attribute is missing, a key that does not parse. */
  datatype Option<+T> = None | Some(value: T)

  /** What a call into a document library (PDF reader, spreadsheet reader, OCR engine,
      presentation reader) produced: the value it returned, or the message of the
      exception it raised (Python's `str(e)`). */
  datatype Outcome<+T> = Returned(value: T) | Raised(message: string)
}
