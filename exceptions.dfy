/** The exceptions a file visit can end in, as one tagged value. */
module Exceptions {

  /** The two messages ExtractDataException is thrown with, plus the
      encryption message. */
  datatype ExtractReason =
    | EncryptedFile       // "File is verschlüsselt"
    | NameNotExtracted    // "Der Name konnnte nicht extrahiert werden."
    | DateNotExtracted    // "Das Datum konnnte nicht extrahiert werden."

  /** The two messages of ErroneousExtractedDataException. */
  datatype DataReason =
    | NoData              // the extracted map is empty
    | BlankData           // its first key or first value is blank

  datatype Failure =
    | IOError                               // java.io.IOException
    | ExtractData(reason: ExtractReason)    // ExtractDataException
    | ErroneousData(problem: DataReason)    // ErroneousExtractedDataException
    | DuplicateData(name: string)           // DuplicateDataException
}
