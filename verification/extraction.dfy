/** The `(applicable, success)` result every `extract` returns, with what lies behind it. */
module Extraction {

  /** Why an extractor skipped or failed, matching the distinct messages the source logs. */
  datatype Reason =
    | NameMismatch          // the file name has the wrong prefix or suffix
    | Unreadable            // the cmbcc bill could not be opened or read
    | ToolMissing           // `7z` is not on PATH
    | PasswordFileMissing   // `password_file` unset, empty or not an existing path
    | NoPasswords           // the password file has no non-blank line
    | NoPasswordWorked      // every candidate was tried and refused
    | Unexpected            // any other exception caught at the extractor's boundary

  /** A file the extraction stage produces in the extraction directory. */
  datatype Output =
    | Moved(source: string, target: string)          // an extracted file, moved out of the temporary tree
    | Table(target: string, rows: seq<seq<string>>)  // a CSV file, as its rows before quoting

  /** One extractor's verdict, with the passwords it tried in order. */
  datatype Extraction =
    | Skipped(why: Reason)
    | Failed(why: Reason, tried: seq<string>)
    | Done(tried: seq<string>, outputs: seq<Output>)
  {
    /** The first component of the Python tuple. */
    predicate Applicable() {
      !Skipped?
    }

    /** The second component of the Python tuple. */
    predicate Success() {
      Done?
    }
  }
}
