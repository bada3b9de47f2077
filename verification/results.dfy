/**
 The outcome of every fallible step of image inspection.

 The Go program reports most problems through log.Fatal (the process exits) or a
 failed type assertion (the goroutine panics); here each of those becomes a
 `Failure` carrying the kind of error, so that callers can see which inputs
 are rejected. The one recoverable condition, a tainted entry name, is also an
 `Error` value, but the extractor swallows it and carries on.
 */
module Results {

  datatype Error =
    | Tainted(entryName: string)        // sanitizeArchivePath refused the entry name
    | TarReadFailed                     // the tar reader reported something other than end of archive
    | CopyFailed(target: string)        // io.CopyN did not stop at the end of the entry
    | ManifestCount(found: nat)         // not exactly one file matched the manifest pattern
    | FileUnreadable(path: string)      // a file could not be opened, read or parsed as JSON
    | NotRecordList(path: string)       // the manifest is not a JSON array of objects
    | NotRecord(path: string)           // the config is not a JSON object
    | RecordCount(found: nat)           // the manifest array does not hold exactly one record
    | FieldMismatch(field: string)      // a field is missing or of the wrong JSON type

  /** Success or failure; usable with `:-`. */
  datatype Result<+T> = Success(value: T) | Failure(error: Error) {

    predicate IsFailure() {
      Failure?
    }

    function PropagateFailure<U>(): Result<U>
      requires Failure?
    {
      Failure(error)
    }

    function Extract(): T
      requires Success?
    {
      value
    }
  }
}
