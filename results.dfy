/** Optional values, the failures the audit trail reports, and results that carry either. */
module Results {

  /** A value that may be absent: a nullable `long?` argument or a `null` member reference. */
  datatype Option<T> = None | Some(value: T)

  /** The exceptions thrown by the audit trail, each with the detail it carries. */
  datatype Error =
    | ArgumentOutOfRange(param: string)   // ArgumentOutOfRangeException(nameof(param))
    | InvalidEntryIndex(index: int)       // IndexOutOfRangeException for an end index past the log
    | InvalidAppendIndex                  // InvalidOperationException: would discard a committed entry
    | EntrySetIsEmpty                     // ArgumentException: an empty batch of entries

  /** The outcome of a call that either returns a value or throws. */
  datatype Result<T> = Success(value: T) | Failure(error: Error)
}
