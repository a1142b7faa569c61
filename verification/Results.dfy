/** Optional values, and results of code that may throw. */
module Results {

  datatype Option<+T> = None | Some(value: T)

  datatype Exception =
    | UnexpectedEnd        // the bit reader ran out of bytes
    | InvalidBlockType     // block type 3
    | InvalidStoredLength  // LEN and NLEN disagree
    | UncompleteBlock      // a stored block ran out of bytes
    | InvalidLengthCode    // length symbols 286 and 287
    | TypeError            // a property of null was used
    | RangeError           // an array of invalid length was requested
    | InvalidCharacter     // a byte or character that no encoding has
    | InvalidSequence      // a multi-byte character that does not go on
    | InvalidEncoding      // Base64 text that is cut short or padded in the middle

  datatype Result<+T> = Ok(value: T) | Throws(exception: Exception) {
    predicate IsFailure() {
      Throws?
    }

    function PropagateFailure<U>(): Result<U>
      requires Throws?
    {
      Throws(exception)
    }

    function Extract(): T
      requires Ok?
    {
      value
    }
  }
}
