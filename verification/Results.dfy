/** Optional values and I/O results, the failure-compatible shapes of Rust's `Option` and `io::Result`. */
module Results {

  datatype Option<+T> = None | Some(value: T)

  datatype IoError =
    | Unsorted
    | ShorterThanFooter
    | BadMagic
    | SparsePastEnd
    | UnexpectedEof
    | NonUtf8Key
    | CapacityOverflow

  datatype IoResult<+T> = Ok(value: T) | Err(error: IoError) {
    predicate IsFailure() {
      Err?
    }

    function PropagateFailure<U>(): IoResult<U>
      requires Err?
    {
      Err(error)
    }

    function Extract(): T
      requires Ok?
    {
      value
    }
  }
}
