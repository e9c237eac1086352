/** How an operation of the program can end: with a value, with one of its error returns,
    or in a way the Go runtime decides (a panic, a loop that never ends). */
module Results {

  datatype Error =
    // decided by the runtime
    | OutOfRange           // index or slice bound outside a slice: the program panics
    | Diverges             // the loop makes no progress and never returns
    | NotImplemented       // an explicit panic of an encoder
    // error returns of the codec
    | TooSmall
    | TooLarge
    | UnsupportedType
    | UnsupportedMetadata
    | BadMetadataEnd
    | UnsupportedChecksum
    | BadFormatVersion
    | BadHeaderLength
    | RotateOverflow
    | SqlOverflow
    | VarsOverflow
    // error return of the streamer's row walkers
    | ColumnsUnequal

  datatype Option<+T> = None | Some(value: T)

  datatype Result<+T> = Ok(value: T) | Err(error: Error) {
    predicate IsFailure() {
      Err?
    }

    function PropagateFailure<U>(): Result<U>
      requires Err?
    {
      Err(error)
    }

    function Extract(): T
      requires Ok?
    {
      value
    }
  }
}
