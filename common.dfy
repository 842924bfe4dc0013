/** Error kinds and the result type shared by the two translators.

    Both scripts stop at the first problem: an explicit `sys.exit(1)` for a
    record of the wrong size (or a declined pad), or an uncaught `ValueError`
    from `int(..., 16)`, `bytearray.fromhex` or `bytes.decode`, which also ends
    the interpreter with status 1. */
module Common {

  datatype Error =
    | InvalidLength    // MBR record whose sanitised text is not 32 characters
    | Declined         // short FAT record and the operator refused to pad it
    | FormatError      // a character that is not a hexadecimal digit where one is parsed
    | TextDecodeError  // a text field whose bytes are not well-formed UTF-8

  datatype Result<+T> = Ok(value: T) | Err(error: Error) {

    predicate IsFailure() {
      Err?
    }

    function PropagateFailure<U>(): Result<U>
      requires Err?
    {
      Err(error)
    }

    function Extract(): T
      requires Ok?
    {
      value
    }
  }

  /** The process exit status of a run that ends with `r`: 0 for a report,
      1 for every error (explicit `sys.exit(1)` or an uncaught exception). */
  function ExitStatus<T>(r: Result<T>): (status: nat)
    ensures status == 0 <==> r.Ok?
    ensures status <= 1
  {
    if r.Ok? then 0 else 1
  }
}
