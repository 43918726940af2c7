/** Failure-compatible results and the ways the modelled operations can fail. */
module Results {

  /** Why an operation stopped.  Each value stands for one error the source raises, or (last group)
      for a point where the source's behaviour is undefined and the model refuses to go on. */
  datatype Error =
    | Truncated              // "Truncated DWARF data", "Truncated DWARF integer"
    | BadLeb128              // "Invalid DWARF LEB128"
    | UnterminatedString     // "Unterminated DWARF string"
    | UnknownForm            // "Unrecognized DWARF form"
    | MissingKey             // std::out_of_range from a map's at()
    | UnexpectedOpcode       // opcodes the interpreters reject
    | BadVariant             // std::bad_variant_access
    | BadPointerEncoding     // "Unknown eh_frame pointer encoding"
    | BadTable               // malformed compact unwind tables
    | Undefined              // the source's behaviour is undefined here

  datatype Result<+T> = Ok(value: T) | Err(error: Error) {
    predicate IsFailure() { Err? }

    function PropagateFailure<U>(): Result<U>
      requires Err?
    {
      Err(error)
    }

    function Extract(): T
      requires Ok?
    {
      value
    }
  }

  datatype Option<+T> = None | Some(value: T)
}
