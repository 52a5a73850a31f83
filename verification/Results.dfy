/** Outcomes of the source's fallible operations: a value, or what was thrown. */
module Results {

  datatype Option<+T> = None | Some(value: T) {
    predicate IsFailure() {
      None?
    }

    function PropagateFailure<U>(): Option<U>
      requires None?
    {
      None
    }

    function Extract(): T
      requires Some?
    {
      value
    }
  }

  datatype Result<+T> = Ok(value: T) | Throws(error: Error) {
    predicate IsFailure() {
      Throws?
    }

    function PropagateFailure<U>(): Result<U>
      requires Throws?
    {
      Throws(error)
    }

    function Extract(): T
      requires Ok?
    {
      value
    }
  }

  datatype Error =
    | NoLogarithm            // glog of zero
    | IllegalChar            // a character outside a mode's alphabet
    | CodeLengthOverflow     // the segments do not fit the version
    | BadMode                // no such mode, or no count field for it
    | NoKanji                // no character table for the mode is registered
    | BadType                // no such version
    | BadBlocks              // no such row of the block table
    | UnexpectedEndOfFile    // base64 input stops inside a byte
    | BadBase64Char          // a character outside the base64 alphabet
    | DuplicateKey           // lzwTable.add of a present key
    | LengthOver             // a code wider than its field
    | BadLength              // an array of negative length
    | EndlessRecursion       // a recursion that never shortens its argument
}
