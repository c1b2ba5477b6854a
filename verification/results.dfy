/** Failure-compatible wrappers shared by the dataset and the text mapper.
    Each error names the Python exception the original raises at that point. */
module Results {

  datatype Error =
    | SampleTooLarge      // ValueError from random.sample: sample larger than population or negative
    | NegativeDimension   // ValueError from np.full with a negative width
    | ShapeMismatch       // ValueError from numpy: the label cannot be broadcast into its slice of the row
    | EmptyBatch          // ValueError from max() over an empty batch
    | NoLabels            // IndexError from labels[0] on an empty list
    | CodeOutOfRange      // IndexError from _from_char[code]
    | NotIterable         // TypeError: a row of a 2-D label list is not iterable
    | NotAnIndex          // TypeError: a row used where a code was expected
    | UnrecognizedLabels  // ValueError raised by labels_to_text itself

  datatype Option<+T> = None | Some(value: T)

  datatype Result<+T> = Ok(value: T) | Err(error: Error) {

    predicate IsFailure() {
      Err?
    }

    function PropagateFailure<U>(): Result<U>
      requires Err?
    {
      Err(error)
    }

    function Extract(): T
      requires Ok?
    {
      value
    }
  }
}
