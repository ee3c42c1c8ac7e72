/**
 * The exceptions a two-way dictionary raises, as values.
 */
module Results {

  /** Why an operation was refused; a refused operation leaves the dictionary unchanged. */
  datatype Error =
    | DuplicateKey    // strict Add: one of the two elements is already paired
    | DuplicateValue  // setter or Overwrite: the new counterpart is already paired
    | KeyNotFound     // lookup or Remove of an element that is not paired
    | ValueMismatch   // Overwrite: the key is not paired with the given old value

  /** The outcome of a lookup. */
  datatype Result<T> = Ok(value: T) | Err(error: Error)

  /** The outcome of a mutator that returns nothing on success. */
  datatype Outcome = Pass | Fail(error: Error)
}
