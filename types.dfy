/** Outcomes of the per-subject rendering pipeline of concrete.py. */
module Types {

  /** Why a subject could not be rendered from a given image. */
  datatype Failure =
    | UnknownLetter(letter: char)  // `alphabet.index` raised: a non-space letter outside the density order
    | ZeroDimension                // `maxSide/i.size[k]` divided by a zero image side
    | EmptyResize                  // the computed output size has a zero side, which PIL's resize refuses
    | EmptyGrid                    // the resized grid has no cell, so `i.min()` raises
    | FlatImage                    // every cell has the same sum, so `i/i.max()` divides by zero

  /** A value, or the failure that stopped its computation. */
  datatype Result<+T> = Ok(value: T) | Err(error: Failure) {
    predicate IsFailure() { Err? }
    function PropagateFailure<U>(): Result<U>
      requires Err?
    {
      Err(error)
    }
    function Extract(): T
      requires Ok?
    {
      value
    }
  }

  /** Every failure except an unknown letter is raised inside the `try` at
      concrete.py:69, so the `except` at line 88 catches it; an unknown letter
      is raised before that `try` and ends the run. What the handler then does
      is outside this model. */
  predicate Caught(f: Failure)
  {
    !f.UnknownLetter?
  }

  datatype Option<+T> = None | Some(value: T)
}
