/**
 The two shapes of outcome the model needs: a value that may be missing
 (a clipboard without text, a file that cannot be read as text), and a
 computation that ends either with a value or with an error.
 */
module Outcomes {

  /** A value that may be missing. */
  datatype Maybe<T> = Nothing | Just(value: T)

  /** An outcome: the value produced, or the error that stopped it. */
  datatype Outcome<T, E> = Ok(value: T) | Err(error: E)

  /**
   The text held, or the empty string when there is none: Rust's
   `unwrap_or_default` on a string.
   */
  function UnwrapOrDefault(m: Maybe<string>): (s: string)
    ensures m.Just? ==> s == m.value
    ensures m.Nothing? ==> s == ""
  {
    if m.Just? then m.value else ""
  }
}
