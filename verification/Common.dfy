/** Datatypes shared by every component model. */
module Common {

  /** Rust's `Option`, Python's value-or-`None`. */
  datatype Option<+T> = None | Some(value: T)

  /** Rust's `Result`, Python's value-or-exception. */
  datatype Result<+T, +E> = Ok(value: T) | Err(error: E)

  /** An unsigned octet, kept as a mathematical integer. */
  type byte = b: int | 0 <= b < 256

  lemma Associates<T>(a: seq<T>, b: seq<T>, c: seq<T>)
    ensures a + b + c == a + (b + c)
  {}

  predicate OccursAt(text: string, part: string, k: int) {
    0 <= k <= |text| - |part| && text[k..k + |part|] == part
  }

  /** Python's `part in text`. */
  predicate Contains(text: string, part: string) {
    exists k :: 0 <= k <= |text| && OccursAt(text, part, k)
  }
}
