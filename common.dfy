/** Shared vocabulary: Rust's Option and Result, and the 32-bit signed integers of the source. */
module Common {

  /** Rust's `Option<T>`. */
  datatype Option<+T> = None | Some(value: T)

  /** Rust's `Result<T, E>`. */
  datatype Result<+T, +E> = Ok(value: T) | Err(error: E)

  /** What a pull iterator has still to give once it has handed out `head`: nothing after
      `None`, otherwise `head` followed by what the iterator itself still holds. */
  function Pending<T>(head: Option<T>, rest: seq<T>): seq<T> {
    if head.None? then [] else [head.value] + rest
  }

  const I32_MIN: int := -0x8000_0000
  const I32_MAX: int := 0x7fff_ffff

  /** Rust's `i32`: arithmetic happens on `int`, and storing a result back into an `Int32`
      is checked, so every overflow of the source has to be ruled out explicitly. */
  type Int32 = x: int | I32_MIN <= x <= I32_MAX
}
