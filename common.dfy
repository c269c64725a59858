/** Shared value types: optional values, results with an error side, bytes. */
module Common {

  /** A value that may be missing (Python `None`, JavaScript `undefined`/`null`). */
  datatype Option<+T> = None | Some(value: T)

  /** The outcome of an operation that may raise: `Err` carries what was raised. */
  datatype Result<+T, +E> = Ok(value: T) | Err(error: E)

  /** An unsigned 8-bit value. */
  type Byte = b: int | 0 <= b < 256

  /** JavaScript's `v || fallback` on a possibly missing string: empty counts as missing. */
  function OrElse(v: Option<string>, fallback: string): string
  {
    if v.Some? && v.value != [] then v.value else fallback
  }
}
