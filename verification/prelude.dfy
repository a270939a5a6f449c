/** Small shared vocabulary: optional values, results and bytes. */
module Prelude {

  /** A value that may be absent (Python's `None`). */
  datatype Option<+T> = None | Some(value: T)

  /** Either a value or the exception that a call raises instead. */
  datatype Result<+T, +E> = Ok(value: T) | Err(error: E)

  /** HTTP header fields by name. */
  type Headers = map<string, string>

  /** An octet on the wire. */
  type byte = x: int | 0 <= x < 256

  function Max(a: int, b: int): int { if a < b then b else a }

  function Min(a: int, b: int): int { if a < b then a else b }
}
