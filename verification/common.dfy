/** Shared vocabulary: bytes, optional values and fallible results. */
module Common {

  /** One octet of a Python `bytes` object. */
  type byte = x: int | 0 <= x < 256

  datatype Option<+T> = None | Some(value: T)

  /** A computation that either succeeds or raises an exception carrying a message. */
  datatype Result<+T> = Ok(value: T) | Err(message: string)

  function Min(a: int, b: int): int
  {
    if a <= b then a else b
  }

  /** The elements of `parts` laid end to end, in order. */
  function Concat<T>(parts: seq<seq<T>>): seq<T>
  {
    if |parts| == 0 then [] else Concat(parts[..|parts| - 1]) + parts[|parts| - 1]
  }
}
