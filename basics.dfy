/** Small shared vocabulary: an optional value, a result with an error, and integer helpers. */
module Basics {

  datatype Option<T> = None | Some(value: T)

  datatype Result<T, E> = Ok(value: T) | Err(error: E)

  function Min(x: int, y: int): int { if x <= y then x else y }

  function Max(x: int, y: int): int { if x >= y then x else y }

  /** Python's three-argument `min`. */
  function Min3(x: int, y: int, z: int): int { Min(x, Min(y, z)) }

  function Abs(x: int): nat { if x < 0 then -x else x }
}
