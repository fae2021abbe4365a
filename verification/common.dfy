/** Shared vocabulary: an optional value (JavaScript's `undefined`/`null`)
    and a few integer helpers. */
module Common {

  /** An absent-or-present value. */
  datatype Option<+T> = None | Some(value: T) {

    /** The value, or `default` when absent: JavaScript's `x ?? default`. */
    function GetOr(default: T): T {
      match this
      case Some(v) => v
      case None => default
    }
  }

  function Max(a: int, b: int): int {
    if a >= b then a else b
  }

  function Abs(a: int): nat {
    if a < 0 then -a else a
  }

  /** Reading index `i` of a JavaScript array whose holes are `None`:
      an index outside the array reads as absent too. */
  function At<T>(s: seq<Option<T>>, i: int): Option<T> {
    if 0 <= i < |s| then s[i] else None
  }
}
