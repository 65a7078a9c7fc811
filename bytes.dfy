/** Octets, optional values and results shared by every part of the model of the
    AT49F512 programmer script. */
module Bytes {

  /** One octet, as the serial link and the payload file carry it. */
  type byte = x: int | 0 <= x < 0x100

  /** A value that may be absent. For the two address fields it stands in for the
      script's -1 "not given" sentinel. */
  datatype Option<+T> = None | Some(value: T) {

    /** The value, or the default when absent. */
    function GetOr(default: T): T {
      match this
      case Some(v) => v
      case None => default
    }
  }

  /** An operation that succeeds with a value or fails with an error. */
  datatype Result<+T, +E> = Ok(value: T) | Err(error: E)

  function Min(a: int, b: int): int { if a <= b then a else b }

  function Max(a: int, b: int): int { if a <= b then b else a }

  /** Regrouping a four-part concatenation. */
  lemma {:induction false} Regroup<T>(a: seq<T>, b: seq<T>, c: seq<T>, d: seq<T>)
    ensures a + b + c + d == a + (b + c + d)
  {
  }

  /** The integer the script holds for an optional address: the value, or -1. */
  function Sentinel(a: Option<nat>): int {
    if a.Some? then a.value else -1
  }
}
