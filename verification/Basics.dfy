/** Types shared by every component of the model. */
module Basics {

  datatype Option<+T> = None | Some(value: T)

  datatype Result<+R, +E> = Ok(value: R) | Err(error: E)

  newtype Byte = x: int | 0 <= x < 256

  /** The largest value of a QUIC variable-length integer, 2^62 - 1. */
  const VARINT_MAX: nat := 0x3fff_ffff_ffff_ffff

  type ConnectionId = seq<Byte>

  type ResetToken = seq<Byte>

  function Min(a: nat, b: nat): nat { if a <= b then a else b }

  function Max(a: nat, b: nat): nat { if a <= b then b else a }

  function SaturatingSub(a: nat, b: nat): nat { if b <= a then a - b else 0 }

  /** How often `x` occurs in `s`. */
  function Count(s: seq<nat>, x: nat): nat {
    if s == [] then 0 else Count(s[..|s| - 1], x) + if s[|s| - 1] == x then 1 else 0
  }
}
