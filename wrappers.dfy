/** Optional values and results, used for Rust's `Option` and `Result`. */
module Wrappers {

  datatype Option<+T> = None | Some(value: T)

  datatype Result<+T, +E> = Ok(value: T) | Err(error: E)
}

/** Bytes and the fixed-width integers of the scanner. */
module Bytes {

  type byte = b: int | 0 <= b < 0x100

  const NEWLINE: byte := 10

  const U64_MODULUS: int := 0x1_0000_0000_0000_0000

  type u64 = x: int | 0 <= x < 0x1_0000_0000_0000_0000

  type i64 = x: int | -0x8000_0000_0000_0000 <= x < 0x8000_0000_0000_0000

  /** `v as i64`: reinterprets the 64 bits of an unsigned value as two's complement. */
  function AsI64(v: u64): (r: i64)
    ensures r % U64_MODULUS == v
    ensures v < 0x8000_0000_0000_0000 ==> r == v
  {
    if v < 0x8000_0000_0000_0000 then v else v - U64_MODULUS
  }

  /** Reduces an integer to i64 by wrapping around modulo 2^64. */
  function WrapI64(x: int): (r: i64)
    ensures r % U64_MODULUS == x % U64_MODULUS
    ensures -0x8000_0000_0000_0000 <= x < 0x8000_0000_0000_0000 ==> r == x
  {
    var m := x % U64_MODULUS;
    if m < 0x8000_0000_0000_0000 then m else m - U64_MODULUS
  }

  /** The bytes of an ASCII text. */
  function Ascii(s: string): (r: seq<byte>)
    requires forall k :: 0 <= k < |s| ==> s[k] as int < 0x80
    ensures |r| == |s| && forall k :: 0 <= k < |s| ==> r[k] == s[k] as int
  {
    seq(|s|, k requires 0 <= k < |s| => s[k] as int)
  }
}
