/** Plain data shared by every buffer of the crate: bytes, outcomes, and the
    sequence operations that stand for the raw memory primitives the Rust code
    uses (`set_len` over uninitialised memory, `copy_within`, `copy_in_place`). */
module Bytes {

  /** A `u8`. */
  newtype byte = b: int | 0 <= b < 256

  /** `Result<(), E>` of a fallible operation that returns nothing. */
  datatype Outcome<E> = Pass | Fail(error: E)

  /** `Result<T, E>`. */
  datatype Result<T, E> = Ok(value: T) | Err(error: E)

  /** `std::cmp::min` on `usize`. */
  function Min(a: nat, b: nat): (m: nat)
    ensures m <= a && m <= b
    ensures m == a || m == b
  {
    if a <= b then a else b
  }

  /** The bytes that `set_len` exposes after a `reserve`. The Rust code never reads them
      before writing them; contracts in this model say nothing about their values. */
  function Uninit(n: nat): (r: seq<byte>)
    ensures |r| == n
  {
    seq(n, _ => 0)
  }

  /** `s.copy_within(from..to, 0)`: the bytes of `[from, to)` moved to offset 0, as an
      overlap-safe copy (a memmove); the bytes from offset `to - from` on are untouched. */
  function MoveToFront(s: seq<byte>, from: nat, to: nat): (r: seq<byte>)
    requires from <= to <= |s|
    ensures |r| == |s|
    ensures r[..to - from] == s[from..to]
    ensures r[to - from..] == s[to - from..]
  {
    seq(|s|, i requires 0 <= i < |s| => if i < to - from then s[from + i] else s[i])
  }

  /** A byte-string literal `b"..."` of the tests, from a Dafny string of ASCII characters. */
  function Ascii(s: string): (r: seq<byte>)
    requires forall i :: 0 <= i < |s| ==> s[i] as int < 256
    ensures |r| == |s|
    ensures forall i :: 0 <= i < |s| ==> r[i] as int == s[i] as int
  {
    seq(|s|, i requires 0 <= i < |s| => s[i] as int as byte)
  }
}
