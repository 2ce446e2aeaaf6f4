/** Bytes as the Rust code sees them (`u8`), and the helpers on byte
    sequences that the cryptographic model needs. */
module Bytes {

  /** A `u8`. */
  type byte = b: int | 0 <= b < 256

  /** Bitwise exclusive or of two bytes. */
  function XorByte(a: byte, b: byte): (r: byte)
  {
    ((a as bv8) ^ (b as bv8)) as int
  }

  /** Bytewise exclusive or of two byte strings of the same length. */
  function Xor(a: seq<byte>, b: seq<byte>): (r: seq<byte>)
    requires |a| == |b|
    ensures |r| == |a|
    ensures forall i :: 0 <= i < |r| ==> r[i] == XorByte(a[i], b[i])
  {
    seq(|a|, i requires 0 <= i < |a| => XorByte(a[i], b[i]))
  }

  /** `n` zero bytes, as in `[0u8; n]`. */
  function Zeros(n: nat): (r: seq<byte>)
    ensures |r| == n
    ensures forall i :: 0 <= i < n ==> r[i] == 0
  {
    seq(n, i => 0)
  }
}
