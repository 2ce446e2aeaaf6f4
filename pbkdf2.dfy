/** PBKDF2 as section 5.2 of RFC 8018 defines it, instantiated with a
    pseudorandom function of 64-byte output (HMAC-SHA-512, `ring`'s
    `PBKDF2_HMAC_SHA512`). HMAC-SHA-512 itself is not modelled: the
    derivation takes it as a parameter of type `HmacSha512`, any function
    from (key, message) to 64 bytes. */
module Pbkdf2 {
  import opened Bytes

  /** hLen, the output length of SHA-512 (`digest::SHA512_OUTPUT_LEN`). */
  const SHA512_OUTPUT_LEN: nat := 64

  /** The largest dkLen the RFC allows: (2^32 - 1) * hLen. */
  const MAX_DK_LEN: nat := 0xFFFF_FFFF * SHA512_OUTPUT_LEN

  /** A keyed pseudorandom function with 64-byte output. */
  type HmacSha512 = prf: (seq<byte>, seq<byte>) -> seq<byte>
    | forall key, msg :: |prf(key, msg)| == SHA512_OUTPUT_LEN
    witness (key: seq<byte>, msg: seq<byte>) => Zeros(64)

  /** INT(i): the four-octet big-endian encoding of `i`. */
  function Int32BE(i: nat): (r: seq<byte>)
    requires i < 0x1_0000_0000
    ensures |r| == 4
  {
    [i / 0x100_0000, (i / 0x1_0000) % 0x100, (i / 0x100) % 0x100, i % 0x100]
  }

  /** U_j xor U_(j+1) xor ... xor U_(j+k-1), given U_j = u and
      U_(j+1) = PRF(P, U_j). */
  function XorChain(prf: HmacSha512, password: seq<byte>, u: seq<byte>, k: nat): (r: seq<byte>)
    requires |u| == SHA512_OUTPUT_LEN && k >= 1
    ensures |r| == SHA512_OUTPUT_LEN
    decreases k
  {
    if k == 1 then u else Xor(u, XorChain(prf, password, prf(password, u), k - 1))
  }

  /** F(P, S, c, i) = U_1 xor U_2 xor ... xor U_c, U_1 = PRF(P, S || INT(i)). */
  function Block(prf: HmacSha512, password: seq<byte>, salt: seq<byte>, c: nat, i: nat): (r: seq<byte>)
    requires c >= 1 && 1 <= i < 0x1_0000_0000
    ensures |r| == SHA512_OUTPUT_LEN
  {
    XorChain(prf, password, prf(password, salt + Int32BE(i)), c)
  }

  /** T_i || T_(i+1) || ... || T_l. */
  function Blocks(prf: HmacSha512, password: seq<byte>, salt: seq<byte>, c: nat, i: nat, l: nat): (r: seq<byte>)
    requires c >= 1 && 1 <= i && l < 0x1_0000_0000
    ensures |r| == if i <= l then (l - i + 1) * SHA512_OUTPUT_LEN else 0
    decreases l + 1 - i
  {
    if i > l then [] else Block(prf, password, salt, c, i) + Blocks(prf, password, salt, c, i + 1, l)
  }

  /** DK = the first dkLen octets of T_1 || ... || T_l, l = ceil(dkLen / hLen). */
  function DerivedKey(prf: HmacSha512, c: nat, password: seq<byte>, salt: seq<byte>, dkLen: nat): (dk: seq<byte>)
    requires c >= 1 && dkLen <= MAX_DK_LEN
    ensures |dk| == dkLen
  {
    var l := (dkLen + SHA512_OUTPUT_LEN - 1) / SHA512_OUTPUT_LEN;
    Blocks(prf, password, salt, c, 1, l)[..dkLen]
  }

  /** With dkLen = hLen the key is one block: DK = F(P, S, c, 1). */
  lemma OneBlockKey(prf: HmacSha512, c: nat, password: seq<byte>, salt: seq<byte>)
    requires c >= 1
    ensures DerivedKey(prf, c, password, salt, SHA512_OUTPUT_LEN) == Block(prf, password, salt, c, 1)
  {
    var b := Block(prf, password, salt, c, 1);
    assert Blocks(prf, password, salt, c, 2, 1) == [];
    assert Blocks(prf, password, salt, c, 1, 1) == b;
  }

  /** `pbkdf2::derive`: fills `out` with the derived key of length
      `out.Length`. */
  method Derive(prf: HmacSha512, iterations: nat, salt: seq<byte>, secret: seq<byte>, out: array<byte>)
    requires iterations >= 1 && out.Length <= MAX_DK_LEN
    modifies out
    ensures out[..] == DerivedKey(prf, iterations, secret, salt, out.Length)
  {
    var dk := DerivedKey(prf, iterations, secret, salt, out.Length);
    forall i | 0 <= i < out.Length {
      out[i] := dk[i];
    }
    assert out[..] == dk;
  }
}
