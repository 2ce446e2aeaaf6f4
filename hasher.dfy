/** Salted password hashing (PBKDF2-HMAC-SHA512, 1000 iterations, 64-byte
    salt, 64-byte digest, both Base64-encoded) and random token
    generation. */
module Hasher {
  import opened Wrappers
  import opened Bytes
  import opened Domain
  import opened Pbkdf2
  import Base64
  import Utf8

  /** The iteration count c of the derivation. */
  const SALT_ROUNDS: nat := 1000

  /** `ring`'s `SystemRandom`. The operating system's entropy is modelled
      as the stream of bytes it will hand out; `fill` fails when the stream
      has run short. Clones of the generator draw from the same stream. */
  class SystemRandom {
    var entropy: seq<byte>

    constructor (entropy: seq<byte>)
      ensures this.entropy == entropy
    {
      this.entropy := entropy;
    }

    /** `fill`: overwrites all of `dest` with the next bytes of the stream,
        or fails and leaves both unchanged. */
    method Fill(dest: array<byte>) returns (ok: bool)
      modifies this, dest
      ensures ok == (dest.Length <= |old(entropy)|)
      ensures ok ==> dest[..] == old(entropy)[..dest.Length] && entropy == old(entropy)[dest.Length..]
      ensures !ok ==> entropy == old(entropy) && dest[..] == old(dest[..])
    {
      if dest.Length <= |entropy| {
        forall i | 0 <= i < dest.Length {
          dest[i] := entropy[i];
        }
        entropy := entropy[dest.Length..];
        ok := true;
      } else {
        ok := false;
      }
    }
  }

  /** What hashing `password` with the salt bytes `salt` produces: the
      Base64 salt and the Base64 PBKDF2 key of the password's UTF-8
      bytes. */
  function HashWith(prf: HmacSha512, salt: seq<byte>, password: string): (r: HashResult)
  {
    var key := DerivedKey(prf, SALT_ROUNDS, Utf8.Encode(password), salt, SHA512_OUTPUT_LEN);
    HashResult(Base64.Encode(salt), Base64.Encode(key))
  }

  /** `hash_password`: a fresh 64-byte salt from the generator, then the
      derivation. A failed fill panics, so the generator must be able to
      supply the salt. */
  method HashPassword(prf: HmacSha512, rng: SystemRandom, password: string) returns (r: HashResult)
    requires |rng.entropy| >= SHA512_OUTPUT_LEN
    modifies rng
    ensures rng.entropy == old(rng.entropy)[SHA512_OUTPUT_LEN..]
    ensures r == HashWith(prf, old(rng.entropy)[..SHA512_OUTPUT_LEN], password)
  {
    var salt := new byte[SHA512_OUTPUT_LEN](_ => 0);
    var filled := rng.Fill(salt);
    assert filled;
    var pbkdf2Hash := new byte[SHA512_OUTPUT_LEN](_ => 0);
    Derive(prf, SALT_ROUNDS, salt[..], Utf8.Encode(password), pbkdf2Hash);
    r := HashResult(Base64.Encode(salt[..]), Base64.Encode(pbkdf2Hash[..]));
  }

  /** `hash_password_with_existing_salt`: decodes the Base64 salt (a salt
      that does not decode panics, hence the precondition) and derives the
      hash again. The salt it returns is the decoded salt encoded again:
      the same bytes, and the same text exactly when the input text is
      canonical. */
  method HashPasswordWithExistingSalt(prf: HmacSha512, password: string, inputSalt: string) returns (r: HashResult)
    requires Base64.Decode(inputSalt).Some?
    ensures r == HashWith(prf, Base64.Decode(inputSalt).value, password)
    ensures Base64.Decode(r.salt) == Base64.Decode(inputSalt)
    ensures r.salt == inputSalt <==> Base64.Canonical(inputSalt)
    ensures Base64.Decode(r.hash).Some? && |Base64.Decode(r.hash).value| == SHA512_OUTPUT_LEN
  {
    var salt := Base64.Decode(inputSalt).value;
    var pbkdf2Hash := new byte[SHA512_OUTPUT_LEN](_ => 0);
    Derive(prf, SALT_ROUNDS, salt, Utf8.Encode(password), pbkdf2Hash);
    r := HashResult(Base64.Encode(salt), Base64.Encode(pbkdf2Hash[..]));
    Base64.EncodeDecode(inputSalt);
    Base64.DecodeEncode(salt);
    Base64.DecodeEncode(pbkdf2Hash[..]);
  }

  /** A salt written as two encodings, the first ending in padding (as
      "AA==AA=="), decodes to the joined bytes, and the salt returned for
      it is not the text that was given. */
  lemma ConcatenatedSaltComesBackReencoded(prf: HmacSha512, password: string, a: seq<byte>, b: seq<byte>)
    requires |a| % 3 != 0 && b != []
    ensures var s := Base64.Encode(a) + Base64.Encode(b);
      && Base64.Decode(s) == Some(a + b)
      && HashWith(prf, a + b, password).salt != s
  {
    var ea, eb := Base64.Encode(a), Base64.Encode(b);
    var s := ea + eb;
    Base64.DecodeConcatenated(a, b);
    Base64.EncodeEndsInPad(a);
    Base64.EncodedGroups(b);
    assert s[|ea| - 1] == Base64.Pad;
    assert !Base64.Canonical(s);
    Base64.EncodeCanonical(a + b);
    assert HashWith(prf, a + b, password).salt == Base64.Encode(a + b);
  }

  /** Before encoding, salt and hash are 64 bytes each; the hash is the
      single PBKDF2 block F(P, S, 1000, 1); each encodes to 88 characters. */
  lemma {:induction false} HashedParts(prf: HmacSha512, salt: seq<byte>, password: string)
    requires |salt| == SHA512_OUTPUT_LEN
    ensures var h := HashWith(prf, salt, password);
      && Base64.Decode(h.salt) == Some(salt)
      && Base64.Decode(h.hash) == Some(Block(prf, Utf8.Encode(password), salt, SALT_ROUNDS, 1))
      && |h.salt| == 88 && |h.hash| == 88
  {
    var key := DerivedKey(prf, SALT_ROUNDS, Utf8.Encode(password), salt, SHA512_OUTPUT_LEN);
    OneBlockKey(prf, SALT_ROUNDS, Utf8.Encode(password), salt);
    Base64.EncodeSixtyFour(salt);
    Base64.EncodeSixtyFour(key);
  }

  /** Re-hashing a password with the salt a hash of it carries reproduces
      that hash: the stored salt decodes, and the derivation is a function
      of password and salt alone. */
  lemma {:induction false} RehashReproducesHash(prf: HmacSha512, salt: seq<byte>, password: string)
    ensures var h := HashWith(prf, salt, password);
      Base64.Decode(h.salt).Some? && HashWith(prf, Base64.Decode(h.salt).value, password) == h
  {
    Base64.DecodeEncode(salt);
  }

  /** The composition of the two hashing operations: re-hashing with the
      salt `hash_password` chose gives the hash it produced. */
  method RehashMatchesFreshHash(prf: HmacSha512, rng: SystemRandom, password: string)
    returns (first: HashResult, again: HashResult)
    requires |rng.entropy| >= SHA512_OUTPUT_LEN
    modifies rng
    ensures again == first
  {
    first := HashPassword(prf, rng, password);
    RehashReproducesHash(prf, old(rng.entropy)[..SHA512_OUTPUT_LEN], password);
    again := HashPasswordWithExistingSalt(prf, password, first.salt);
  }

  // ---------------------------------------------------------------------
  // Token generation

  /** How `join_all` reports one spawned token task. */
  datatype TaskResult = Finished(token: string) | Panicked

  /** The panic error of a task; never returned by the generator. */
  datatype TaskJoinError = TaskJoinError

  /** Task `k` (counting from 0) fills its 64 bytes from the stream after
      the first `k` tasks' bytes, or panics when the stream is short. */
  function TaskOutcome(entropy: seq<byte>, k: nat): (r: TaskResult)
  {
    if SHA512_OUTPUT_LEN * (k + 1) <= |entropy|
    then Finished(Base64.Encode(entropy[SHA512_OUTPUT_LEN * k..SHA512_OUTPUT_LEN * (k + 1)]))
    else Panicked
  }

  /** The results of tasks 0 .. amount-1, in spawn order. */
  function TaskOutcomes(entropy: seq<byte>, amount: nat): (r: seq<TaskResult>)
    ensures |r| == amount && forall k :: 0 <= k < amount ==> r[k] == TaskOutcome(entropy, k)
  {
    seq(amount, k requires 0 <= k => TaskOutcome(entropy, k))
  }

  /** How many tasks the stream can serve before it runs short. */
  function Served(available: nat, amount: nat): (n: nat)
    ensures n <= amount && SHA512_OUTPUT_LEN * n <= available
  {
    if amount <= available / SHA512_OUTPUT_LEN then amount else available / SHA512_OUTPUT_LEN
  }

  /** A finished task's token, or "" for a panicked one. */
  function TokenOf(t: TaskResult): (s: string)
  {
    match t
    case Finished(s) => s
    case Panicked => ""
  }

  /** The `map(...).rev().collect()` over the joined results: the tokens of
      the tasks in reverse spawn order. */
  function Collect(results: seq<TaskResult>): (r: seq<string>)
    ensures |r| == |results|
    ensures forall k :: 0 <= k < |r| ==> r[k] == TokenOf(results[|results| - 1 - k])
  {
    if results == [] then [] else Collect(results[1..]) + [TokenOf(results[0])]
  }

  lemma ServedStep(available: nat, i: nat)
    ensures var s := Served(available, i);
      (SHA512_OUTPUT_LEN <= available - SHA512_OUTPUT_LEN * s) == (s == i && SHA512_OUTPUT_LEN * (i + 1) <= available)
    ensures Served(available, i + 1) ==
      if SHA512_OUTPUT_LEN * (i + 1) <= available then i + 1 else Served(available, i)
  {
  }

  /** `generate_multiple_random_token_with_rng`: spawns `amount` tasks that
      each Base64-encode 64 random bytes, joins them, and returns their
      tokens in reverse order, "" standing for a task that panicked. */
  method GenerateMultipleRandomTokens(rng: SystemRandom, amount: nat)
    returns (r: Result<seq<string>, TaskJoinError>)
    requires amount < 256
    modifies rng
    ensures r == Ok(Collect(TaskOutcomes(old(rng.entropy), amount)))
    ensures rng.entropy == old(rng.entropy)[SHA512_OUTPUT_LEN * Served(|old(rng.entropy)|, amount)..]
  {
    ghost var e := rng.entropy;
    var tokens: seq<TaskResult> := [];
    for i := 0 to amount
      invariant |tokens| == i
      invariant forall k :: 0 <= k < i ==> tokens[k] == TaskOutcome(e, k)
      invariant rng.entropy == e[SHA512_OUTPUT_LEN * Served(|e|, i)..]
    {
      ServedStep(|e|, i);
      var tokenArr := new byte[SHA512_OUTPUT_LEN](_ => 0);
      var filled := rng.Fill(tokenArr);
      var outcome := if filled then Finished(Base64.Encode(tokenArr[..])) else Panicked;
      if filled {
        assert tokenArr[..] == e[SHA512_OUTPUT_LEN * i..SHA512_OUTPUT_LEN * (i + 1)];
      }
      tokens := tokens + [outcome];
    }
    assert tokens == TaskOutcomes(e, amount);
    r := Ok(Collect(tokens));
  }

  /** A generated token: "" from a panicked task, or the Base64 encoding
      of 64 bytes, that is 88 characters that decode to 64 bytes and are
      exactly their encoding. */
  predicate TokenText(t: string)
  {
    t == "" || (|t| == 88 && Base64.Decode(t).Some? && |Base64.Decode(t).value| == SHA512_OUTPUT_LEN
                && Base64.Encode(Base64.Decode(t).value) == t)
  }

  /** One task's token is "" or the Base64 encoding of 64 bytes. */
  lemma TaskTokenShape(entropy: seq<byte>, j: nat)
    ensures TokenText(TokenOf(TaskOutcome(entropy, j)))
  {
    if SHA512_OUTPUT_LEN * (j + 1) <= |entropy| {
      Base64.EncodeSixtyFour(entropy[SHA512_OUTPUT_LEN * j..SHA512_OUTPUT_LEN * (j + 1)]);
    }
  }

  /** The generator returns exactly `amount` tokens; each is "" or the
      Base64 encoding of 64 bytes, 88 characters long. */
  lemma TokensShape(entropy: seq<byte>, amount: nat)
    ensures var ts := Collect(TaskOutcomes(entropy, amount));
      && |ts| == amount
      && forall k :: 0 <= k < amount ==> TokenText(ts[k])
  {
    var os := TaskOutcomes(entropy, amount);
    var ts := Collect(os);
    forall k | 0 <= k < amount
      ensures TokenText(ts[k])
    {
      var j := amount - 1 - k;
      assert ts[k] == TokenOf(TaskOutcome(entropy, j));
      TaskTokenShape(entropy, j);
    }
  }

  /** With enough entropy for every task, no token is empty and the k-th
      token encodes the bytes drawn by task amount-1-k. */
  lemma TokensWhenEntropySuffices(entropy: seq<byte>, amount: nat, k: nat)
    requires SHA512_OUTPUT_LEN * amount <= |entropy| && k < amount
    ensures var j := amount - 1 - k;
      Collect(TaskOutcomes(entropy, amount))[k] ==
        Base64.Encode(entropy[SHA512_OUTPUT_LEN * j..SHA512_OUTPUT_LEN * (j + 1)])
    ensures Collect(TaskOutcomes(entropy, amount))[k] != ""
  {
    var j := amount - 1 - k;
    var block := entropy[SHA512_OUTPUT_LEN * j..SHA512_OUTPUT_LEN * (j + 1)];
    Base64.EncodeSixtyFour(block);
  }
}
