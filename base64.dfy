/** The Base64 encoding of section 4 of RFC 4648, with `=` padding,
    modelled on the padded `BASE64` encoding of the `data_encoding` crate.
    The encoder pads only the last group. The decoder takes the input as a
    whole number of four-character groups and checks each group on its own:
    a group may end in one or two padding characters, and then the low bits
    it does not use must be zero. A padded group may therefore be followed
    by more groups ("AA==AA==" decodes to two zero bytes), and such text is
    not the encoding of what it decodes to. */
module Base64 {
  import opened Wrappers
  import opened Bytes

  // Small facts about sequences, kept apart so that the proofs below need
  // not rediscover them.

  lemma Prefix1<T>(s: seq<T>)
    requires |s| >= 1
    ensures s[..1] == [s[0]]
  {
  }

  lemma Prefix2<T>(s: seq<T>)
    requires |s| >= 2
    ensures s[..2] == [s[0], s[1]]
  {
  }

  lemma SplitThree<T>(b: seq<T>)
    requires |b| >= 3
    ensures b == [b[0], b[1], b[2]] + b[3..]
  {
  }

  lemma SplitFour<T>(s: seq<T>)
    requires |s| >= 4
    ensures s == [s[0], s[1], s[2], s[3]] + s[4..]
  {
  }

  lemma ConcatThree<T>(g: seq<T>, rest: seq<T>)
    requires |g| == 3
    ensures var b := g + rest; b[0] == g[0] && b[1] == g[1] && b[2] == g[2] && b[3..] == rest
  {
  }

  lemma ConcatFour<T>(e: seq<T>, t: seq<T>)
    requires |e| == 4
    ensures var s := e + t; s[0] == e[0] && s[1] == e[1] && s[2] == e[2] && s[3] == e[3] && s[4..] == t
  {
  }

  /** The character that stands for the six-bit value `v` (Table 1 of
      RFC 4648). */
  function Digit(v: nat): (c: char)
    requires v < 64
  {
    (if v < 26 then v + 65 else if v < 52 then v + 71 else if v < 62 then v - 4 else if v == 62 then 43 else 47) as char
  }

  /** The six-bit value of an alphabet character; `None` for any other
      character, the padding character among them. */
  function Value(c: char): (r: Option<nat>)
    ensures r.Some? ==> r.value < 64
  {
    var n := c as int;
    if 65 <= n <= 90 then Some(n - 65)
    else if 97 <= n <= 122 then Some(n - 71)
    else if 48 <= n <= 57 then Some(n + 4)
    else if n == 43 then Some(62)
    else if n == 47 then Some(63)
    else None
  }

  lemma ValueOfDigit(v: nat)
    requires v < 64
    ensures Value(Digit(v)) == Some(v)
  {
  }

  lemma DigitOfValue(c: char)
    requires Value(c).Some?
    ensures Digit(Value(c).value) == c
  {
  }

  const Pad: char := '='

  /** Three bytes become four digits. */
  function EncodeGroup(x: byte, y: byte, z: byte): (s: string)
    ensures |s| == 4
  {
    [Digit(x / 4), Digit((x % 4) * 16 + y / 16), Digit((y % 16) * 4 + z / 64), Digit(z % 64)]
  }

  /** A final group of one byte: two digits and two padding characters. */
  function EncodeOne(x: byte): (s: string)
    ensures |s| == 4
  {
    [Digit(x / 4), Digit((x % 4) * 16), Pad, Pad]
  }

  /** A final group of two bytes: three digits and one padding character. */
  function EncodeTwo(x: byte, y: byte): (s: string)
    ensures |s| == 4
  {
    [Digit(x / 4), Digit((x % 4) * 16 + y / 16), Digit((y % 16) * 4), Pad]
  }

  /** Encodes `b`, three bytes at a time; a final group of one or two bytes
      is padded with `=` to four characters. */
  function Encode(b: seq<byte>): (s: string)
    ensures |s| % 4 == 0
    decreases |b|
  {
    if |b| == 0 then []
    else if |b| == 1 then EncodeOne(b[0])
    else if |b| == 2 then EncodeTwo(b[0], b[1])
    else EncodeGroup(b[0], b[1], b[2]) + Encode(b[3..])
  }

  /** Four six-bit values become three bytes. */
  function Join(v0: nat, v1: nat, v2: nat, v3: nat): (r: seq<byte>)
    requires v0 < 64 && v1 < 64 && v2 < 64 && v3 < 64
    ensures |r| == 3
  {
    [v0 * 4 + v1 / 16, (v1 % 16) * 16 + v2 / 4, (v2 % 4) * 64 + v3]
  }

  /** A group of four alphabet characters. */
  function DecodeFull(c0: char, c1: char, c2: char, c3: char): (r: Option<seq<byte>>)
    ensures r.Some? ==> |r.value| == 3
  {
    var v0, v1, v2, v3 := Value(c0), Value(c1), Value(c2), Value(c3);
    if v0.Some? && v1.Some? && v2.Some? && v3.Some? then Some(Join(v0.value, v1.value, v2.value, v3.value))
    else None
  }

  /** One group, which may end in one or two padding characters; the bits
      a padded group does not use must be zero. */
  function DecodeBlock(c0: char, c1: char, c2: char, c3: char): (r: Option<seq<byte>>)
    ensures r.Some? ==> 1 <= |r.value| <= 3
  {
    var v0, v1, v2 := Value(c0), Value(c1), Value(c2);
    if c3 != Pad then DecodeFull(c0, c1, c2, c3)
    else if c2 != Pad then
      if v0.Some? && v1.Some? && v2.Some? && v2.value % 4 == 0
      then Some(Join(v0.value, v1.value, v2.value, 0)[..2]) else None
    else
      if v0.Some? && v1.Some? && v1.value % 16 == 0
      then Some(Join(v0.value, v1.value, 0, 0)[..1]) else None
  }

  /** Decodes `s` group by group; `None` when its length is not a multiple
      of four or some group does not decode. Each group gives one to three
      bytes. */
  function Decode(s: string): (r: Option<seq<byte>>)
    ensures r.Some? ==> |s| % 4 == 0 && |s| / 4 <= |r.value| <= 3 * (|s| / 4)
    decreases |s|
  {
    if |s| % 4 != 0 then None
    else if |s| == 0 then Some([])
    else if |s| == 4 then DecodeBlock(s[0], s[1], s[2], s[3])
    else
      var group, rest := DecodeBlock(s[0], s[1], s[2], s[3]), Decode(s[4..]);
      if group.Some? && rest.Some? then Some(group.value + rest.value) else None
  }

  /** Four characters for every started group of three bytes. */
  lemma {:induction false} EncodedLength(b: seq<byte>)
    ensures |Encode(b)| == 4 * ((|b| + 2) / 3)
  {
    if |b| > 2 {
      EncodedLength(b[3..]);
    }
  }

  /** Encodings come in whole groups of four, and only the empty input
      encodes to nothing. */
  lemma {:induction false} EncodedGroups(b: seq<byte>)
    ensures |Encode(b)| % 4 == 0
    ensures |b| > 0 ==> |Encode(b)| > 0
    decreases |b|
  {
    if |b| > 2 {
      EncodedGroups(b[3..]);
    }
  }

  lemma JoinGroup(x: byte, y: byte, z: byte)
    ensures Join(x / 4, (x % 4) * 16 + y / 16, (y % 16) * 4 + z / 64, z % 64) == [x, y, z]
  {
    var v1, v2 := (x % 4) * 16 + y / 16, (y % 16) * 4 + z / 64;
    assert v1 / 16 == x % 4 && v1 % 16 == y / 16;
    assert v2 / 4 == y % 16 && v2 % 4 == z / 64;
  }

  lemma GroupOfJoin(v0: nat, v1: nat, v2: nat, v3: nat)
    requires v0 < 64 && v1 < 64 && v2 < 64 && v3 < 64
    ensures var j := Join(v0, v1, v2, v3);
      j[0] / 4 == v0 && (j[0] % 4) * 16 + j[1] / 16 == v1 &&
      (j[1] % 16) * 4 + j[2] / 64 == v2 && j[2] % 64 == v3
  {
  }

  lemma DecodeGroup(x: byte, y: byte, z: byte)
    ensures var e := EncodeGroup(x, y, z);
      DecodeBlock(e[0], e[1], e[2], e[3]) == Some([x, y, z])
  {
    DigitNotPad(z % 64);
    ValueOfDigit(x / 4);
    ValueOfDigit((x % 4) * 16 + y / 16);
    ValueOfDigit((y % 16) * 4 + z / 64);
    ValueOfDigit(z % 64);
    JoinGroup(x, y, z);
  }

  lemma EncodeUnfold(b: seq<byte>)
    requires |b| > 2
    ensures Encode(b) == EncodeGroup(b[0], b[1], b[2]) + Encode(b[3..])
  {
  }

  lemma DecodeUnfold(s: string)
    requires |s| > 4 && |s| % 4 == 0
    ensures var group, rest := DecodeBlock(s[0], s[1], s[2], s[3]), Decode(s[4..]);
      Decode(s) == if group.Some? && rest.Some? then Some(group.value + rest.value) else None
  {
  }

  lemma DigitNotPad(v: nat)
    requires v < 64
    ensures Digit(v) != Pad
  {
  }

  lemma DecodeEncodeOne(x: byte)
    ensures Decode(Encode([x])) == Some([x])
  {
    var v0, v1 := x / 4, (x % 4) * 16;
    ValueOfDigit(v0);
    ValueOfDigit(v1);
    var s := Encode([x]);
    assert s == EncodeOne(x);
    var j := Join(v0, v1, 0, 0);
    assert j[0] == x;
    Prefix1(j);
    assert DecodeBlock(s[0], s[1], s[2], s[3]) == Some([x]);
  }

  lemma DecodeEncodeTwo(x: byte, y: byte)
    ensures Decode(Encode([x, y])) == Some([x, y])
  {
    var v0, v1, v2 := x / 4, (x % 4) * 16 + y / 16, (y % 16) * 4;
    ValueOfDigit(v0);
    ValueOfDigit(v1);
    ValueOfDigit(v2);
    DigitNotPad(v2);
    var s := Encode([x, y]);
    assert s == EncodeTwo(x, y);
    var j := Join(v0, v1, v2, 0);
    assert j[0] == x && j[1] == y;
    Prefix2(j);
    assert DecodeBlock(s[0], s[1], s[2], s[3]) == Some([x, y]);
  }

  lemma DecodeSplit(s: string)
    requires |s| > 4 && Decode(s).Some?
    ensures DecodeBlock(s[0], s[1], s[2], s[3]).Some? && Decode(s[4..]).Some?
    ensures Decode(s).value == DecodeBlock(s[0], s[1], s[2], s[3]).value + Decode(s[4..]).value
  {
    DecodeUnfold(s);
  }

  lemma DecodeEncodeThree(x: byte, y: byte, z: byte)
    ensures Decode(Encode([x, y, z])) == Some([x, y, z])
  {
    EncodeUnfold([x, y, z]);
    assert [x, y, z][3..] == [];
    var s := EncodeGroup(x, y, z);
    assert Encode([x, y, z]) == s;
    ValueOfDigit(z % 64);
    assert s[3] != Pad;
    DecodeGroup(x, y, z);
  }

  /** Decoding a group in front of a decodable string. */
  lemma DecodeConcat(e: string, t: string)
    requires |e| == 4 && |t| > 0 && |t| % 4 == 0
    requires DecodeBlock(e[0], e[1], e[2], e[3]).Some? && Decode(t).Some?
    ensures Decode(e + t) == Some(DecodeBlock(e[0], e[1], e[2], e[3]).value + Decode(t).value)
  {
    var s := e + t;
    ConcatFour(e, t);
    GroupAdded(|t|);
    DecodeUnfold(s);
  }

  lemma GroupAdded(n: nat)
    requires n % 4 == 0
    ensures (n + 4) % 4 == 0
  {
  }

  /** A group of three bytes in front of a decodable tail. */
  lemma DecodeGroupThenTail(x: byte, y: byte, z: byte, t: string)
    requires |t| > 0 && |t| % 4 == 0 && Decode(t).Some?
    ensures Decode(EncodeGroup(x, y, z) + t) == Some([x, y, z] + Decode(t).value)
  {
    DecodeGroup(x, y, z);
    DecodeConcat(EncodeGroup(x, y, z), t);
  }

  /** One step of the round-trip proof: a full group of three bytes in
      front of a tail that already round-trips. */
  lemma DecodeEncodeStep(b: seq<byte>)
    requires |b| > 3
    requires Decode(Encode(b[3..])) == Some(b[3..])
    ensures Decode(Encode(b)) == Some(b)
  {
    var rest := b[3..];
    var t := Encode(rest);
    var e := EncodeGroup(b[0], b[1], b[2]);
    EncodeUnfold(b);
    assert Encode(b) == e + t;
    EncodedGroups(rest);
    DecodeGroupThenTail(b[0], b[1], b[2], t);
    assert Decode(e + t) == Some([b[0], b[1], b[2]] + rest);
    SplitThree(b);
  }

  /** Decoding undoes encoding, for every byte string. */
  lemma {:induction false} DecodeEncode(b: seq<byte>)
    ensures Decode(Encode(b)) == Some(b)
    decreases |b|
  {
    if |b| == 1 {
      assert b == [b[0]];
      DecodeEncodeOne(b[0]);
    } else if |b| == 2 {
      assert b == [b[0], b[1]];
      DecodeEncodeTwo(b[0], b[1]);
    } else if |b| == 3 {
      assert b == [b[0], b[1], b[2]];
      DecodeEncodeThree(b[0], b[1], b[2]);
    } else if |b| > 3 {
      DecodeEncode(b[3..]);
      DecodeEncodeStep(b);
    }
  }

  lemma EncodeFull(c0: char, c1: char, c2: char, c3: char)
    requires DecodeFull(c0, c1, c2, c3).Some?
    ensures var b := DecodeFull(c0, c1, c2, c3).value;
      EncodeGroup(b[0], b[1], b[2]) == [c0, c1, c2, c3]
  {
    DigitOfValue(c0);
    DigitOfValue(c1);
    DigitOfValue(c2);
    DigitOfValue(c3);
    GroupOfJoin(Value(c0).value, Value(c1).value, Value(c2).value, Value(c3).value);
  }

  lemma EncodeLastFull(c0: char, c1: char, c2: char, c3: char)
    requires DecodeFull(c0, c1, c2, c3).Some?
    ensures Encode(DecodeFull(c0, c1, c2, c3).value) == [c0, c1, c2, c3]
  {
    var b := DecodeFull(c0, c1, c2, c3).value;
    EncodeFull(c0, c1, c2, c3);
    EncodeUnfold(b);
    assert b[3..] == [];
  }

  lemma EncodeLastTwo(c0: char, c1: char, c2: char)
    requires DecodeBlock(c0, c1, c2, Pad).Some? && c2 != Pad
    ensures Encode(DecodeBlock(c0, c1, c2, Pad).value) == [c0, c1, c2, Pad]
  {
    var v0, v1, v2 := Value(c0).value, Value(c1).value, Value(c2).value;
    var j := Join(v0, v1, v2, 0);
    var b := DecodeBlock(c0, c1, c2, Pad).value;
    assert b == j[..2];
    DigitOfValue(c0);
    DigitOfValue(c1);
    DigitOfValue(c2);
    GroupOfJoin(v0, v1, v2, 0);
    assert Encode(b) == EncodeTwo(j[0], j[1]);
  }

  lemma EncodeLastOne(c0: char, c1: char)
    requires DecodeBlock(c0, c1, Pad, Pad).Some?
    ensures Encode(DecodeBlock(c0, c1, Pad, Pad).value) == [c0, c1, Pad, Pad]
  {
    var v0, v1 := Value(c0).value, Value(c1).value;
    var j := Join(v0, v1, 0, 0);
    var b := DecodeBlock(c0, c1, Pad, Pad).value;
    assert b == j[..1];
    DigitOfValue(c0);
    DigitOfValue(c1);
    GroupOfJoin(v0, v1, 0, 0);
    assert Encode(b) == EncodeOne(j[0]);
  }

  lemma EncodeLast(c0: char, c1: char, c2: char, c3: char)
    requires DecodeBlock(c0, c1, c2, c3).Some?
    ensures Encode(DecodeBlock(c0, c1, c2, c3).value) == [c0, c1, c2, c3]
  {
    if c3 != Pad {
      EncodeLastFull(c0, c1, c2, c3);
    } else if c2 != Pad {
      EncodeLastTwo(c0, c1, c2);
    } else {
      EncodeLastOne(c0, c1);
    }
  }

  /** Padding occurs only in the last group, where the encoder puts it. */
  predicate Canonical(s: string)
  {
    forall i :: 0 <= i < |s| - 4 ==> s[i] != Pad
  }

  /** Every encoding is canonical. */
  lemma {:induction false} EncodeCanonical(b: seq<byte>)
    ensures Canonical(Encode(b))
    decreases |b|
  {
    if |b| > 2 {
      var e, t := EncodeGroup(b[0], b[1], b[2]), Encode(b[3..]);
      EncodeUnfold(b);
      EncodeCanonical(b[3..]);
      DigitNotPad(b[0] / 4);
      DigitNotPad((b[0] % 4) * 16 + b[1] / 16);
      DigitNotPad((b[1] % 16) * 4 + b[2] / 64);
      DigitNotPad(b[2] % 64);
      forall i | 0 <= i < |e + t| - 4
        ensures (e + t)[i] != Pad
      {
        if i >= 4 {
          assert (e + t)[i] == t[i - 4];
        }
      }
    }
  }

  /** One step of the canonicity proof: an unpadded group in front of a
      string that already re-encodes to itself. */
  lemma EncodeDecodeStep(s: string)
    requires |s| > 4 && Decode(s).Some? && s[3] != Pad
    requires Encode(Decode(s[4..]).value) == s[4..]
    ensures Encode(Decode(s).value) == s
  {
    DecodeSplit(s);
    var g := DecodeFull(s[0], s[1], s[2], s[3]).value;
    var rest := Decode(s[4..]).value;
    EncodeFull(s[0], s[1], s[2], s[3]);
    var b := g + rest;
    ConcatThree(g, rest);
    EncodeUnfold(b);
    assert Encode(b) == [s[0], s[1], s[2], s[3]] + s[4..];
    SplitFour(s);
  }

  lemma EncodeDecodeBlock(s: string)
    requires |s| == 4 && Decode(s).Some?
    ensures Encode(Decode(s).value) == s
  {
    EncodeLast(s[0], s[1], s[2], s[3]);
    assert s == [s[0], s[1], s[2], s[3]];
  }

  lemma CanonicalTail(s: string)
    requires |s| >= 8 && Canonical(s)
    ensures Canonical(s[4..]) && s[3] != Pad
  {
    forall i | 0 <= i < |s[4..]| - 4
      ensures s[4..][i] != Pad
    {
      assert s[4..][i] == s[i + 4];
    }
  }

  /** Re-encoding the bytes a text decodes to gives that text back exactly
      when the text is canonical: padding inside the text is lost. */
  lemma {:induction false} EncodeDecode(s: string)
    requires Decode(s).Some?
    ensures Encode(Decode(s).value) == s <==> Canonical(s)
    decreases |s|
  {
    if |s| == 4 {
      EncodeDecodeBlock(s);
    } else if |s| > 4 {
      EncodeCanonical(Decode(s).value);
      if Canonical(s) {
        assert |s| % 4 == 0;
        DecodeSplit(s);
        CanonicalTail(s);
        EncodeDecode(s[4..]);
        EncodeDecodeStep(s);
      }
    }
  }

  /** The decoder reads encodings written one after the other as the
      encoding of the joined bytes, padded groups in the middle included. */
  lemma {:induction false} DecodeConcatenated(a: seq<byte>, b: seq<byte>)
    ensures Decode(Encode(a) + Encode(b)) == Some(a + b)
    decreases |a|
  {
    if |a| == 0 {
      DecodeEncode(b);
      assert Encode(a) + Encode(b) == Encode(b) && a + b == b;
    } else if |a| <= 2 {
      DecodeConcatenatedShort(a, b);
    } else {
      DecodeConcatenated(a[3..], b);
      DecodeConcatenatedStep(a, b);
    }
  }

  lemma DecodeConcatenatedShort(a: seq<byte>, b: seq<byte>)
    requires 1 <= |a| <= 2
    ensures Decode(Encode(a) + Encode(b)) == Some(a + b)
  {
    var e, t := Encode(a), Encode(b);
    DecodeEncode(a);
    EncodedLength(a);
    if b == [] {
      assert e + t == e && a + b == a;
    } else {
      DecodeEncode(b);
      EncodedGroups(b);
      DecodeConcat(e, t);
    }
  }

  lemma DecodeConcatenatedStep(a: seq<byte>, b: seq<byte>)
    requires |a| >= 3
    requires Decode(Encode(a[3..]) + Encode(b)) == Some(a[3..] + b)
    ensures Decode(Encode(a) + Encode(b)) == Some(a + b)
  {
    if a[3..] == [] && b == [] {
      assert a == [a[0], a[1], a[2]];
      DecodeEncodeThree(a[0], a[1], a[2]);
      assert Encode(a) + Encode(b) == Encode(a);
      assert a + b == a;
    } else {
      DecodeGroupThenTailOf(a, b);
    }
  }

  lemma DecodeGroupThenTailOf(a: seq<byte>, b: seq<byte>)
    requires |a| >= 3 && (a[3..] != [] || b != [])
    requires Decode(Encode(a[3..]) + Encode(b)) == Some(a[3..] + b)
    ensures Decode(Encode(a) + Encode(b)) == Some(a + b)
  {
    DecodeGroupThenEncodings(a, b);
    EncodeUnfoldThenTail(a, b);
    SplitThreeThenTail(a, b);
  }

  lemma DecodeGroupThenEncodings(a: seq<byte>, b: seq<byte>)
    requires |a| >= 3 && (a[3..] != [] || b != [])
    requires Decode(Encode(a[3..]) + Encode(b)) == Some(a[3..] + b)
    ensures Decode(EncodeGroup(a[0], a[1], a[2]) + (Encode(a[3..]) + Encode(b))) ==
      Some([a[0], a[1], a[2]] + (a[3..] + b))
  {
    EncodedGroups(a[3..]);
    EncodedGroups(b);
    DecodeGroupThenTail(a[0], a[1], a[2], Encode(a[3..]) + Encode(b));
  }

  lemma EncodeUnfoldThenTail(a: seq<byte>, b: seq<byte>)
    requires |a| >= 3
    ensures Encode(a) + Encode(b) == EncodeGroup(a[0], a[1], a[2]) + (Encode(a[3..]) + Encode(b))
  {
    EncodeUnfold(a);
  }

  lemma SplitThreeThenTail<T>(a: seq<T>, b: seq<T>)
    requires |a| >= 3
    ensures a + b == [a[0], a[1], a[2]] + (a[3..] + b)
  {
    SplitThree(a);
  }

  /** The encoding of a byte string whose length is not a multiple of three
      ends in padding. */
  lemma {:induction false} EncodeEndsInPad(a: seq<byte>)
    requires |a| % 3 != 0
    ensures |Encode(a)| >= 4 && Encode(a)[|Encode(a)| - 1] == Pad
    decreases |a|
  {
    if |a| > 2 {
      EncodeUnfold(a);
      EncodeEndsInPad(a[3..]);
    }
  }

  /** A 64-byte string (a salt, a digest, a random token) encodes to 88
      characters and decodes back. */
  lemma EncodeSixtyFour(b: seq<byte>)
    requires |b| == 64
    ensures |Encode(b)| == 88 && Decode(Encode(b)) == Some(b)
  {
    EncodedLength(b);
    assert 4 * ((|b| + 2) / 3) == 88;
    DecodeEncode(b);
  }
}
