/** Base64 as defined in section 4 of RFC 4648: the standard alphabet, every
    3 input bytes become 4 characters, and a final group of 1 or 2 bytes is
    padded with `=` to 4 characters. Characters are handled as their ASCII
    byte values, as the encoder returns them. Decoding is strict: the length
    must be a multiple of 4, padding may only end the last group, and the
    bits that padding discards must be zero (section 3.5), so that every
    accepted string is the encoding of exactly one byte sequence. */
module Base64 {
  import opened Ints
  import opened Wrappers

  const PAD: byte := 0x3D  // '='

  /** The character for a 6-bit value: A-Z, a-z, 0-9, '+', '/'. */
  function Char(i: int): (c: byte)
    requires 0 <= i < 64
    ensures c != PAD && c < 0x80 && IsAlphabet(c)
  {
    if i < 26 then 0x41 + i
    else if i < 52 then 0x61 + (i - 26)
    else if i < 62 then 0x30 + (i - 52)
    else if i == 62 then 0x2B
    else 0x2F
  }

  predicate IsAlphabet(c: byte) {
    (0x41 <= c <= 0x5A) || (0x61 <= c <= 0x7A) || (0x30 <= c <= 0x39) || c == 0x2B || c == 0x2F
  }

  /** The 6-bit value of an alphabet character. */
  function Index(c: byte): (i: int)
    requires IsAlphabet(c)
    ensures 0 <= i < 64
  {
    if c >= 0x61 then c - 0x61 + 26
    else if c >= 0x41 then c - 0x41
    else if c >= 0x30 then c - 0x30 + 52
    else if c == 0x2B then 62
    else 63
  }

  lemma CharOfIndex(c: byte)
    requires IsAlphabet(c)
    ensures Char(Index(c)) == c
  {
  }

  lemma IndexOfChar(i: int)
    requires 0 <= i < 64
    ensures IsAlphabet(Char(i)) && Index(Char(i)) == i
  {
  }

  // The 6-bit digits of a 3-byte group a b c, most significant first.
  function Digit0(a: byte): (d: int) ensures 0 <= d < 64 { a / 4 }
  function Digit1(a: byte, b: byte): (d: int) ensures 0 <= d < 64 { a % 4 * 16 + b / 16 }
  function Digit2(b: byte, c: byte): (d: int) ensures 0 <= d < 64 { b % 16 * 4 + c / 64 }
  function Digit3(c: byte): (d: int) ensures 0 <= d < 64 { c % 64 }

  // The bytes of a group of four 6-bit digits d0 d1 d2 d3.
  function Byte0(d0: int, d1: int): byte requires 0 <= d0 < 64 && 0 <= d1 < 64 { d0 * 4 + d1 / 16 }
  function Byte1(d1: int, d2: int): byte requires 0 <= d1 < 64 && 0 <= d2 < 64 { d1 % 16 * 16 + d2 / 4 }
  function Byte2(d2: int, d3: int): byte requires 0 <= d2 < 64 && 0 <= d3 < 64 { d2 % 4 * 64 + d3 }

  function EncodeTriple(a: byte, b: byte, c: byte): seq<byte> {
    [Char(Digit0(a)), Char(Digit1(a, b)), Char(Digit2(b, c)), Char(Digit3(c))]
  }

  function EncodePair(a: byte, b: byte): seq<byte> {
    [Char(Digit0(a)), Char(Digit1(a, b)), Char(Digit2(b, 0)), PAD]
  }

  function EncodeSingle(a: byte): seq<byte> {
    [Char(Digit0(a)), Char(Digit1(a, 0)), PAD, PAD]
  }

  /** `base64::encode`. */
  function Encode(bs: seq<byte>): seq<byte>
    decreases |bs|
  {
    if |bs| == 0 then []
    else if |bs| == 1 then EncodeSingle(bs[0])
    else if |bs| == 2 then EncodePair(bs[0], bs[1])
    else EncodeTriple(bs[0], bs[1], bs[2]) + Encode(bs[3..])
  }

  /** Characters from the alphabet, then at most two that are alphabet or
      padding. */
  predicate PaddedAlphabet(s: seq<byte>) {
    (forall i :: 0 <= i < |s| ==> IsAlphabet(s[i]) || s[i] == PAD) &&
    (forall i :: 0 <= i < |s| - 2 ==> IsAlphabet(s[i]))
  }

  lemma PaddedAlphabetCons(q: seq<byte>, r: seq<byte>)
    requires |q| == 4 && IsAlphabet(q[0]) && IsAlphabet(q[1]) && IsAlphabet(q[2]) && IsAlphabet(q[3])
    requires PaddedAlphabet(r)
    ensures PaddedAlphabet(q + r)
  {
    forall i | 0 <= i < |q + r| ensures IsAlphabet((q + r)[i]) || (q + r)[i] == PAD {
      if i >= 4 {
        assert (q + r)[i] == r[i - 4];
      }
    }
    forall i | 0 <= i < |q + r| - 2 ensures IsAlphabet((q + r)[i]) {
      if i >= 4 {
        assert (q + r)[i] == r[i - 4];
      }
    }
  }

  lemma {:induction false} EncodeLength(bs: seq<byte>)
    ensures |Encode(bs)| == 4 * ((|bs| + 2) / 3)
    decreases |bs|
  {
    if |bs| >= 3 {
      var tail := bs[3..];
      EncodeLength(tail);
      assert |Encode(bs)| == 4 + |Encode(tail)|;
      assert (|bs| + 2) / 3 == (|tail| + 2) / 3 + 1;
    }
  }

  lemma {:induction false} EncodeAlphabet(bs: seq<byte>)
    ensures PaddedAlphabet(Encode(bs))
    decreases |bs|
  {
    if |bs| >= 3 {
      var tail := bs[3..];
      EncodeAlphabet(tail);
      var q := EncodeTriple(bs[0], bs[1], bs[2]);
      assert Encode(bs) == q + Encode(tail);
      PaddedAlphabetCons(q, Encode(tail));
    }
  }

  /** The encoding has 4 characters for every started group of 3 bytes, all
      from the alphabet except for padding in the last two positions. */
  lemma EncodeShape(bs: seq<byte>)
    ensures |Encode(bs)| == 4 * ((|bs| + 2) / 3) && |Encode(bs)| % 4 == 0
    ensures PaddedAlphabet(Encode(bs))
  {
    EncodeLength(bs);
    EncodeAlphabet(bs);
    assert (4 * ((|bs| + 2) / 3)) % 4 == 0;
  }

  datatype DecodeError = InvalidLength | InvalidEncoding

  /** One group of 4 characters; padding is accepted only in the last group. */
  function DecodeQuad(q: seq<byte>, last: bool): Result<seq<byte>, DecodeError>
    requires |q| == 4
  {
    if !IsAlphabet(q[0]) || !IsAlphabet(q[1]) then Err(InvalidEncoding)
    else
      var d0, d1 := Index(q[0]), Index(q[1]);
      if q[2] == PAD then
        if last && q[3] == PAD && d1 % 16 == 0 then Ok([Byte0(d0, d1)])
        else Err(InvalidEncoding)
      else if !IsAlphabet(q[2]) then Err(InvalidEncoding)
      else
        var d2 := Index(q[2]);
        if q[3] == PAD then
          if last && d2 % 4 == 0 then Ok([Byte0(d0, d1), Byte1(d1, d2)])
          else Err(InvalidEncoding)
        else if !IsAlphabet(q[3]) then Err(InvalidEncoding)
        else Ok([Byte0(d0, d1), Byte1(d1, d2), Byte2(d2, Index(q[3]))])
  }

  /** The groups of a string, decoded in order; a short final group (which
      `Decode` rules out beforehand) is a length error. */
  function DecodeGroups(s: seq<byte>): Result<seq<byte>, DecodeError>
    decreases |s|
  {
    if |s| == 0 then Ok([])
    else if |s| < 4 then Err(InvalidLength)
    else match DecodeQuad(s[..4], |s| == 4)
      case Err(e) => Err(e)
      case Ok(head) =>
        match DecodeGroups(s[4..])
        case Err(e) => Err(e)
        case Ok(tail) => Ok(head + tail)
  }

  /** `base64::decode`. */
  function Decode(s: seq<byte>): Result<seq<byte>, DecodeError> {
    if |s| % 4 != 0 then Err(InvalidLength) else DecodeGroups(s)
  }

  lemma BytesOfDigits(a: byte, b: byte, c: byte)
    ensures Byte0(Digit0(a), Digit1(a, b)) == a
    ensures Byte1(Digit1(a, b), Digit2(b, c)) == b
    ensures Byte2(Digit2(b, c), Digit3(c)) == c
  {
  }

  /** Decoding four alphabet characters without padding. */
  lemma DecodeFull(e0: int, e1: int, e2: int, e3: int, last: bool)
    requires 0 <= e0 < 64 && 0 <= e1 < 64 && 0 <= e2 < 64 && 0 <= e3 < 64
    ensures DecodeQuad([Char(e0), Char(e1), Char(e2), Char(e3)], last)
      == Ok([Byte0(e0, e1), Byte1(e1, e2), Byte2(e2, e3)])
  {
    IndexOfChar(e0); IndexOfChar(e1); IndexOfChar(e2); IndexOfChar(e3);
  }

  lemma TripleRoundTrip(a: byte, b: byte, c: byte, last: bool)
    ensures DecodeQuad(EncodeTriple(a, b, c), last) == Ok([a, b, c])
  {
    DecodeFull(Digit0(a), Digit1(a, b), Digit2(b, c), Digit3(c), last);
    BytesOfDigits(a, b, c);
  }

  /** Decoding a last group with one padding character. */
  lemma DecodeOnePad(e0: int, e1: int, e2: int)
    requires 0 <= e0 < 64 && 0 <= e1 < 64 && 0 <= e2 < 64 && e2 % 4 == 0
    ensures DecodeQuad([Char(e0), Char(e1), Char(e2), PAD], true) == Ok([Byte0(e0, e1), Byte1(e1, e2)])
  {
    IndexOfChar(e0); IndexOfChar(e1); IndexOfChar(e2);
  }

  /** Decoding a last group with two padding characters. */
  lemma DecodeTwoPads(e0: int, e1: int)
    requires 0 <= e0 < 64 && 0 <= e1 < 64 && e1 % 16 == 0
    ensures DecodeQuad([Char(e0), Char(e1), PAD, PAD], true) == Ok([Byte0(e0, e1)])
  {
    IndexOfChar(e0); IndexOfChar(e1);
  }

  lemma PairRoundTrip(a: byte, b: byte)
    ensures DecodeQuad(EncodePair(a, b), true) == Ok([a, b])
  {
    DecodeOnePad(Digit0(a), Digit1(a, b), Digit2(b, 0));
    BytesOfDigits(a, b, 0);
  }

  lemma SingleRoundTrip(a: byte)
    ensures DecodeQuad(EncodeSingle(a), true) == Ok([a])
  {
    DecodeTwoPads(Digit0(a), Digit1(a, 0));
    BytesOfDigits(a, 0, 0);
  }

  /** `DecodeGroups` on a group followed by more groups. */
  lemma DecodeGroupsCons(s: seq<byte>, head: seq<byte>, tail: seq<byte>)
    requires |s| >= 4
    requires DecodeQuad(s[..4], |s| == 4) == Ok(head)
    requires DecodeGroups(s[4..]) == Ok(tail)
    ensures DecodeGroups(s) == Ok(head + tail)
  {
  }

  lemma SplitGroup(q: seq<byte>, rest: seq<byte>)
    requires |q| == 4
    ensures (q + rest)[..4] == q && (q + rest)[4..] == rest
  {
  }

  /** Decoding a group followed by a well-formed rest. */
  lemma DecodeAppend(q: seq<byte>, rest: seq<byte>, head: seq<byte>, tail: seq<byte>)
    requires |q| == 4
    requires DecodeQuad(q, |rest| == 0) == Ok(head)
    requires DecodeGroups(rest) == Ok(tail)
    ensures DecodeGroups(q + rest) == Ok(head + tail)
  {
    var s := q + rest;
    SplitGroup(q, rest);
    DecodeGroupsCons(s, head, tail);
  }

  lemma SplitThree(bs: seq<byte>)
    requires |bs| >= 3
    ensures bs == [bs[0], bs[1], bs[2]] + bs[3..]
  {
  }

  lemma DecodeEncodeSingle(a: byte)
    ensures DecodeGroups(EncodeSingle(a)) == Ok([a])
  {
    SingleRoundTrip(a);
    DecodeAppend(EncodeSingle(a), [], [a], []);
    assert EncodeSingle(a) + [] == EncodeSingle(a);
    assert [a] + [] == [a];
  }

  lemma DecodeEncodePair(a: byte, b: byte)
    ensures DecodeGroups(EncodePair(a, b)) == Ok([a, b])
  {
    PairRoundTrip(a, b);
    DecodeAppend(EncodePair(a, b), [], [a, b], []);
    assert EncodePair(a, b) + [] == EncodePair(a, b);
    assert [a, b] + [] == [a, b];
  }

  /** Decoding inverts encoding: no byte sequence is lost or altered. */
  lemma {:induction false} DecodeEncode(bs: seq<byte>)
    ensures Decode(Encode(bs)) == Ok(bs)
    decreases |bs|
  {
    EncodeShape(bs);
    if |bs| == 1 {
      DecodeEncodeSingle(bs[0]);
      assert bs == [bs[0]];
    } else if |bs| == 2 {
      DecodeEncodePair(bs[0], bs[1]);
      assert bs == [bs[0], bs[1]];
    } else if |bs| >= 3 {
      var tail := bs[3..];
      var rest := Encode(tail);
      EncodeShape(tail);
      DecodeEncode(tail);
      assert DecodeGroups(rest) == Ok(tail);
      TripleRoundTrip(bs[0], bs[1], bs[2], |rest| == 0);
      DecodeAppend(EncodeTriple(bs[0], bs[1], bs[2]), rest, [bs[0], bs[1], bs[2]], tail);
      SplitThree(bs);
    }
  }

  lemma DigitsOfBytes(e0: int, e1: int, e2: int, e3: int)
    requires 0 <= e0 < 64 && 0 <= e1 < 64 && 0 <= e2 < 64 && 0 <= e3 < 64
    ensures Digit0(Byte0(e0, e1)) == e0
    ensures Digit1(Byte0(e0, e1), Byte1(e1, e2)) == e1
    ensures Digit2(Byte1(e1, e2), Byte2(e2, e3)) == e2
    ensures Digit3(Byte2(e2, e3)) == e3
    ensures e1 % 16 == 0 ==> Digit1(Byte0(e0, e1), 0) == e1
    ensures e2 % 4 == 0 ==> Digit2(Byte1(e1, e2), 0) == e2
  {
  }

  lemma EncodeTripleOfBytes(e0: int, e1: int, e2: int, e3: int)
    requires 0 <= e0 < 64 && 0 <= e1 < 64 && 0 <= e2 < 64 && 0 <= e3 < 64
    ensures EncodeTriple(Byte0(e0, e1), Byte1(e1, e2), Byte2(e2, e3)) == [Char(e0), Char(e1), Char(e2), Char(e3)]
  {
    DigitsOfBytes(e0, e1, e2, e3);
  }

  lemma EncodePairOfBytes(e0: int, e1: int, e2: int)
    requires 0 <= e0 < 64 && 0 <= e1 < 64 && 0 <= e2 < 64 && e2 % 4 == 0
    ensures EncodePair(Byte0(e0, e1), Byte1(e1, e2)) == [Char(e0), Char(e1), Char(e2), PAD]
  {
    DigitsOfBytes(e0, e1, e2, 0);
  }

  lemma EncodeSingleOfBytes(e0: int, e1: int)
    requires 0 <= e0 < 64 && 0 <= e1 < 64 && e1 % 16 == 0
    ensures EncodeSingle(Byte0(e0, e1)) == [Char(e0), Char(e1), PAD, PAD]
  {
    DigitsOfBytes(e0, e1, 0, 0);
  }

  lemma QuadInverseSingle(q: seq<byte>, last: bool, head: seq<byte>)
    requires |q| == 4 && q[2] == PAD && DecodeQuad(q, last) == Ok(head)
    ensures |head| == 1 && last && EncodeSingle(head[0]) == q
  {
    var e0, e1 := Index(q[0]), Index(q[1]);
    assert head == [Byte0(e0, e1)];
    CharOfIndex(q[0]); CharOfIndex(q[1]);
    EncodeSingleOfBytes(e0, e1);
    assert q == [q[0], q[1], q[2], q[3]];
  }

  lemma QuadInversePair(q: seq<byte>, last: bool, head: seq<byte>)
    requires |q| == 4 && q[2] != PAD && q[3] == PAD && DecodeQuad(q, last) == Ok(head)
    ensures |head| == 2 && last && EncodePair(head[0], head[1]) == q
  {
    var e0, e1, e2 := Index(q[0]), Index(q[1]), Index(q[2]);
    assert head == [Byte0(e0, e1), Byte1(e1, e2)];
    CharOfIndex(q[0]); CharOfIndex(q[1]); CharOfIndex(q[2]);
    EncodePairOfBytes(e0, e1, e2);
    assert q == [q[0], q[1], q[2], q[3]];
  }

  lemma QuadInverseTriple(q: seq<byte>, last: bool, head: seq<byte>)
    requires |q| == 4 && q[2] != PAD && q[3] != PAD && DecodeQuad(q, last) == Ok(head)
    ensures |head| == 3 && EncodeTriple(head[0], head[1], head[2]) == q
  {
    var e0, e1, e2, e3 := Index(q[0]), Index(q[1]), Index(q[2]), Index(q[3]);
    assert head == [Byte0(e0, e1), Byte1(e1, e2), Byte2(e2, e3)];
    CharOfIndex(q[0]); CharOfIndex(q[1]); CharOfIndex(q[2]); CharOfIndex(q[3]);
    EncodeTripleOfBytes(e0, e1, e2, e3);
    assert q == [q[0], q[1], q[2], q[3]];
  }

  /** A group that decodes is the encoding of the bytes it decodes to; a
      group shorter than 3 bytes can only be the last one. */
  lemma QuadInverse(q: seq<byte>, last: bool, head: seq<byte>)
    requires |q| == 4 && DecodeQuad(q, last) == Ok(head)
    ensures 1 <= |head| <= 3
    ensures |head| == 3 ==> EncodeTriple(head[0], head[1], head[2]) == q
    ensures |head| == 2 ==> last && EncodePair(head[0], head[1]) == q
    ensures |head| == 1 ==> last && EncodeSingle(head[0]) == q
  {
    if q[2] == PAD {
      QuadInverseSingle(q, last, head);
    } else if q[3] == PAD {
      QuadInversePair(q, last, head);
    } else {
      QuadInverseTriple(q, last, head);
    }
  }

  /** A decoded string of several groups splits into its first group's bytes
      and the rest's. */
  lemma DecodeGroupsUncons(s: seq<byte>, bs: seq<byte>) returns (head: seq<byte>, tail: seq<byte>)
    requires |s| >= 4 && DecodeGroups(s) == Ok(bs)
    ensures DecodeQuad(s[..4], |s| == 4) == Ok(head)
    ensures DecodeGroups(s[4..]) == Ok(tail)
    ensures bs == head + tail
  {
    head := DecodeQuad(s[..4], |s| == 4).value;
    tail := DecodeGroups(s[4..]).value;
  }

  lemma EncodeCons(head: seq<byte>, tail: seq<byte>)
    requires |head| == 3
    ensures Encode(head + tail) == EncodeTriple(head[0], head[1], head[2]) + Encode(tail)
  {
    assert (head + tail)[3..] == tail;
  }

  lemma {:induction false} EncodeDecodeGroups(s: seq<byte>, bs: seq<byte>)
    requires DecodeGroups(s) == Ok(bs)
    ensures Encode(bs) == s
    decreases |s|
  {
    if |s| > 0 {
      var head, tail := DecodeGroupsUncons(s, bs);
      var q, rest := s[..4], s[4..];
      QuadInverse(q, |s| == 4, head);
      EncodeDecodeGroups(rest, tail);
      assert s == q + rest;
      if |head| == 3 {
        EncodeCons(head, tail);
      } else {
        assert rest == [] && tail == [];
        assert bs == head;
      }
    }
  }

  /** Encoding inverts decoding: a string that decodes is exactly the
      encoding of what it decodes to. */
  lemma EncodeDecode(s: seq<byte>, bs: seq<byte>)
    requires Decode(s) == Ok(bs)
    ensures Encode(bs) == s
  {
    EncodeDecodeGroups(s, bs);
  }

  /** `Decode` accepts exactly the strings that `Encode` produces: a bad
      character, a bad length or bad padding is an error. */
  lemma DecodeSucceedsIff(s: seq<byte>)
    ensures Decode(s).Ok? <==> exists bs :: Encode(bs) == s
  {
    if Decode(s).Ok? {
      EncodeDecode(s, Decode(s).value);
    }
    if bs :| Encode(bs) == s {
      DecodeEncode(bs);
    }
  }
}
