/**
 * The base 64 encoding of section 4 of RFC 4648 (standard alphabet, `=`
 * padding). The browser's `readAsDataURL` encodes the JPEG blob this way and
 * the server's `base64.b64decode` reverses it.
 */
module Base64 {
  import opened Results
  import Seqs

  /** An octet, as the blob and `img_bytes` hold them. */
  type Byte = x: int | 0 <= x < 256

  /** A 6-bit group, the value one encoding character stands for. */
  type Sextet = x: int | 0 <= x < 64

  type Bytes = seq<Byte>

  const Pad: char := '='

  /** Table 1 of RFC 4648: the character for a 6-bit value. */
  function SextetChar(v: Sextet): (c: char)
    ensures IsAlphabetChar(c)
  {
    if v < 26 then ('A' as int + v) as char
    else if v < 52 then ('a' as int + (v - 26)) as char
    else if v < 62 then ('0' as int + (v - 52)) as char
    else if v == 62 then '+'
    else '/'
  }

  predicate IsAlphabetChar(c: char) {
    'A' <= c <= 'Z' || 'a' <= c <= 'z' || '0' <= c <= '9' || c == '+' || c == '/'
  }

  /** The inverse of Table 1: the 6-bit value of an alphabet character, None otherwise. */
  function SextetValue(c: char): (r: Option<Sextet>)
    ensures r.Some? <==> IsAlphabetChar(c)
  {
    if 'A' <= c <= 'Z' then Some(c as int - 'A' as int)
    else if 'a' <= c <= 'z' then Some(c as int - 'a' as int + 26)
    else if '0' <= c <= '9' then Some(c as int - '0' as int + 52)
    else if c == '+' then Some(62)
    else if c == '/' then Some(63)
    else None
  }

  /** Table 1 read forwards then backwards gives the value back. */
  lemma SextetValueChar(v: Sextet)
    ensures SextetValue(SextetChar(v)) == Some(v)
  {
  }

  /** Table 1 read backwards then forwards gives the character back. */
  lemma SextetCharValue(c: char)
    requires IsAlphabetChar(c)
    ensures SextetChar(SextetValue(c).value) == c
  {
  }

  // Splitting 24 bits into four sextets, and a final group of one or two bytes
  // padded with zero bits (section 4 of RFC 4648).

  function EncodeGroup(b0: Byte, b1: Byte, b2: Byte): (s: string)
    ensures |s| == 4 && forall i :: 0 <= i < 4 ==> IsAlphabetChar(s[i])
  {
    [SextetChar(b0 / 4), SextetChar(b0 % 4 * 16 + b1 / 16),
     SextetChar(b1 % 16 * 4 + b2 / 64), SextetChar(b2 % 64)]
  }

  function EncodeOne(b0: Byte): (s: string)
    ensures |s| == 4 && s[2] == Pad && s[3] == Pad
  {
    [SextetChar(b0 / 4), SextetChar(b0 % 4 * 16), Pad, Pad]
  }

  function EncodeTwo(b0: Byte, b1: Byte): (s: string)
    ensures |s| == 4 && s[3] == Pad
  {
    [SextetChar(b0 / 4), SextetChar(b0 % 4 * 16 + b1 / 16), SextetChar(b1 % 16 * 4), Pad]
  }

  /** Characters that may appear in an encoding: the alphabet and the pad. */
  predicate IsEncodingChar(c: char) {
    IsAlphabetChar(c) || c == Pad
  }

  /** The encoding of a byte string: four characters per started group of three bytes. */
  function Encode(b: Bytes): (s: string)
    ensures |s| == 4 * ((|b| + 2) / 3)
    ensures forall i :: 0 <= i < |s| ==> IsEncodingChar(s[i])
    decreases |b|
  {
    if |b| == 0 then ""
    else if |b| == 1 then EncodeOne(b[0])
    else if |b| == 2 then EncodeTwo(b[0], b[1])
    else
      var head, rest := EncodeGroup(b[0], b[1], b[2]), Encode(b[3..]);
      assert (|b| + 2) / 3 == (|b[3..]| + 2) / 3 + 1;
      assert forall i :: 4 <= i < |head + rest| ==> (head + rest)[i] == rest[i - 4];
      head + rest
  }

  // Reassembling bytes from sextets.

  function Byte0(v0: Sextet, v1: Sextet): Byte { v0 * 4 + v1 / 16 }
  function Byte1(v1: Sextet, v2: Sextet): Byte { v1 % 16 * 16 + v2 / 4 }
  function Byte2(v2: Sextet, v3: Sextet): Byte { v2 % 4 * 64 + v3 }

  /** A quadruple of alphabet characters, not the last of the input. */
  function DecodeQuad(q: string): (r: Result<Bytes>)
    requires |q| == 4
    ensures r.Ok? ==> |r.value| == 3
    ensures r.Ok? <==> forall i :: 0 <= i < 4 ==> IsAlphabetChar(q[i])
  {
    var v0, v1, v2, v3 := SextetValue(q[0]), SextetValue(q[1]), SextetValue(q[2]), SextetValue(q[3]);
    if v0.None? || v1.None? || v2.None? || v3.None? then Err(InvalidBase64)
    else Ok([Byte0(v0.value, v1.value), Byte1(v1.value, v2.value), Byte2(v2.value, v3.value)])
  }

  /** The last quadruple: `xx==` gives one byte, `xxx=` two, `xxxx` three. */
  function DecodeFinal(q: string): (r: Result<Bytes>)
    requires |q| == 4
    ensures r.Ok? ==> 1 <= |r.value| <= 3
  {
    var v0, v1 := SextetValue(q[0]), SextetValue(q[1]);
    if v0.None? || v1.None? then Err(InvalidBase64)
    else if q[2] == Pad then
      (if q[3] == Pad then Ok([Byte0(v0.value, v1.value)]) else Err(InvalidBase64))
    else
      var v2 := SextetValue(q[2]);
      if v2.None? then Err(InvalidBase64)
      else if q[3] == Pad then Ok([Byte0(v0.value, v1.value), Byte1(v1.value, v2.value)])
      else
        var v3 := SextetValue(q[3]);
        if v3.None? then Err(InvalidBase64)
        else Ok([Byte0(v0.value, v1.value), Byte1(v1.value, v2.value), Byte2(v2.value, v3.value)])
  }

  /**
   * Strict decoding of a canonical, padded encoding: the length is a multiple
   * of four and padding appears only in the last quadruple.
   */
  function Decode(s: string): (r: Result<Bytes>)
    ensures r.Err? ==> r.error == InvalidBase64
    ensures r.Ok? ==> |s| % 4 == 0 && 3 * (|s| / 4) - 2 <= |r.value| <= 3 * (|s| / 4)
    decreases |s|
  {
    if |s| == 0 then Ok([])
    else if |s| < 4 then Err(InvalidBase64)
    else if |s| == 4 then DecodeFinal(s)
    else
      match DecodeQuad(s[..4])
      case Err(e) => Err(e)
      case Ok(head) =>
        match Decode(s[4..])
        case Err(e) => Err(e)
        case Ok(tail) => Ok(head + tail)
  }

  lemma GroupRoundTrip(b0: Byte, b1: Byte, b2: Byte)
    ensures DecodeQuad(EncodeGroup(b0, b1, b2)) == Ok([b0, b1, b2])
    ensures DecodeFinal(EncodeGroup(b0, b1, b2)) == Ok([b0, b1, b2])
  {
    var v0, v1, v2, v3 := b0 / 4, b0 % 4 * 16 + b1 / 16, b1 % 16 * 4 + b2 / 64, b2 % 64;
    SextetValueChar(v0);
    SextetValueChar(v1);
    SextetValueChar(v2);
    SextetValueChar(v3);
    Regroup(b0, b1, b2);
  }

  /** The four sextets of a group reassemble into its three bytes. */
  lemma Regroup(b0: Byte, b1: Byte, b2: Byte)
    ensures var v0, v1, v2, v3 := b0 / 4, b0 % 4 * 16 + b1 / 16, b1 % 16 * 4 + b2 / 64, b2 % 64;
      Byte0(v0, v1) == b0 && Byte1(v1, v2) == b1 && Byte2(v2, v3) == b2
  {
  }

  lemma OneRoundTrip(b0: Byte)
    ensures DecodeFinal(EncodeOne(b0)) == Ok([b0])
  {
    var v0, v1 := b0 / 4, b0 % 4 * 16;
    SextetValueChar(v0);
    SextetValueChar(v1);
    assert Byte0(v0, v1) == b0;
  }

  lemma TwoRoundTrip(b0: Byte, b1: Byte)
    ensures DecodeFinal(EncodeTwo(b0, b1)) == Ok([b0, b1])
  {
    var v0, v1, v2 := b0 / 4, b0 % 4 * 16 + b1 / 16, b1 % 16 * 4;
    SextetValueChar(v0);
    SextetValueChar(v1);
    SextetValueChar(v2);
    assert Byte0(v0, v1) == b0 && Byte1(v1, v2) == b1;
  }

  /** Round trip (section 4 of RFC 4648): decoding an encoding gives back the bytes. */
  lemma {:induction false} DecodeEncode(b: Bytes)
    ensures Decode(Encode(b)) == Ok(b)
    decreases |b|
  {
    if |b| == 0 {
    } else if |b| == 1 {
      OneRoundTrip(b[0]);
      assert b == [b[0]];
    } else if |b| == 2 {
      TwoRoundTrip(b[0], b[1]);
      assert b == [b[0], b[1]];
    } else {
      DecodeEncode(b[3..]);
      GroupThenRest(b);
    }
  }

  /** The inductive step of the round trip: one full group in front of a round-tripping rest. */
  lemma GroupThenRest(b: Bytes)
    requires |b| >= 3
    requires Decode(Encode(b[3..])) == Ok(b[3..])
    ensures Decode(Encode(b)) == Ok(b)
  {
    var head, rest := EncodeGroup(b[0], b[1], b[2]), Encode(b[3..]);
    GroupRoundTrip(b[0], b[1], b[2]);
    assert Encode(b) == head + rest;
    Seqs.FirstThree(b);
    if |b| == 3 {
      assert head + rest == head;
      assert Decode(head) == DecodeFinal(head);
      assert |b| == 3;
      assert b == [b[0], b[1], b[2]];
    } else {
      DecodeStep(head, rest);
    }
  }

  /** Decoding proceeds one leading quadruple at a time. */
  lemma DecodeStep(head: string, rest: string)
    requires |head| == 4 && |rest| > 0
    requires DecodeQuad(head).Ok? && Decode(rest).Ok?
    ensures Decode(head + rest) == Ok(DecodeQuad(head).value + Decode(rest).value)
  {
    var s := head + rest;
    assert s[..4] == head && s[4..] == rest;
  }

  /** Input whose length is not a multiple of four is always rejected. */
  lemma {:induction false} DecodeRejectsLength(s: string)
    requires |s| % 4 != 0
    ensures Decode(s) == Err(InvalidBase64)
    decreases |s|
  {
    if |s| > 4 {
      DecodeRejectsLength(s[4..]);
    }
  }
}
