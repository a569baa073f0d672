/**
 * Base64 as defined in section 4 of RFC 4648: every three bytes become four
 * characters of the 64-letter alphabet, and a final group of one or two bytes
 * is completed with one or two '=' pad characters.
 */
module Base64 {
  /** An octet. */
  type Byte = b: int | 0 <= b < 256

  /** A 6-bit group, the index of one alphabet letter. */
  type Sextet = i: int | 0 <= i < 64

  /** The letters of the base64 alphabet (Table 1 of RFC 4648). */
  predicate InAlphabet(c: char) {
    ('A' <= c <= 'Z') || ('a' <= c <= 'z') || ('0' <= c <= '9') || c == '+' || c == '/'
  }

  /** The value of an alphabet letter; a character outside the alphabet reads as 0. */
  function SextetOf(c: char): Sextet {
    if 'A' <= c <= 'Z' then c as int - 'A' as int
    else if 'a' <= c <= 'z' then c as int - 'a' as int + 26
    else if '0' <= c <= '9' then c as int - '0' as int + 52
    else if c == '+' then 62
    else if c == '/' then 63
    else 0
  }

  /** The alphabet letter of a value. */
  function LetterOf(i: Sextet): (c: char)
    ensures InAlphabet(c) && SextetOf(c) == i
  {
    if i < 26 then ('A' as int + i) as char
    else if i < 52 then ('a' as int + (i - 26)) as char
    else if i < 62 then ('0' as int + (i - 52)) as char
    else if i == 62 then '+'
    else '/'
  }

  /** Encoding of a full 24-bit group. */
  function EncodeGroup(b0: Byte, b1: Byte, b2: Byte): string {
    [LetterOf(b0 / 4), LetterOf(b0 % 4 * 16 + b1 / 16), LetterOf(b1 % 16 * 4 + b2 / 64), LetterOf(b2 % 64)]
  }

  /** The base64 text of a byte string (g_base64_encode). */
  function Encode(data: seq<Byte>): (text: string)
    ensures |text| % 4 == 0
    decreases |data|
  {
    if |data| == 0 then ""
    else if |data| == 1 then [LetterOf(data[0] / 4), LetterOf(data[0] % 4 * 16), '=', '=']
    else if |data| == 2 then [LetterOf(data[0] / 4), LetterOf(data[0] % 4 * 16 + data[1] / 16), LetterOf(data[1] % 16 * 4), '=']
    else EncodeGroup(data[0], data[1], data[2]) + Encode(data[3..])
  }

  /** Four characters for every started group of three bytes. */
  lemma {:induction false} EncodedLength(data: seq<Byte>)
    ensures |Encode(data)| == 4 * ((|data| + 2) / 3)
    decreases |data|
  {
    if |data| >= 3 {
      EncodedLength(data[3..]);
      assert (|data| - 3 + 2) / 3 + 1 == (|data| + 2) / 3;
    }
  }

  /**
   * Decoding, quantum by quantum. The function is total: characters outside the
   * alphabet read as 0, a quantum with '=' in third place yields one byte, with
   * '=' in fourth place two bytes, and decoding stops after a padded quantum or
   * when fewer than four characters remain.
   */
  function Decode(text: string): (data: seq<Byte>)
    decreases |text|
  {
    if |text| < 4 then []
    else
      var a, b, c, d := SextetOf(text[0]), SextetOf(text[1]), SextetOf(text[2]), SextetOf(text[3]);
      if text[2] == '=' then [a * 4 + b / 16]
      else if text[3] == '=' then [a * 4 + b / 16, b % 16 * 16 + c / 4]
      else [a * 4 + b / 16, b % 16 * 16 + c / 4, c % 4 * 64 + d] + Decode(text[4..])
  }

  /** A decoded payload holds at most three bytes per four characters of text. */
  lemma {:induction false} DecodedLength(text: string)
    ensures |Decode(text)| <= 3 * (|text| / 4)
    decreases |text|
  {
    if |text| >= 4 && text[2] != '=' && text[3] != '=' {
      DecodedLength(text[4..]);
      assert |text[4..]| / 4 == |text| / 4 - 1;
    }
  }

  /** The three bytes of a full group survive encoding and decoding. */
  lemma GroupRoundTrip(b0: Byte, b1: Byte, b2: Byte)
    ensures (b0 / 4) * 4 + (b0 % 4 * 16 + b1 / 16) / 16 == b0
    ensures (b0 % 4 * 16 + b1 / 16) % 16 * 16 + (b1 % 16 * 4 + b2 / 64) / 4 == b1
    ensures (b1 % 16 * 4 + b2 / 64) % 4 * 64 + b2 % 64 == b2
  {
  }

  /** A one-byte tail decodes back to its byte. */
  lemma DecodeOneByte(b0: Byte)
    ensures Decode(Encode([b0])) == [b0]
  {
    var t := Encode([b0]);
    assert t[2] == '=';
    GroupRoundTrip(b0, 0, 0);
  }

  /** A two-byte tail decodes back to its bytes. */
  lemma DecodeTwoBytes(b0: Byte, b1: Byte)
    ensures Decode(Encode([b0, b1])) == [b0, b1]
  {
    var t := Encode([b0, b1]);
    assert t[2] != '=' && t[3] == '=';
    GroupRoundTrip(b0, b1, 0);
  }

  /** A full group in front of more text decodes to its three bytes, then the rest. */
  lemma DecodeGroup(b0: Byte, b1: Byte, b2: Byte, rest: string)
    ensures Decode(EncodeGroup(b0, b1, b2) + rest) == [b0, b1, b2] + Decode(rest)
  {
    var t := EncodeGroup(b0, b1, b2) + rest;
    assert t[2] != '=' && t[3] != '=';
    assert t[4..] == rest;
    GroupRoundTrip(b0, b1, b2);
  }

  /** Encoding a text of three bytes or more starts with the encoding of its first group. */
  lemma EncodeFirstGroup(data: seq<Byte>)
    requires |data| >= 3
    ensures Encode(data) == EncodeGroup(data[0], data[1], data[2]) + Encode(data[3..])
  {
  }

  /** Decoding inverts encoding (RFC 4648 section 4). */
  lemma {:induction false} DecodeEncode(data: seq<Byte>)
    ensures Decode(Encode(data)) == data
    decreases |data|
  {
    if |data| >= 3 {
      var rest := data[3..];
      assert Decode(Encode(data)) == [data[0], data[1], data[2]] + Decode(Encode(rest)) by {
        EncodeFirstGroup(data);
        DecodeGroup(data[0], data[1], data[2], Encode(rest));
      }
      DecodeEncode(rest);
      assert data[..3] == [data[0], data[1], data[2]];
      assert data == data[..3] + rest;
    } else if |data| == 2 {
      assert data == [data[0], data[1]];
      DecodeTwoBytes(data[0], data[1]);
    } else if |data| == 1 {
      assert data == [data[0]];
      DecodeOneByte(data[0]);
    }
  }
}
