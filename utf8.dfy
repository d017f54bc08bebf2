/**
 * The platform's `TextEncoder.encode` and `TextDecoder.decode` for UTF-8
 * (RFC 3629, section 3), as `toBase64` and `fromBase64` in
 * src/components/Player/RPCDialogs.tsx use them.  A Dafny `char` is a
 * Unicode scalar value, so a `string` here is a JavaScript string without
 * lone surrogates.
 *
 * The decoder is the WHATWG Encoding Standard's UTF-8 decoder in its default
 * (non-fatal) mode: an ill-formed sequence becomes one U+FFFD and decoding
 * resumes at the first byte that did not fit, and a leading byte order mark
 * is dropped.
 */
module Utf8 {

  type Byte = b: int | 0 <= b < 256

  const ReplacementCharacter: char := '\U{FFFD}'
  const ByteOrderMark: char := '\U{FEFF}'

  // ------------------------------------------------------------ encoding

  /** The UTF-8 encoding of one scalar value: one to four bytes, by range. */
  function EncodeChar(c: char): (bytes: seq<Byte>)
    ensures 1 <= |bytes| <= 4
    ensures |bytes| == 1 <==> c as int < 0x80
  {
    var cp := c as int;
    if cp < 0x80 then [cp]
    else if cp < 0x800 then [0xC0 + cp / 64, 0x80 + cp % 64]
    else if cp < 0x10000 then [0xE0 + cp / 4096, 0x80 + (cp / 64) % 64, 0x80 + cp % 64]
    else [0xF0 + cp / 262144, 0x80 + (cp / 4096) % 64, 0x80 + (cp / 64) % 64, 0x80 + cp % 64]
  }

  /** `new TextEncoder().encode(s)`. */
  function Encode(s: string): (bytes: seq<Byte>)
    ensures |s| <= |bytes| <= 4 * |s|
  {
    if s == [] then [] else EncodeChar(s[0]) + Encode(s[1..])
  }

  // ------------------------------------------------------------ decoding

  /** How many continuation bytes a lead byte announces; 0 also for bytes that cannot lead. */
  function Needed(lead: Byte): nat {
    if 0xC2 <= lead <= 0xDF then 1
    else if 0xE0 <= lead <= 0xEF then 2
    else if 0xF0 <= lead <= 0xF4 then 3
    else 0
  }

  /** The bounds on the first continuation byte, which rule out overlong forms, surrogates and values past U+10FFFF. */
  function Lower(lead: Byte): Byte {
    if lead == 0xE0 then 0xA0 else if lead == 0xF0 then 0x90 else 0x80
  }

  function Upper(lead: Byte): Byte {
    if lead == 0xED then 0x9F else if lead == 0xF4 then 0x8F else 0xBF
  }

  predicate IsContinuation(b: Byte) {
    0x80 <= b <= 0xBF
  }

  /** How many of the announced continuation bytes follow the lead byte `b[0]` in range. */
  function ContinuationRun(b: seq<Byte>): (m: nat)
    requires 1 <= |b|
    ensures m <= Needed(b[0]) && 1 + m <= |b|
  {
    var k := Needed(b[0]);
    if k < 1 || |b| < 2 || !(Lower(b[0]) <= b[1] <= Upper(b[0])) then 0
    else if k < 2 || |b| < 3 || !IsContinuation(b[2]) then 1
    else if k < 3 || |b| < 4 || !IsContinuation(b[3]) then 2
    else 3
  }

  /** The scalar value of a complete two-, three- or four-byte sequence. */
  function CodePoint2(b0: Byte, b1: Byte): (c: char)
    requires 0xC2 <= b0 <= 0xDF && IsContinuation(b1)
    ensures 0x80 <= c as int < 0x800
  {
    ((b0 - 0xC0) * 64 + (b1 - 0x80)) as char
  }

  function CodePoint3(b0: Byte, b1: Byte, b2: Byte): (c: char)
    requires 0xE0 <= b0 <= 0xEF && Lower(b0) <= b1 <= Upper(b0) && IsContinuation(b2)
    ensures 0x800 <= c as int < 0x10000
  {
    ((b0 - 0xE0) * 4096 + (b1 - 0x80) * 64 + (b2 - 0x80)) as char
  }

  function CodePoint4(b0: Byte, b1: Byte, b2: Byte, b3: Byte): (c: char)
    requires 0xF0 <= b0 <= 0xF4 && Lower(b0) <= b1 <= Upper(b0) && IsContinuation(b2) && IsContinuation(b3)
    ensures 0x10000 <= c as int < 0x110000
  {
    ((b0 - 0xF0) * 262144 + (b1 - 0x80) * 4096 + (b2 - 0x80) * 64 + (b3 - 0x80)) as char
  }

  /**
   * One step of the decoder: the scalar value of the sequence at the front
   * of `b` and the number of bytes it takes, or U+FFFD and the bytes of the
   * ill-formed prefix (a byte that breaks the sequence is left for the next step).
   */
  function DecodeOne(b: seq<Byte>): (r: (char, nat))
    requires 1 <= |b|
    ensures 1 <= r.1 <= |b| && r.1 <= 4
  {
    var k := Needed(b[0]);
    var m := ContinuationRun(b);
    if b[0] < 0x80 then (b[0] as char, 1)
    else if k == 0 || m < k then (ReplacementCharacter, 1 + m)
    else if k == 1 then (CodePoint2(b[0], b[1]), 2)
    else if k == 2 then (CodePoint3(b[0], b[1], b[2]), 3)
    else (CodePoint4(b[0], b[1], b[2], b[3]), 4)
  }

  /** The decoder's output for a whole byte stream, before the byte order mark is handled. */
  function DecodeStream(b: seq<Byte>): (s: string)
    ensures |s| <= |b|
    decreases |b|
  {
    if b == [] then [] else var (c, n) := DecodeOne(b); [c] + DecodeStream(b[n..])
  }

  /** `new TextDecoder().decode(bytes)`: never fails; a leading byte order mark is dropped. */
  function Decode(b: seq<Byte>): (s: string)
    ensures |s| <= |b|
  {
    var d := DecodeStream(b);
    if d != [] && d[0] == ByteOrderMark then d[1..] else d
  }

  // ------------------------------------------------------------ round trip

  /** Decoding the encoding of one scalar value yields that value and consumes exactly its bytes. */
  lemma DecodeEncodedChar(c: char, rest: seq<Byte>)
    ensures DecodeOne(EncodeChar(c) + rest) == (c, |EncodeChar(c)|)
  {
    var cp := c as int;
    if cp < 0x80 {
    } else if cp < 0x800 {
      DecodeTwoByteChar(c, rest);
    } else if cp < 0x10000 {
      DecodeThreeByteChar(c, rest);
    } else {
      DecodeFourByteChar(c, rest);
    }
  }

  lemma DecodeTwoByteChar(c: char, rest: seq<Byte>)
    requires 0x80 <= c as int < 0x800
    ensures DecodeOne(EncodeChar(c) + rest) == (c, 2)
  {
    var cp := c as int;
    var b0: Byte, b1: Byte := 0xC0 + cp / 64, 0x80 + cp % 64;
    assert EncodeChar(c) == [b0, b1];
    var b := [b0, b1] + rest;
    assert b[0] == b0 && b[1] == b1;
    assert (cp / 64) * 64 + cp % 64 == cp;
    assert CodePoint2(b0, b1) == c;
  }

  lemma DecodeThreeByteChar(c: char, rest: seq<Byte>)
    requires 0x800 <= c as int < 0x10000
    ensures DecodeOne(EncodeChar(c) + rest) == (c, 3)
  {
    var cp := c as int;
    var q := cp / 64;
    assert q * 64 + cp % 64 == cp && (q / 64) * 64 + q % 64 == q;
    assert cp / 4096 == q / 64;
    var b0: Byte, b1: Byte, b2: Byte := 0xE0 + q / 64, 0x80 + q % 64, 0x80 + cp % 64;
    assert EncodeChar(c) == [b0, b1, b2];
    assert Lower(b0) <= b1 <= Upper(b0);
    var b := [b0, b1, b2] + rest;
    assert b[0] == b0 && b[1] == b1 && b[2] == b2;
    assert CodePoint3(b0, b1, b2) == c;
  }

  lemma DecodeFourByteChar(c: char, rest: seq<Byte>)
    requires 0x10000 <= c as int
    ensures DecodeOne(EncodeChar(c) + rest) == (c, 4)
  {
    var cp := c as int;
    var q := cp / 64;
    var q2 := q / 64;
    assert q * 64 + cp % 64 == cp && q2 * 64 + q % 64 == q && (q2 / 64) * 64 + q2 % 64 == q2;
    assert cp / 262144 == q2 / 64;
    assert cp / 4096 == q2;
    var b0: Byte, b1: Byte, b2: Byte, b3: Byte := 0xF0 + q2 / 64, 0x80 + q2 % 64, 0x80 + q % 64, 0x80 + cp % 64;
    assert EncodeChar(c) == [b0, b1, b2, b3];
    assert Lower(b0) <= b1 <= Upper(b0);
    var b := [b0, b1, b2, b3] + rest;
    assert b[0] == b0 && b[1] == b1 && b[2] == b2 && b[3] == b3;
    assert CodePoint4(b0, b1, b2, b3) == c;
  }

  lemma {:induction false} DecodeStreamEncode(s: string)
    ensures DecodeStream(Encode(s)) == s
  {
    if s != [] {
      var e := EncodeChar(s[0]);
      DecodeEncodedChar(s[0], Encode(s[1..]));
      assert (e + Encode(s[1..]))[|e|..] == Encode(s[1..]);
      DecodeStreamEncode(s[1..]);
    }
  }

  /** `TextDecoder` undoes `TextEncoder` on every string that does not start with a byte order mark. */
  lemma DecodeEncode(s: string)
    requires s == [] || s[0] != ByteOrderMark
    ensures Decode(Encode(s)) == s
  {
    DecodeStreamEncode(s);
  }

  /** A leading byte order mark does not survive the round trip. */
  lemma DecodeEncodeDropsByteOrderMark(s: string)
    ensures Decode(Encode([ByteOrderMark] + s)) == s
  {
    DecodeStreamEncode([ByteOrderMark] + s);
  }

  /** A byte that can neither start nor continue a sequence decodes to U+FFFD by itself. */
  lemma StrayByteIsReplaced(b: Byte, rest: seq<Byte>)
    requires 0x80 <= b < 0xC2 || 0xF5 <= b
    ensures DecodeStream([b] + rest) == [ReplacementCharacter] + DecodeStream(rest)
  {
    assert ([b] + rest)[1..] == rest;
  }
}
