/**
 * The platform's `btoa` and `atob`, which `toBase64` and `fromBase64` in
 * src/components/Player/RPCDialogs.tsx rely on.  `btoa` is the base 64
 * encoding of RFC 4648, section 4, with padding, applied to a "binary
 * string" (one character per byte); `atob` is the forgiving-base64 decode of
 * the WHATWG Infra Standard, which skips ASCII whitespace, accepts missing
 * padding and ignores the unused bits of a final partial group.
 */
module Base64 {
  import opened Wrappers
  import opened Utf8

  /** The characters of the base 64 alphabet (RFC 4648, section 4, table 1). */
  predicate IsAlphabet(c: char) {
    ('A' <= c <= 'Z') || ('a' <= c <= 'z') || ('0' <= c <= '9') || c == '+' || c == '/'
  }

  /** Table 1 of RFC 4648: the character that encodes a 6-bit value. */
  function CharOf(v: int): (c: char)
    requires 0 <= v < 64
    ensures IsAlphabet(c)
  {
    if v < 26 then ('A' as int + v) as char
    else if v < 52 then ('a' as int + (v - 26)) as char
    else if v < 62 then ('0' as int + (v - 52)) as char
    else if v == 62 then '+'
    else '/'
  }

  /** Table 1 read backwards: the 6-bit value a base 64 character stands for. */
  function ValueOf(c: char): (v: int)
    requires IsAlphabet(c)
    ensures 0 <= v < 64 && CharOf(v) == c
  {
    if 'A' <= c <= 'Z' then c as int - 'A' as int
    else if 'a' <= c <= 'z' then c as int - 'a' as int + 26
    else if '0' <= c <= '9' then c as int - '0' as int + 52
    else if c == '+' then 62
    else 63
  }

  /** Every 6-bit value has its own character. */
  lemma ValueOfCharOf(v: int)
    requires 0 <= v < 64
    ensures ValueOf(CharOf(v)) == v
  {
  }

  // ------------------------------------------------------------ encoding

  /** A 24-bit group of three bytes as four 6-bit values, most significant first. */
  function FullGroup(x: Byte, y: Byte, z: Byte): (v: seq<int>)
    ensures |v| == 4 && forall i :: 0 <= i < 4 ==> 0 <= v[i] < 64
  {
    var n: int := x as int * 65536 + y as int * 256 + z as int;
    [n / 262144, (n / 4096) % 64, (n / 64) % 64, n % 64]
  }

  /** A final group of two bytes, two zero bits appended: three 6-bit values. */
  function TwoByteGroup(x: Byte, y: Byte): (v: seq<int>)
    ensures |v| == 3 && forall i :: 0 <= i < 3 ==> 0 <= v[i] < 64
  {
    var n: int := (x as int * 256 + y as int) * 4;
    [n / 4096, (n / 64) % 64, n % 64]
  }

  /** A final group of one byte, four zero bits appended: two 6-bit values. */
  function OneByteGroup(x: Byte): (v: seq<int>)
    ensures |v| == 2 && forall i :: 0 <= i < 2 ==> 0 <= v[i] < 64
  {
    var n: int := x as int * 16;
    [n / 64, n % 64]
  }

  /** The 6-bit values of a byte string, group by group. */
  function Sextets(b: seq<Byte>): (v: seq<int>)
    ensures |v| == 4 * (|b| / 3) + (if |b| % 3 == 0 then 0 else |b| % 3 + 1)
    ensures forall i :: 0 <= i < |v| ==> 0 <= v[i] < 64
  {
    if |b| == 0 then []
    else if |b| == 1 then OneByteGroup(b[0])
    else if |b| == 2 then TwoByteGroup(b[0], b[1])
    else FullGroup(b[0], b[1], b[2]) + Sextets(b[3..])
  }

  /** The `=` characters that complete the final 4-character group. */
  function Padding(count: nat): string {
    if count % 3 == 1 then "==" else if count % 3 == 2 then "=" else ""
  }

  /** RFC 4648 base 64 of a byte string, padded to a multiple of four characters. */
  function Encode(b: seq<Byte>): (s: string)
    ensures |s| == 4 * ((|b| + 2) / 3)
    ensures forall i :: 0 <= i < |s| ==> IsAlphabet(s[i]) || s[i] == '='
  {
    Chars(Sextets(b)) + Padding(|b|)
  }

  /** The characters of a sequence of 6-bit values. */
  function Chars(v: seq<int>): (s: string)
    requires forall i :: 0 <= i < |v| ==> 0 <= v[i] < 64
    ensures |s| == |v| && forall i :: 0 <= i < |s| ==> IsAlphabet(s[i])
  {
    seq(|v|, i requires 0 <= i < |v| => CharOf(v[i]))
  }

  // ------------------------------------------------------------ decoding

  /** ASCII whitespace as the Infra Standard defines it: tab, line feed, form feed, carriage return, space. */
  predicate IsAsciiWhitespace(c: char) {
    c == '\t' || c == '\n' || c == '\U{000C}' || c == '\r' || c == ' '
  }

  function RemoveAsciiWhitespace(s: string): (r: string)
    ensures |r| <= |s|
    ensures forall i :: 0 <= i < |r| ==> !IsAsciiWhitespace(r[i])
    ensures forall x :: x in r <==> x in s && !IsAsciiWhitespace(x)
  {
    if s == [] then []
    else if IsAsciiWhitespace(s[0]) then RemoveAsciiWhitespace(s[1..])
    else [s[0]] + RemoveAsciiWhitespace(s[1..])
  }

  /** When the length is a multiple of four, one or two trailing `=` are removed. */
  function RemovePadding(s: string): string {
    if |s| % 4 != 0 then s
    else if 2 <= |s| && s[|s| - 2..] == "==" then s[..|s| - 2]
    else if 1 <= |s| && s[|s| - 1] == '=' then s[..|s| - 1]
    else s
  }

  /** Four 6-bit values as the three bytes of their 24 bits. */
  function FullQuantum(v: seq<int>): (b: seq<Byte>)
    requires |v| == 4 && forall i :: 0 <= i < 4 ==> 0 <= v[i] < 64
    ensures |b| == 3
  {
    var n := v[0] * 262144 + v[1] * 4096 + v[2] * 64 + v[3];
    [n / 65536, (n / 256) % 256, n % 256]
  }

  /** Three final 6-bit values: 18 bits, the last two dropped, as two bytes. */
  function EighteenBits(v: seq<int>): (b: seq<Byte>)
    requires |v| == 3 && forall i :: 0 <= i < 3 ==> 0 <= v[i] < 64
    ensures |b| == 2
  {
    var n := (v[0] * 4096 + v[1] * 64 + v[2]) / 4;
    [n / 256, n % 256]
  }

  /** Two final 6-bit values: 12 bits, the last four dropped, as one byte. */
  function TwelveBits(v: seq<int>): (b: seq<Byte>)
    requires |v| == 2 && forall i :: 0 <= i < 2 ==> 0 <= v[i] < 64
    ensures |b| == 1
  {
    [(v[0] * 64 + v[1]) / 16]
  }

  /** The bytes of a sequence of 6-bit values, four values at a time. */
  function Bytes(v: seq<int>): (b: seq<Byte>)
    requires |v| % 4 != 1
    requires forall i :: 0 <= i < |v| ==> 0 <= v[i] < 64
  {
    if |v| == 0 then []
    else if |v| == 2 then TwelveBits(v)
    else if |v| == 3 then EighteenBits(v)
    else FullQuantum(v[..4]) + Bytes(v[4..])
  }

  /** The forgiving-base64 decode; `None` where `atob` throws. */
  function Decode(s: string): (r: Option<seq<Byte>>)
  {
    var data := RemovePadding(RemoveAsciiWhitespace(s));
    if |data| % 4 == 1 then None
    else if exists i :: 0 <= i < |data| && !IsAlphabet(data[i]) then None
    else
      var v := seq(|data|, i requires 0 <= i < |data| => ValueOf(data[i]));
      Some(Bytes(v))
  }

  // ------------------------------------------------------------ btoa / atob

  /** A string whose characters are all at most U+00FF, one per byte. */
  predicate IsBinary(s: string) {
    forall i :: 0 <= i < |s| ==> s[i] as int < 256
  }

  function BinaryString(b: seq<Byte>): (s: string)
    ensures |s| == |b| && IsBinary(s)
  {
    seq(|b|, i requires 0 <= i < |b| => b[i] as char)
  }

  function CharCodes(s: string): (b: seq<Byte>)
    requires IsBinary(s)
    ensures |b| == |s|
  {
    seq(|s|, i requires 0 <= i < |s| => s[i] as int)
  }

  lemma CharCodesBinaryString(b: seq<Byte>)
    ensures CharCodes(BinaryString(b)) == b
  {
  }

  /** `btoa`: throws (`None`) on a character above U+00FF. */
  function Btoa(s: string): (r: Option<string>)
    ensures r.Some? <==> IsBinary(s)
  {
    if IsBinary(s) then Some(Encode(CharCodes(s))) else None
  }

  /** `atob`: a binary string, or `None` where it throws. */
  function Atob(s: string): (r: Option<string>)
    ensures r.Some? ==> IsBinary(r.value)
  {
    match Decode(s)
    case None => None
    case Some(b) => Some(BinaryString(b))
  }

  // ------------------------------------------------------------ arithmetic

  lemma SmallProduct(d: int, x: int)
    requires 0 < d && -d < d * x < d
    ensures x == 0
  {
  }

  /** Euclidean division is determined by its quotient and remainder. */
  lemma DivMod(n: int, d: int, q: int, r: int)
    requires 0 < d && n == d * q + r && 0 <= r < d
    ensures n / d == q && n % d == r
  {
    var q0, r0 := n / d, n % d;
    assert d * q0 + r0 == n;
    assert d * (q - q0) == d * q - d * q0;
    SmallProduct(d, q - q0);
  }

  /** A full 24-bit group: the four 6-bit values put back together give the three bytes. */
  lemma Group3(a: Byte, b: Byte, c: Byte)
    ensures FullQuantum(FullGroup(a, b, c)) == [a, b, c]
  {
    SplitGroup3(a, b, c);
    JoinGroup3(a, b, c);
  }

  /** The 24 bits of three bytes, regrouped as four 6-bit values. */
  lemma Regroup3(a: Byte, b: Byte, c: Byte)
    ensures var s1, s2 := (a % 4) * 16 + b / 16, (b % 16) * 4 + c / 64;
            && 0 <= a / 4 < 64 && 0 <= s1 < 64 && 0 <= s2 < 64
            && a * 65536 + b * 256 + c == (a / 4) * 262144 + s1 * 4096 + s2 * 64 + c % 64
  {
    DivMod(a, 4, a / 4, a % 4);
    DivMod(b, 16, b / 16, b % 16);
    DivMod(c, 64, c / 64, c % 64);
  }

  /** Encoding a full group yields exactly the regrouped 6-bit values. */
  lemma SplitGroup3(a: Byte, b: Byte, c: Byte)
    ensures FullGroup(a, b, c) == [a / 4, (a % 4) * 16 + b / 16, (b % 16) * 4 + c / 64, c % 64]
  {
    var n: int := a * 65536 + b * 256 + c;
    var s0, s1, s2, s3 := a / 4, (a % 4) * 16 + b / 16, (b % 16) * 4 + c / 64, c % 64;
    Regroup3(a, b, c);
    DivMod(n, 262144, s0, s1 * 4096 + s2 * 64 + s3);
    DivMod(n, 64, s0 * 4096 + s1 * 64 + s2, s3);
    DivMod(n, 4096, s0 * 64 + s1, s2 * 64 + s3);
    DivMod(s0 * 64 + s1, 64, s0, s1);
    DivMod(s0 * 4096 + s1 * 64 + s2, 64, s0 * 64 + s1, s2);
  }

  /** Decoding the regrouped 6-bit values yields the three bytes. */
  lemma JoinGroup3(a: Byte, b: Byte, c: Byte)
    ensures var v := [a / 4, (a % 4) * 16 + b / 16, (b % 16) * 4 + c / 64, c % 64];
            (forall i :: 0 <= i < 4 ==> 0 <= v[i] < 64) && FullQuantum(v) == [a, b, c]
  {
    var n: int := a * 65536 + b * 256 + c;
    Regroup3(a, b, c);
    DivMod(n, 65536, a, b * 256 + c);
    DivMod(n, 256, a * 256 + b, c);
    DivMod(a * 256 + b, 256, a, b);
  }

  /** A final group of two bytes, sent as three 6-bit values. */
  lemma Group2(a: Byte, b: Byte)
    ensures EighteenBits(TwoByteGroup(a, b)) == [a, b]
  {
    var n: int := (a * 256 + b) * 4;
    var s0, s1, s2 := a / 4, (a % 4) * 16 + b / 16, (b % 16) * 4;
    assert 0 <= s1 < 64 && 0 <= s2 < 64 && n == s0 * 4096 + s1 * 64 + s2 by {
      DivMod(a, 4, a / 4, a % 4);
      DivMod(b, 16, b / 16, b % 16);
    }
    DivMod(n, 64, s0 * 64 + s1, s2);
    DivMod(n, 4096, s0, s1 * 64 + s2);
    DivMod(s0 * 64 + s1, 64, s0, s1);
    DivMod(n, 4, a * 256 + b, 0);
    DivMod(a * 256 + b, 256, a, b);
  }

  /** A final group of one byte, sent as two 6-bit values. */
  lemma Group1(a: Byte)
    ensures TwelveBits(OneByteGroup(a)) == [a]
  {
    var n: int := a * 16;
    DivMod(n, 64, n / 64, n % 64);
    DivMod(n, 16, a, 0);
  }

  // ------------------------------------------------------------ round trip

  /** Decoding the 6-bit values of a byte string gives the byte string back. */
  lemma {:induction false} BytesSextets(b: seq<Byte>)
    ensures |Sextets(b)| % 4 != 1
    ensures Bytes(Sextets(b)) == b
  {
    if |b| == 1 {
      Group1(b[0]);
    } else if |b| == 2 {
      Group2(b[0], b[1]);
    } else if |b| >= 3 {
      var g := FullGroup(b[0], b[1], b[2]);
      var rest := Sextets(b[3..]);
      BytesSextets(b[3..]);
      BytesOfFullGroup(g, rest);
      Group3(b[0], b[1], b[2]);
      assert b == [b[0], b[1], b[2]] + b[3..];
    }
  }

  /** Decoding takes a leading full group of four values as three bytes. */
  lemma BytesOfFullGroup(g: seq<int>, rest: seq<int>)
    requires |g| == 4 && forall i :: 0 <= i < 4 ==> 0 <= g[i] < 64
    requires |rest| % 4 != 1 && forall i :: 0 <= i < |rest| ==> 0 <= rest[i] < 64
    ensures |g + rest| % 4 != 1
    ensures Bytes(g + rest) == FullQuantum(g) + Bytes(rest)
  {
    assert (g + rest)[..4] == g && (g + rest)[4..] == rest;
  }

  /** Removing the padding from data characters followed by at most two `=`. */
  lemma RemovePaddingOf(chars: string, pad: string)
    requires forall i :: 0 <= i < |chars| ==> IsAlphabet(chars[i])
    requires pad == "" || pad == "=" || pad == "=="
    requires |chars + pad| % 4 == 0 && (pad == "=" ==> chars != [])
    ensures RemovePadding(chars + pad) == chars
  {
    var e := chars + pad;
    if pad == "==" {
      assert e[|e| - 2..] == pad && e[..|e| - 2] == chars;
    } else if pad == "=" {
      assert e[|e| - 2..] == [chars[|chars| - 1], '='];
      assert e[..|e| - 1] == chars;
    } else if |e| >= 1 {
      assert e[|e| - 1] == chars[|chars| - 1];
    }
  }

  /** Padding removal gives back the data characters of `Encode`'s output. */
  lemma RemovePaddingOfEncode(b: seq<Byte>)
    ensures RemovePadding(Encode(b)) == Chars(Sextets(b))
  {
    RemovePaddingOf(Chars(Sextets(b)), Padding(|b|));
  }

  lemma {:induction false} NoWhitespaceUnchanged(s: string)
    requires forall i :: 0 <= i < |s| ==> !IsAsciiWhitespace(s[i])
    ensures RemoveAsciiWhitespace(s) == s
  {
    if s != [] {
      NoWhitespaceUnchanged(s[1..]);
    }
  }

  /** `atob` undoes the RFC 4648 encoding: the forgiving decode of `Encode(b)` is `b`. */
  lemma DecodeEncode(b: seq<Byte>)
    ensures Decode(Encode(b)) == Some(b)
  {
    var v := Sextets(b);
    var chars := Chars(v);
    NoWhitespaceUnchanged(Encode(b));
    RemovePaddingOfEncode(b);
    BytesSextets(b);
    var back := seq(|chars|, i requires 0 <= i < |chars| => ValueOf(chars[i]));
    assert back == v by {
      forall i | 0 <= i < |v| ensures back[i] == v[i] {
        ValueOfCharOf(v[i]);
      }
    }
  }

  /** `atob(btoa(s)) == s` for every binary string. */
  lemma AtobBtoa(s: string)
    requires IsBinary(s)
    ensures Btoa(s).Some? && Atob(Btoa(s).value) == Some(s)
  {
    var b := CharCodes(s);
    DecodeEncode(b);
    assert Atob(Encode(b)) == Some(BinaryString(b));
    assert BinaryString(b) == s;
  }

  /** Removing white space distributes over concatenation. */
  lemma {:induction false} RemoveAsciiWhitespaceConcat(a: string, b: string)
    ensures RemoveAsciiWhitespace(a + b) == RemoveAsciiWhitespace(a) + RemoveAsciiWhitespace(b)
  {
    if a != [] {
      assert (a + b)[0] == a[0] && (a + b)[1..] == a[1..] + b;
      RemoveAsciiWhitespaceConcat(a[1..], b);
    } else {
      assert a + b == b;
    }
  }

  /** A white-space character anywhere in the text is ignored by `atob`. */
  lemma DecodeIgnoresWhitespace(s1: string, c: char, s2: string)
    requires IsAsciiWhitespace(c)
    ensures Decode(s1 + [c] + s2) == Decode(s1 + s2)
  {
    RemoveAsciiWhitespaceConcat(s1 + [c], s2);
    RemoveAsciiWhitespaceConcat(s1, [c]);
    RemoveAsciiWhitespaceConcat(s1, s2);
    assert RemoveAsciiWhitespace([c]) == [];
    assert RemoveAsciiWhitespace(s1 + [c]) == RemoveAsciiWhitespace(s1);
    assert RemoveAsciiWhitespace(s1 + [c] + s2) == RemoveAsciiWhitespace(s1 + s2);
  }

  /**
   * A character outside the alphabet, other than white space and padding,
   * makes `atob` throw wherever it stands.
   */
  lemma DecodeRejectsForeignCharacter(s: string, i: int)
    requires 0 <= i < |s| && !IsAlphabet(s[i]) && !IsAsciiWhitespace(s[i]) && s[i] != '='
    ensures Decode(s) == None
  {
    var data := RemoveAsciiWhitespace(s);
    assert s[i] in data;
    var k :| 0 <= k < |data| && data[k] == s[i];
    assert k < |RemovePadding(data)| && RemovePadding(data)[k] == data[k];
  }

  /** A text whose data length leaves remainder 1 modulo 4 makes `atob` throw. */
  lemma AtobRejectsLoneCharacter(s: string)
    requires |s| % 4 == 1
    requires forall i :: 0 <= i < |s| ==> !IsAsciiWhitespace(s[i])
    ensures Decode(s) == None && Atob(s) == None
  {
    NoWhitespaceUnchanged(s);
  }
}
