/** UTF-8, taken as the charset behind Java's String.getBytes() and
    new String(bytes), which use the platform default charset. Encode turns each Unicode scalar
    value into its one to four bytes (section 3 of RFC 3629); Decode reads
    them back and, where the bytes are not well-formed UTF-8, emits one
    U+FFFD replacement character per offending byte and resynchronises on
    the next byte. */
module Utf8 {
  import opened Bytes

  predicate IsContinuation(b: byte) { 0x80 <= b < 0xC0 }

  /** The bytes of one character. */
  function EncodeChar(c: char): (r: seq<byte>)
    ensures 1 <= |r| <= 4
    ensures (|r| == 1) == (c as int < 0x80)
    ensures |r| > 1 ==> r[0] >= 0xC2 && forall i :: 1 <= i < |r| ==> IsContinuation(r[i])
  {
    var n := c as int;
    if n < 0x80 then [n]
    else if n < 0x800 then [0xC0 + n / 64, 0x80 + n % 64]
    else if n < 0x10000 then [0xE0 + n / 4096, 0x80 + (n / 64) % 64, 0x80 + n % 64]
    else [0xF0 + n / 262144, 0x80 + (n / 4096) % 64, 0x80 + (n / 64) % 64, 0x80 + n % 64]
  }

  /** s.getBytes(UTF_8). */
  function Encode(s: string): (r: seq<byte>)
    ensures |s| <= |r| <= 4 * |s|
  {
    if s == [] then [] else EncodeChar(s[0]) + Encode(s[1..])
  }

  const Replacement: char := 0xFFFD as char

  function Value2(b0: byte, b1: byte): int { (b0 - 0xC0) * 64 + (b1 - 0x80) }
  function Value3(b0: byte, b1: byte, b2: byte): int { (b0 - 0xE0) * 4096 + (b1 - 0x80) * 64 + (b2 - 0x80) }
  function Value4(b0: byte, b1: byte, b2: byte, b3: byte): int
  {
    (b0 - 0xF0) * 262144 + (b1 - 0x80) * 4096 + (b2 - 0x80) * 64 + (b3 - 0x80)
  }

  predicate IsScalar(v: int) { 0 <= v < 0xD800 || 0xE000 <= v < 0x110000 }

  /** The character at the front of b and how many bytes it takes. */
  function DecodeFirst(b: seq<byte>): (r: (char, nat))
    requires |b| > 0
    ensures 1 <= r.1 <= |b| && r.1 <= 4
    ensures r.0 == ':' <==> b[0] == ':' as int
    ensures forall i :: 1 <= i < r.1 ==> IsContinuation(b[i])
  {
    if b[0] < 0x80 then (b[0] as char, 1)
    else if 0xC2 <= b[0] < 0xE0 && |b| >= 2 && IsContinuation(b[1]) then
      (Value2(b[0], b[1]) as char, 2)
    else if 0xE0 <= b[0] < 0xF0 && |b| >= 3 && IsContinuation(b[1]) && IsContinuation(b[2])
      && 0x800 <= Value3(b[0], b[1], b[2]) && IsScalar(Value3(b[0], b[1], b[2])) then
      (Value3(b[0], b[1], b[2]) as char, 3)
    else if 0xF0 <= b[0] < 0xF5 && |b| >= 4 && IsContinuation(b[1]) && IsContinuation(b[2]) && IsContinuation(b[3])
      && 0x10000 <= Value4(b[0], b[1], b[2], b[3]) < 0x110000 then
      (Value4(b[0], b[1], b[2], b[3]) as char, 4)
    else (Replacement, 1)
  }

  /** new String(b, UTF_8): one character for every one to four bytes. */
  function Decode(b: seq<byte>): (s: string)
    ensures |s| <= |b| <= 4 * |s|
    decreases |b|
  {
    if b == [] then [] else [DecodeFirst(b).0] + Decode(b[DecodeFirst(b).1..])
  }

  lemma DecodeFirstEncodeChar(c: char, rest: seq<byte>)
    ensures DecodeFirst(EncodeChar(c) + rest) == (c, |EncodeChar(c)|)
  {
    var n := c as int;
    if n < 0x80 {
    } else if n < 0x800 {
      DecodeTwoByteChar(c, rest);
    } else if n < 0x10000 {
      DecodeThreeByteChar(c, rest);
    } else {
      DecodeFourByteChar(c, rest);
    }
  }

  /** Two-byte characters are read back whatever bytes follow. */
  lemma DecodeTwoByteChar(c: char, rest: seq<byte>)
    requires 0x80 <= c as int < 0x800
    ensures DecodeFirst(EncodeChar(c) + rest) == (c, 2)
  {
    var n := c as int;
    var b := EncodeChar(c) + rest;
    assert b[0] == 0xC0 + n / 64 && b[1] == 0x80 + n % 64;
    assert Value2(b[0], b[1]) == n;
  }

  /** Three-byte characters are read back whatever bytes follow. */
  lemma DecodeThreeByteChar(c: char, rest: seq<byte>)
    requires 0x800 <= c as int < 0x10000
    ensures DecodeFirst(EncodeChar(c) + rest) == (c, 3)
  {
    var n := c as int;
    var b := EncodeChar(c) + rest;
    assert b[0] == 0xE0 + n / 4096 && b[1] == 0x80 + (n / 64) % 64 && b[2] == 0x80 + n % 64;
    assert Value3(b[0], b[1], b[2]) == n;
  }

  /** Four-byte characters are read back whatever bytes follow. */
  lemma DecodeFourByteChar(c: char, rest: seq<byte>)
    requires 0x10000 <= c as int
    ensures DecodeFirst(EncodeChar(c) + rest) == (c, 4)
  {
    var n := c as int;
    var b := EncodeChar(c) + rest;
    var q1, q2, q3 := n / 64, n / 4096, n / 262144;
    assert q2 == q1 / 64 && q3 == q2 / 64;
    assert n == q1 * 64 + n % 64 && q1 == q2 * 64 + q1 % 64 && q2 == q3 * 64 + q2 % 64;
    assert b[0] == 0xF0 + q3 && b[1] == 0x80 + q2 % 64 && b[2] == 0x80 + q1 % 64 && b[3] == 0x80 + n % 64;
    assert Value4(b[0], b[1], b[2], b[3]) == n;
  }

  /** new String(s.getBytes()) gives s back. */
  lemma {:induction false} DecodeEncode(s: string)
    ensures Decode(Encode(s)) == s
  {
    if s != [] {
      var b := Encode(s);
      assert b == EncodeChar(s[0]) + Encode(s[1..]);
      DecodeFirstEncodeChar(s[0], Encode(s[1..]));
      assert b[|EncodeChar(s[0])|..] == Encode(s[1..]);
      DecodeEncode(s[1..]);
    }
  }

  /** The decoded text contains ':' exactly when the bytes contain 0x3A: a
      multi-byte sequence never hides that byte, and nothing else decodes to
      ':'. */
  lemma {:induction false} DecodeHasColonIff(b: seq<byte>)
    ensures ':' in Decode(b) <==> ':' as int in b
    decreases |b|
  {
    if b != [] {
      var (c, k) := DecodeFirst(b);
      assert Decode(b) == [c] + Decode(b[k..]);
      DecodeHasColonIff(b[k..]);
      assert b == b[..k] + b[k..];
      if ':' as int in b[..k] {
        var i :| 0 <= i < k && b[..k][i] == ':' as int;
        assert i == 0;
      }
    }
  }

  /** An encoded text contains the byte 0x3A exactly where the text has ':'. */
  lemma {:induction false} EncodeHasColonIff(s: string)
    ensures ':' as int in Encode(s) <==> ':' in s
  {
    if s != [] {
      EncodeHasColonIff(s[1..]);
      assert Encode(s) == EncodeChar(s[0]) + Encode(s[1..]);
      assert s == [s[0]] + s[1..];
    }
  }
}
