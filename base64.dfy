/** Base64 as java.util.Base64's basic encoder and decoder implement it: the
    alphabet of Table 1 in section 4 of RFC 4648, with '=' padding on
    encoding. The decoder accepts a final unit of two or three characters
    with or without its padding, rejects a lone final character, any
    character outside the alphabet, wrong padding and anything after the
    padding, and (like Java's) does not insist that the unused low bits of
    the last character are zero. */
module Base64 {
  import opened Wrappers
  import opened Bytes

  type sextet = x: int | 0 <= x < 64

  predicate IsAlphabetChar(c: char)
  {
    'A' <= c <= 'Z' || 'a' <= c <= 'z' || '0' <= c <= '9' || c == '+' || c == '/'
  }

  /** Table 1 of RFC 4648: the character for a 6-bit value. */
  function SextetChar(i: sextet): (c: char)
    ensures IsAlphabetChar(c)
  {
    if i < 26 then ('A' as int + i) as char
    else if i < 52 then ('a' as int + (i - 26)) as char
    else if i < 62 then ('0' as int + (i - 52)) as char
    else if i == 62 then '+'
    else '/'
  }

  /** The inverse of Table 1; None for a character outside the alphabet
      (the padding character '=' included). */
  function CharSextet(c: char): (r: Option<sextet>)
    ensures r.Some? <==> IsAlphabetChar(c)
    ensures r.Some? ==> SextetChar(r.value) == c
  {
    if 'A' <= c <= 'Z' then Some(c as int - 'A' as int)
    else if 'a' <= c <= 'z' then Some(c as int - 'a' as int + 26)
    else if '0' <= c <= '9' then Some(c as int - '0' as int + 52)
    else if c == '+' then Some(62)
    else if c == '/' then Some(63)
    else None
  }

  lemma SextetRoundTrip(i: sextet)
    ensures CharSextet(SextetChar(i)) == Some(i)
  {
  }

  /** The encoded text is made of whole four-character units, each of the
      alphabet except for padding at the very end. */
  predicate WellFormedEncoding(s: string)
  {
    && |s| % 4 == 0
    && (forall i :: 0 <= i < |s| ==> IsAlphabetChar(s[i]) || (s[i] == '=' && i >= |s| - 2))
    && (|s| >= 2 && s[|s| - 2] == '=' ==> s[|s| - 1] == '=')
  }

  /** Three bytes as four characters (section 4 of RFC 4648). */
  function EncodeUnit(b0: byte, b1: byte, b2: byte): string
  {
    [SextetChar(b0 / 4), SextetChar((b0 % 4) * 16 + b1 / 16),
     SextetChar((b1 % 16) * 4 + b2 / 64), SextetChar(b2 % 64)]
  }

  /** Base64.getEncoder().encodeToString(bytes). */
  function Encode(b: seq<byte>): (s: string)
    ensures |s| == (|b| + 2) / 3 * 4
    decreases |b|
  {
    if |b| == 0 then ""
    else if |b| <= 2 then EncodeFinal(b)
    else EncodeUnit(b[0], b[1], b[2]) + Encode(b[3..])
  }

  /** The last one or two bytes as a padded unit: two characters and "=="
      for one byte, three characters and "=" for two. */
  function EncodeFinal(b: seq<byte>): (s: string)
    requires 1 <= |b| <= 2
    ensures |s| == 4 && WellFormedEncoding(s)
    ensures s[3] == '=' && (s[2] == '=' <==> |b| == 1)
  {
    if |b| == 1 then [SextetChar(b[0] / 4), SextetChar((b[0] % 4) * 16), '=', '=']
    else [SextetChar(b[0] / 4), SextetChar((b[0] % 4) * 16 + b[1] / 16), SextetChar((b[1] % 16) * 4), '=']
  }

  /** A unit of four alphabet characters in front of a well-formed encoding
      keeps it well formed. */
  lemma UnitThenEncoding(unit: string, rest: string)
    requires |unit| == 4 && forall i :: 0 <= i < 4 ==> IsAlphabetChar(unit[i])
    requires WellFormedEncoding(rest)
    ensures WellFormedEncoding(unit + rest)
  {
    var s := unit + rest;
    forall i | 0 <= i < |s|
      ensures IsAlphabetChar(s[i]) || (s[i] == '=' && i >= |s| - 2)
    {
      if i >= 4 {
        assert s[i] == rest[i - 4];
      }
    }
    if |rest| == 0 {
      assert s == unit;
    } else {
      assert s[|s| - 2] == rest[|rest| - 2] && s[|s| - 1] == rest[|rest| - 1];
    }
  }

  function Byte0(i0: sextet, i1: sextet): byte { i0 * 4 + i1 / 16 }
  function Byte1(i1: sextet, i2: sextet): byte { (i1 % 16) * 16 + i2 / 4 }
  function Byte2(i2: sextet, i3: sextet): byte { (i2 % 4) * 64 + i3 }

  /** The encoder's output is well formed: whole units of the alphabet with
      padding only at the very end. */
  lemma {:induction false} EncodeWellFormed(b: seq<byte>)
    ensures WellFormedEncoding(Encode(b))
    decreases |b|
  {
    if |b| >= 3 {
      EncodeWellFormed(b[3..]);
      UnitThenEncoding(EncodeUnit(b[0], b[1], b[2]), Encode(b[3..]));
    }
  }

  /** Four alphabet characters as the three bytes of their 24 bits; None
      when one of them is outside the alphabet. */
  function DecodeUnit(c0: char, c1: char, c2: char, c3: char): (r: Option<seq<byte>>)
    ensures r.Some? <==> IsAlphabetChar(c0) && IsAlphabetChar(c1) && IsAlphabetChar(c2) && IsAlphabetChar(c3)
  {
    if CharSextet(c0).None? || CharSextet(c1).None? || CharSextet(c2).None? || CharSextet(c3).None? then None
    else
      var i0, i1, i2, i3 := CharSextet(c0).value, CharSextet(c1).value, CharSextet(c2).value, CharSextet(c3).value;
      Some([Byte0(i0, i1), Byte1(i1, i2), Byte2(i2, i3)])
  }

  /** The decoder on a text that does not start with four alphabet
      characters: a last unit of two or three characters, padded or not, or
      a rejection. */
  function DecodeLast(s: string): (r: Option<seq<byte>>)
    requires |s| > 0
    ensures |s| > 4 ==> r.None?
  {
    if |s| == 1 then None
    else if CharSextet(s[0]).None? || CharSextet(s[1]).None? then None
    else
      var i0, i1 := CharSextet(s[0]).value, CharSextet(s[1]).value;
      if |s| == 2 then Some([Byte0(i0, i1)])
      else if s[2] == '=' then
        (if |s| == 4 && s[3] == '=' then Some([Byte0(i0, i1)]) else None)
      else if CharSextet(s[2]).None? then None
      else
        var i2 := CharSextet(s[2]).value;
        if |s| == 3 then Some([Byte0(i0, i1), Byte1(i1, i2)])
        else if s[3] == '=' then
          (if |s| == 4 then Some([Byte0(i0, i1), Byte1(i1, i2)]) else None)
        else None
  }

  /** Base64.getDecoder().decode(s): None where Java throws
      IllegalArgumentException. Whole units are decoded one after the other
      until the text ends or a unit is not four alphabet characters. */
  function Decode(s: string): (r: Option<seq<byte>>)
    ensures r.Some? ==> |s| % 4 != 1 && 4 * |r.value| <= 3 * |s| < 4 * |r.value| + 12
    ensures r.Some? ==> forall i :: 0 <= i < |s| ==> IsAlphabetChar(s[i]) || s[i] == '='
    decreases |s|
  {
    if |s| == 0 then Some([])
    else if |s| >= 4 && DecodeUnit(s[0], s[1], s[2], s[3]).Some? then
      match Decode(s[4..])
      case None => None
      case Some(rest) => Some(DecodeUnit(s[0], s[1], s[2], s[3]).value + rest)
    else DecodeLast(s)
  }

  /** A unit decodes to the three bytes it encodes. */
  lemma DecodeEncodedUnit(b0: byte, b1: byte, b2: byte)
    ensures var u := EncodeUnit(b0, b1, b2); DecodeUnit(u[0], u[1], u[2], u[3]) == Some([b0, b1, b2])
  {
    var i0, i1, i2, i3 := b0 / 4, (b0 % 4) * 16 + b1 / 16, (b1 % 16) * 4 + b2 / 64, b2 % 64;
    SextetRoundTrip(i0);
    SextetRoundTrip(i1);
    SextetRoundTrip(i2);
    SextetRoundTrip(i3);
    assert Byte0(i0, i1) == b0;
    assert Byte1(i1, i2) == b1;
    assert Byte2(i2, i3) == b2;
  }

  lemma DecodeOneByte(b0: byte)
    ensures Decode(Encode([b0])) == Some([b0])
  {
    SextetRoundTrip(b0 / 4);
    SextetRoundTrip((b0 % 4) * 16);
  }

  lemma DecodeTwoBytes(b0: byte, b1: byte)
    ensures Decode(Encode([b0, b1])) == Some([b0, b1])
  {
    var i0, i1, i2 := b0 / 4, (b0 % 4) * 16 + b1 / 16, (b1 % 16) * 4;
    SextetRoundTrip(i0);
    SextetRoundTrip(i1);
    SextetRoundTrip(i2);
    assert Encode([b0, b1]) == [SextetChar(i0), SextetChar(i1), SextetChar(i2), '='];
    assert Byte0(i0, i1) == b0;
    assert Byte1(i1, i2) == b1;
  }

  /** A whole unit in front of a text that decodes to the remaining bytes
      decodes to all of them. */
  lemma DecodeUnitPrefix(b: seq<byte>, s: string, rest: string)
    requires |b| >= 3
    requires s == EncodeUnit(b[0], b[1], b[2]) + rest
    requires Decode(rest) == Some(b[3..])
    ensures Decode(s) == Some(b)
  {
    assert b == [b[0], b[1], b[2]] + b[3..];
    DecodeEncodedUnit(b[0], b[1], b[2]);
    assert s[4..] == rest;
  }

  /** The round trip on a text of one padded unit. */
  lemma DecodeFinal(b: seq<byte>)
    requires 1 <= |b| <= 2
    ensures Decode(Encode(b)) == Some(b)
  {
    if |b| == 1 {
      assert b == [b[0]];
      DecodeOneByte(b[0]);
    } else {
      assert b == [b[0], b[1]];
      DecodeTwoBytes(b[0], b[1]);
    }
  }

  /** Encoding three or more bytes puts the unit of the first three in
      front of the encoding of the rest. */
  lemma EncodeUnitFirst(b: seq<byte>)
    requires |b| >= 3
    ensures Encode(b) == EncodeUnit(b[0], b[1], b[2]) + Encode(b[3..])
  {
  }

  /** Decoding undoes encoding: every byte string survives the round trip. */
  lemma {:induction false} DecodeEncode(b: seq<byte>)
    ensures Decode(Encode(b)) == Some(b)
    decreases |b|
  {
    if 1 <= |b| <= 2 {
      DecodeFinal(b);
    } else if |b| >= 3 {
      DecodeEncode(b[3..]);
      EncodeUnitFirst(b);
      DecodeUnitPrefix(b, Encode(b), Encode(b[3..]));
    }
  }

  /** The test vectors of section 10 of RFC 4648 for "f" and "fo". */
  lemma Rfc4648ShortVectors()
    ensures Encode([102]) == "Zg=="
    ensures Encode([102, 111]) == "Zm8="
  {
    assert SextetChar(25) == 'Z' && SextetChar(32) == 'g';
    assert SextetChar(38) == 'm' && SextetChar(60) == '8';
  }

  /** The test vector of section 10 of RFC 4648 for "foo": one whole unit. */
  lemma Rfc4648Foo(foo: seq<byte>)
    requires foo == [102, 111, 111]
    ensures Encode(foo) == "Zm9v"
  {
    assert EncodeUnit(foo[0], foo[1], foo[2]) == "Zm9v" by {
      assert foo[0] / 4 == 25 && (foo[0] % 4) * 16 + foo[1] / 16 == 38;
      assert (foo[1] % 16) * 4 + foo[2] / 64 == 61 && foo[2] % 64 == 47;
      assert SextetChar(25) == 'Z' && SextetChar(38) == 'm' && SextetChar(61) == '9' && SextetChar(47) == 'v';
    }
    EncodeUnitFirst(foo);
    assert foo[3..] == [];
  }

  /** The second unit of the "foobar" vector: "bar" encodes to "YmFy". */
  lemma Rfc4648Bar(bar: seq<byte>)
    requires bar == [98, 97, 114]
    ensures Encode(bar) == "YmFy"
  {
    assert EncodeUnit(bar[0], bar[1], bar[2]) == "YmFy" by {
      assert bar[0] / 4 == 24 && (bar[0] % 4) * 16 + bar[1] / 16 == 38;
      assert (bar[1] % 16) * 4 + bar[2] / 64 == 5 && bar[2] % 64 == 50;
      assert SextetChar(24) == 'Y' && SextetChar(38) == 'm' && SextetChar(5) == 'F' && SextetChar(50) == 'y';
    }
    EncodeUnitFirst(bar);
    assert bar[3..] == [];
  }

  /** The test vector of section 10 of RFC 4648 for "foobar": its two
      units one after the other. */
  lemma Rfc4648Foobar(foobar: seq<byte>)
    requires foobar == [102, 111, 111, 98, 97, 114]
    ensures Encode(foobar) == "Zm9vYmFy"
  {
    var bar := foobar[3..];
    assert bar == [98, 97, 114];
    Rfc4648Bar(bar);
    EncodeUnitFirst(foobar);
    assert EncodeUnit(foobar[0], foobar[1], foobar[2]) == "Zm9v" by {
      Rfc4648Foo(foobar[..3]);
      EncodeUnitFirst(foobar[..3]);
    }
  }

  /** "Zm9vYmFy" decodes back to "foobar". */
  lemma Rfc4648FoobarDecodes(foobar: seq<byte>)
    requires foobar == [102, 111, 111, 98, 97, 114]
    ensures Decode("Zm9vYmFy") == Some(foobar)
  {
    Rfc4648Foobar(foobar);
    DecodeEncode(foobar);
  }
}
