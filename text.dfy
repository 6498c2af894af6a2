/** String helpers shared by the frontend and the backend models: case
    mapping (JavaScript's toLowerCase and Java's toUpperCase, for the
    characters whose mapping involves an ASCII letter),
    JavaScript's UTF-16 length, decimal rendering of a Java long, the tail
    slice of String.prototype.slice(-n), the text before a separator, and
    Java's notion of a blank string. */
module Text {

  predicate IsUpperAscii(c: char) { 'A' <= c <= 'Z' }
  predicate IsLowerAscii(c: char) { 'a' <= c <= 'z' }
  predicate IsDigitAscii(c: char) { '0' <= c <= '9' }

  /** KELVIN SIGN, the one character outside ASCII whose lower case is an
      ASCII letter. */
  const KelvinSign: char := '\U{212A}'

  function LowerChar(c: char): (d: char)
    ensures IsUpperAscii(c) ==> IsLowerAscii(d) && d as int == c as int + 32
    ensures c == KelvinSign ==> d == 'k'
    ensures !IsUpperAscii(c) && c != KelvinSign ==> d == c
    ensures !IsUpperAscii(d) && d != KelvinSign
  {
    if IsUpperAscii(c) then (c as int + 32) as char
    else if c == KelvinSign then 'k'
    else c
  }

  /** s.toLowerCase(), for the letters LowerChar maps. */
  function ToLower(s: string): (r: string)
    ensures |r| == |s|
    ensures forall i :: 0 <= i < |s| ==> r[i] == LowerChar(s[i])
  {
    seq(|s|, i requires 0 <= i < |s| => LowerChar(s[i]))
  }

  /** The non-ASCII characters whose upper case UpperChars spells out. */
  predicate HasSpecialUpper(c: char)
  {
    || c == '\U{0131}' || c == '\U{017F}' || c == '\U{00DF}'
    || ('\U{FB00}' <= c <= '\U{FB06}')
    || c == '\U{0149}' || c == '\U{01F0}' || ('\U{1E96}' <= c <= '\U{1E9A}')
  }

  /** Java's toUpperCase of one character, for every character whose upper
      case holds an ASCII letter: the ASCII lower-case letters, dotless i,
      long s, sharp s, the Latin ligatures U+FB00 to U+FB06, and the seven
      letters of Unicode's SpecialCasing that upper-case to an ASCII letter
      with a modifier or combining mark (U+0149, U+01F0, U+1E96 to U+1E9A).
      Any other character is kept as it is. */
  function UpperChars(c: char): (u: string)
    ensures 1 <= |u| <= 3
    ensures IsLowerAscii(c) ==> u == [(c as int - 32) as char] && IsUpperAscii(u[0])
    ensures !IsLowerAscii(c) && !HasSpecialUpper(c) ==> u == [c]
    ensures forall i :: 0 <= i < |u| ==> !IsLowerAscii(u[i]) && !HasSpecialUpper(u[i])
  {
    if IsLowerAscii(c) then [(c as int - 32) as char]
    else if c == '\U{0131}' then "I"
    else if c == '\U{017F}' then "S"
    else if c == '\U{00DF}' then "SS"
    else if c == '\U{FB00}' then "FF"
    else if c == '\U{FB01}' then "FI"
    else if c == '\U{FB02}' then "FL"
    else if c == '\U{FB03}' then "FFI"
    else if c == '\U{FB04}' then "FFL"
    else if c == '\U{FB05}' || c == '\U{FB06}' then "ST"
    else if c == '\U{0149}' then ['\U{02BC}', 'N']
    else if c == '\U{01F0}' then ['J', '\U{030C}']
    else if c == '\U{1E96}' then ['H', '\U{0331}']
    else if c == '\U{1E97}' then ['T', '\U{0308}']
    else if c == '\U{1E98}' then ['W', '\U{030A}']
    else if c == '\U{1E99}' then ['Y', '\U{030A}']
    else if c == '\U{1E9A}' then ['A', '\U{02BE}']
    else [c]
  }

  /** s.toUpperCase() in Java, character by character. */
  function ToUpper(s: string): (r: string)
    ensures |s| <= |r| <= 3 * |s|
    ensures forall i :: 0 <= i < |r| ==> !IsLowerAscii(r[i])
  {
    if s == [] then [] else UpperChars(s[0]) + ToUpper(s[1..])
  }

  lemma {:induction false} ToUpperAppend(a: string, b: string)
    ensures ToUpper(a + b) == ToUpper(a) + ToUpper(b)
  {
    if a == [] {
      assert a + b == b;
    } else {
      assert (a + b)[0] == a[0];
      assert (a + b)[1..] == a[1..] + b;
      ToUpperAppend(a[1..], b);
    }
  }

  /** Upper-casing a word of ASCII lower-case letters, given letter by
      letter. */
  lemma {:induction false} ToUpperAsciiIs(s: string, t: string)
    requires |s| == |t|
    requires forall i :: 0 <= i < |s| ==> IsLowerAscii(s[i]) && t[i] as int == s[i] as int - 32
    ensures ToUpper(s) == t
  {
    if s != [] {
      ToUpperAsciiIs(s[1..], t[1..]);
      assert t == [t[0]] + t[1..];
    }
  }

  /** The upper case of one character is already upper case. */
  lemma UpperCharsStable(c: char)
    ensures ToUpper(UpperChars(c)) == UpperChars(c)
  {
    var u := UpperChars(c);
    assert ToUpper(u) == UpperChars(u[0]) + ToUpper(u[1..]);
    if |u| >= 2 {
      assert ToUpper(u[1..]) == UpperChars(u[1]) + ToUpper(u[2..]);
    }
    if |u| == 3 {
      assert ToUpper(u[2..]) == UpperChars(u[2]) + ToUpper([]);
    }
  }

  /** Upper-casing twice is upper-casing once. */
  lemma {:induction false} ToUpperIdempotent(s: string)
    ensures ToUpper(ToUpper(s)) == ToUpper(s)
  {
    if s != [] {
      UpperCharsStable(s[0]);
      ToUpperAppend(UpperChars(s[0]), ToUpper(s[1..]));
      ToUpperIdempotent(s[1..]);
    }
  }

  /** Two strings that differ at most in the case of ASCII letters. */
  predicate EqualIgnoringCase(a: string, b: string)
  {
    |a| == |b| && forall i :: 0 <= i < |a| ==> LowerChar(a[i]) == LowerChar(b[i])
  }

  /** Lower-casing twice is lower-casing once: a key that is already lower
      case is its own key. */
  lemma ToLowerIdempotent(s: string)
    ensures ToLower(ToLower(s)) == ToLower(s)
  {
    ToLowerIs(ToLower(s), ToLower(s));
  }

  /** The lower case of s, given character by character. */
  lemma ToLowerIs(s: string, t: string)
    requires |s| == |t|
    requires forall i :: 0 <= i < |s| ==> LowerChar(s[i]) == t[i]
    ensures ToLower(s) == t
  {
  }

  /** Lower-cased keys agree exactly when the strings differ only in case. */
  lemma ToLowerEqualIff(a: string, b: string)
    ensures ToLower(a) == ToLower(b) <==> EqualIgnoringCase(a, b)
  {
    if EqualIgnoringCase(a, b) {
      assert forall i :: 0 <= i < |a| ==> ToLower(a)[i] == ToLower(b)[i];
    }
    if ToLower(a) == ToLower(b) {
      assert forall i :: 0 <= i < |a| ==> LowerChar(a[i]) == ToLower(a)[i] == ToLower(b)[i] == LowerChar(b[i]);
    }
  }

  /** The number of UTF-16 code units of s, which is what JavaScript's
      .length and Java's length() count: characters outside the basic
      multilingual plane take two. */
  function Utf16Length(s: string): (n: nat)
    ensures |s| <= n <= 2 * |s|
  {
    if s == [] then 0
    else (if s[0] as int >= 0x10000 then 2 else 1) + Utf16Length(s[1..])
  }

  /** A string of characters from the basic multilingual plane has one
      UTF-16 unit per character. */
  lemma {:induction false} Utf16LengthBmp(s: string)
    requires forall i :: 0 <= i < |s| ==> s[i] as int < 0x10000
    ensures Utf16Length(s) == |s|
  {
    if s != [] {
      Utf16LengthBmp(s[1..]);
    }
  }

  function DigitChar(d: int): (c: char)
    requires 0 <= d < 10
    ensures IsDigitAscii(c)
  {
    ('0' as int + d) as char
  }

  /** The decimal digits of n, most significant first. */
  function NatDigits(n: nat): (r: string)
    ensures |r| > 0
    ensures forall i :: 0 <= i < |r| ==> IsDigitAscii(r[i])
  {
    if n < 10 then [DigitChar(n)] else NatDigits(n / 10) + [DigitChar(n % 10)]
  }

  /** Long.toString(n) and JavaScript's n.toString() for an integer. */
  function Decimal(n: int): (r: string)
    ensures |r| > 0
    ensures forall i :: 0 <= i < |r| ==> IsDigitAscii(r[i]) || (i == 0 && r[i] == '-')
  {
    if n < 0 then "-" + NatDigits(-n) else NatDigits(n)
  }

  /** The number a string of decimal digits denotes, most significant
      first. */
  function DigitsValue(s: string): nat
    requires forall i :: 0 <= i < |s| ==> IsDigitAscii(s[i])
  {
    if s == [] then 0
    else
      assert IsDigitAscii(s[|s| - 1]);
      DigitsValue(s[..|s| - 1]) * 10 + (s[|s| - 1] as int - '0' as int)
  }

  /** The last digit of n's rendering is n's last decimal digit. */
  lemma NatDigitsLast(n: nat)
    ensures NatDigits(n)[|NatDigits(n)| - 1] == DigitChar(n % 10)
  {
  }

  /** Reading the rendering of n back gives n. */
  lemma {:induction false} NatDigitsValue(n: nat)
    ensures DigitsValue(NatDigits(n)) == n
  {
    if n >= 10 {
      var r := NatDigits(n);
      assert r[..|r| - 1] == NatDigits(n / 10);
      NatDigitsValue(n / 10);
    }
  }

  /** Decimal renders n: without a sign and reading back to n when n is not
      negative, with '-' and the digits of -n otherwise. */
  lemma DecimalValue(n: int)
    ensures n >= 0 ==> Decimal(n)[0] != '-' && DigitsValue(Decimal(n)) == n
    ensures n < 0 ==> Decimal(n)[0] == '-' && DigitsValue(Decimal(n)[1..]) == -n
  {
    if n >= 0 {
      NatDigitsValue(n);
    } else {
      assert Decimal(n)[1..] == NatDigits(-n);
      NatDigitsValue(-n);
    }
  }

  /** s.slice(-n) for n > 0: the last n characters, or all of s when it is
      shorter. */
  function LastChars(s: string, n: nat): (r: string)
    ensures |r| == if |s| < n then |s| else n
    ensures s == s[..|s| - |r|] + r
  {
    if |s| <= n then s else s[|s| - n..]
  }

  /** The text of s before the first occurrence of sep, or all of s. */
  function PrefixBefore(s: string, sep: char): (r: string)
    ensures sep !in r
    ensures |r| <= |s| && r == s[..|r|]
    ensures |r| < |s| ==> s[|r|] == sep
  {
    if s == [] then []
    else if s[0] == sep then []
    else [s[0]] + PrefixBefore(s[1..], sep)
  }

  /** Whatever follows a separator appended to a does not change the text
      before the first separator. */
  lemma {:induction false} PrefixBeforeAppend(a: string, sep: char, rest: string)
    ensures PrefixBefore(a + [sep] + rest, sep) == PrefixBefore(a, sep)
  {
    if a != [] && a[0] != sep {
      assert (a + [sep] + rest)[1..] == a[1..] + [sep] + rest;
      PrefixBeforeAppend(a[1..], sep, rest);
    }
  }

  /** Without the separator, the text before it is everything. */
  lemma {:induction false} PrefixBeforeAbsent(s: string, sep: char)
    requires sep !in s
    ensures PrefixBefore(s, sep) == s
  {
    if s != [] {
      assert sep !in s[1..];
      PrefixBeforeAbsent(s[1..], sep);
    }
  }

  /** Java's notion of blank used by @NotBlank: what remains after trim(),
      which drops every character up to U+0020 from both ends, is empty. */
  predicate IsBlank(s: string)
  {
    forall i :: 0 <= i < |s| ==> s[i] <= ' '
  }
}
