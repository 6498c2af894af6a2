/** Java's String.hashCode: the UTF-16 code units of the string folded with
    h = 31 * h + unit in 32-bit two's complement arithmetic. */
module JavaString {
  import Text

  const TwoTo32: int := 0x1_0000_0000
  const TwoTo31: int := 0x8000_0000

  /** The UTF-16 code units of a character: itself in the basic multilingual
      plane, otherwise its high and low surrogates. */
  function CharUnits(c: char): (u: seq<int>)
    ensures |u| == if c as int >= 0x10000 then 2 else 1
    ensures forall i :: 0 <= i < |u| ==> 0 <= u[i] < 0x10000
  {
    if c as int < 0x10000 then [c as int]
    else
      var v := c as int - 0x10000;
      [0xD800 + v / 0x400, 0xDC00 + v % 0x400]
  }

  function Units(s: string): (u: seq<int>)
    ensures |u| == Text.Utf16Length(s)
    ensures forall i :: 0 <= i < |u| ==> 0 <= u[i] < 0x10000
  {
    if s == [] then [] else CharUnits(s[0]) + Units(s[1..])
  }

  /** The 32-bit pattern of the hash of units, as an unsigned number. */
  function HashBits(units: seq<int>): (h: int)
    ensures 0 <= h < TwoTo32
  {
    if units == [] then 0
    else (31 * HashBits(units[..|units| - 1]) + units[|units| - 1]) % TwoTo32
  }

  /** The int a 32-bit pattern stands for. */
  function ToInt32(bits: int): (r: int)
    requires 0 <= bits < TwoTo32
    ensures -TwoTo31 <= r < TwoTo31
    ensures (bits - r) % TwoTo32 == 0
  {
    if bits < TwoTo31 then bits else bits - TwoTo32
  }

  function HashCode(s: string): (h: int)
    ensures -TwoTo31 <= h < TwoTo31
  {
    ToInt32(HashBits(Units(s)))
  }

  /** Appending one code unit multiplies the previous hash by 31 and adds
      the unit, modulo 2^32. */
  lemma HashAppend(units: seq<int>, unit: int)
    ensures HashBits(units + [unit]) == (31 * HashBits(units) + unit) % TwoTo32
  {
    assert (units + [unit])[..|units|] == units;
  }

  /** Values from the definition: the empty string hashes to 0, "a" to 97,
      "ab" to 31 * 97 + 98. */
  lemma HashCodeExamples()
    ensures HashCode("") == 0
    ensures HashCode("a") == 97
    ensures HashCode("ab") == 3105
  {
    assert Units("a") == [97];
    assert Units("ab") == [97, 98] by {
      assert Units("ab") == CharUnits('a') + Units("b");
      assert Units("b") == [98];
    }
    HashAppend([97], 98);
    assert [97] + [98] == [97, 98];
  }
}
