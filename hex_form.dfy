/** The standard text form of an identifier (section 4 of RFC 9562): 32 hex
    digits, written lowercase in groups of 8-4-4-4-12 separated by hyphens, as
    `Uuid`'s `Display` writes it; and `Uuid::try_parse` restricted to the
    hyphenated form and the 32-digit "simple" form, in either letter case. */
module HexForm {
  import opened Outcomes
  import opened Uuids

  const HexAlphabet: string := "0123456789abcdef"

  /** The lowercase hex digit for the value `d`. */
  function HexDigit(d: nat): char
    requires d < 16
  {
    if d < 10 then ('0' as int + d) as char else ('a' as int + (d - 10)) as char
  }

  lemma HexDigitInAlphabet(d: nat)
    requires d < 16
    ensures HexDigit(d) == HexAlphabet[d]
  {
  }

  predicate IsLowerHexDigit(c: char)
  {
    '0' <= c <= '9' || 'a' <= c <= 'f'
  }

  predicate IsHexDigit(c: char)
  {
    IsLowerHexDigit(c) || 'A' <= c <= 'F'
  }

  /** The value of a hex digit of either case. */
  function HexValue(c: char): (d: nat)
    requires IsHexDigit(c)
    ensures d < 16
    ensures IsLowerHexDigit(c) ==> HexDigit(d) == c
  {
    if c <= '9' then c as int - '0' as int
    else if c <= 'F' then c as int - 'A' as int + 10
    else c as int - 'a' as int + 10
  }

  lemma HexValueOfDigit(d: nat)
    requires d < 16
    ensures IsLowerHexDigit(HexDigit(d)) && HexValue(HexDigit(d)) == d
  {
  }

  predicate AllHex(s: string)
  {
    forall i :: 0 <= i < |s| ==> IsHexDigit(s[i])
  }

  predicate AllLowerHex(s: string)
  {
    forall i :: 0 <= i < |s| ==> IsLowerHexDigit(s[i])
  }

  /** Each byte as two lowercase hex digits, high nibble first. */
  function HexOfBytes(bs: seq<Byte>): (s: string)
    ensures |s| == 2 * |bs|
  {
    if bs == [] then []
    else
      var b := bs[|bs| - 1];
      HexOfBytes(bs[..|bs| - 1]) + [HexDigit(b / 16), HexDigit(b % 16)]
  }

  lemma {:induction false} HexOfBytesIsLower(bs: seq<Byte>)
    ensures AllLowerHex(HexOfBytes(bs))
  {
    if bs != [] {
      var b := bs[|bs| - 1];
      HexOfBytesIsLower(bs[..|bs| - 1]);
      HexValueOfDigit(b / 16);
      HexValueOfDigit(b % 16);
    }
  }

  /** Each pair of hex digits as one byte. */
  function BytesOfHex(s: string): (bs: seq<Byte>)
    requires |s| % 2 == 0 && AllHex(s)
    ensures 2 * |bs| == |s|
  {
    if s == [] then []
    else
      var n := |s|;
      BytesOfHex(s[..n - 2]) + [HexValue(s[n - 2]) * 16 + HexValue(s[n - 1])]
  }

  lemma {:induction false} BytesOfHexOfBytes(bs: seq<Byte>)
    ensures AllHex(HexOfBytes(bs)) && BytesOfHex(HexOfBytes(bs)) == bs
  {
    if bs != [] {
      var b := bs[|bs| - 1];
      var s := HexOfBytes(bs);
      HexOfBytesIsLower(bs);
      HexValueOfDigit(b / 16);
      HexValueOfDigit(b % 16);
      assert s[..|s| - 2] == HexOfBytes(bs[..|bs| - 1]);
      BytesOfHexOfBytes(bs[..|bs| - 1]);
      assert bs == bs[..|bs| - 1] + [b];
    }
  }

  lemma HexOfBytesSnoc(bs: seq<Byte>, b: Byte)
    ensures HexOfBytes(bs + [b]) == HexOfBytes(bs) + [HexDigit(b / 16), HexDigit(b % 16)]
  {
    assert (bs + [b])[..|bs|] == bs;
  }

  /** Two lowercase hex digits are the digits of the byte they denote. */
  lemma HexPair(c: char, d: char)
    requires IsLowerHexDigit(c) && IsLowerHexDigit(d)
    ensures var b := HexValue(c) * 16 + HexValue(d);
      b < 256 && HexDigit(b / 16) == c && HexDigit(b % 16) == d
  {
    var hi, lo := HexValue(c), HexValue(d);
    assert (hi * 16 + lo) / 16 == hi;
    assert (hi * 16 + lo) % 16 == lo;
  }

  lemma {:induction false} HexOfBytesOfHex(s: string)
    requires |s| % 2 == 0 && AllLowerHex(s)
    ensures HexOfBytes(BytesOfHex(s)) == s
  {
    if s != [] {
      var n := |s|;
      var p, c, d := s[..n - 2], s[n - 2], s[n - 1];
      var b: Byte := HexValue(c) * 16 + HexValue(d);
      var bp := BytesOfHex(p);
      assert BytesOfHex(s) == bp + [b];
      calc {
        HexOfBytes(BytesOfHex(s));
        HexOfBytes(bp + [b]);
        { HexOfBytesSnoc(bp, b); }
        HexOfBytes(bp) + [HexDigit(b / 16), HexDigit(b % 16)];
        { assert AllLowerHex(p); HexOfBytesOfHex(p); HexPair(c, d); assert HexOfBytes(bp) == p; assert HexDigit(b / 16) == c; assert HexDigit(b % 16) == d; }
        p + [c, d];
        s;
      }
    }
  }

  /** The 32-digit form without hyphens (`Uuid::simple`). */
  function Simple(u: Uuid): (s: string)
    ensures |s| == 32
  {
    HexOfBytes(u.bytes)
  }

  /** The 8-4-4-4-12 form, what `Uuid`'s `to_string` returns. */
  function Hyphenated(u: Uuid): (s: string)
    ensures |s| == 36
  {
    var h := Simple(u);
    h[..8] + "-" + h[8..12] + "-" + h[12..16] + "-" + h[16..20] + "-" + h[20..]
  }

  /** Hyphens exactly at positions 8, 13, 18 and 23 of a 36-character string. */
  predicate HasHyphens(s: string)
  {
    |s| == 36 && s[8] == '-' && s[13] == '-' && s[18] == '-' && s[23] == '-'
  }

  /** The 32 characters between the hyphens. */
  function StripHyphens(s: string): (t: string)
    requires HasHyphens(s)
    ensures |t| == 32
  {
    s[..8] + s[9..13] + s[14..18] + s[19..23] + s[24..]
  }

  /** `Uuid::try_parse` on the two forms modelled here; its error is discarded by
      every caller, so only success is reported. */
  function TryParse(s: string): (r: Option<Uuid>)
    ensures r.Some? ==> |s| == 32 || |s| == 36
  {
    if |s| == 32 && AllHex(s) then Some(Uuid(BytesOfHex(s)))
    else if HasHyphens(s) && AllHex(StripHyphens(s)) then Some(Uuid(BytesOfHex(StripHyphens(s))))
    else None
  }

  /** The hyphenated form is 32 lowercase hex digits with the four hyphens in place. */
  lemma StripHyphenated(u: Uuid)
    ensures HasHyphens(Hyphenated(u)) && StripHyphens(Hyphenated(u)) == Simple(u)
    ensures AllLowerHex(StripHyphens(Hyphenated(u)))
  {
    HexOfBytesIsLower(u.bytes);
    var h := Simple(u);
    var s := Hyphenated(u);
    assert s[..8] == h[..8];
    assert s[9..13] == h[8..12];
    assert s[14..18] == h[12..16];
    assert s[19..23] == h[16..20];
    assert s[24..] == h[20..];
    assert h == h[..8] + h[8..12] + h[12..16] + h[16..20] + h[20..];
  }

  /** Every character of the hyphenated form is a hyphen or a lowercase hex digit. */
  lemma HyphenatedAlphabet(u: Uuid)
    ensures forall i :: 0 <= i < 36 ==> Hyphenated(u)[i] == '-' || IsLowerHexDigit(Hyphenated(u)[i])
  {
    var s := Hyphenated(u);
    var t := StripHyphens(s);
    StripHyphenated(u);
    forall i | 0 <= i < 36
      ensures s[i] == '-' || IsLowerHexDigit(s[i])
    {
      if i != 8 && i != 13 && i != 18 && i != 23 {
        var j := if i < 8 then i else if i < 13 then i - 1 else if i < 18 then i - 2 else if i < 23 then i - 3 else i - 4;
        assert s[i] == t[j];
      }
    }
  }

  /** Round trip: the hyphenated form parses back to the identifier. */
  lemma ParseHyphenated(u: Uuid)
    ensures TryParse(Hyphenated(u)) == Some(u)
  {
    StripHyphenated(u);
    BytesOfHexOfBytes(u.bytes);
  }

  /** Round trip: the 32-digit form parses back to the identifier. */
  lemma ParseSimple(u: Uuid)
    ensures TryParse(Simple(u)) == Some(u)
  {
    BytesOfHexOfBytes(u.bytes);
  }

  /** A hyphenated string without uppercase letters that parses is exactly the
      hyphenated form of what it parses to: that form is the only lowercase
      hyphenated spelling of an identifier. */
  lemma HyphenatedOfParse(s: string)
    requires HasHyphens(s) && TryParse(s).Some?
    requires forall i :: 0 <= i < |s| ==> !('A' <= s[i] <= 'F')
    ensures Hyphenated(TryParse(s).value) == s
  {
    var t := StripHyphens(s);
    assert AllLowerHex(t) by {
      forall i | 0 <= i < 32
        ensures IsLowerHexDigit(t[i])
      {
        var j := if i < 8 then i else if i < 12 then i + 1 else if i < 16 then i + 2 else if i < 20 then i + 3 else i + 4;
        assert t[i] == s[j];
      }
    }
    HexOfBytesOfHex(t);
    var h := Simple(TryParse(s).value);
    assert h == t;
    assert Hyphenated(TryParse(s).value) == s;
  }

  /** The hyphenated form inserts a hyphen after digits 8, 12, 16 and 20 of the simple form. */
  lemma HyphenatedGroups(u: Uuid, g1: string, g2: string, g3: string, g4: string, g5: string, s: string)
    requires |g1| == 8 && |g2| == 4 && |g3| == 4 && |g4| == 4 && |g5| == 12
    requires Simple(u) == g1 + g2 + g3 + g4 + g5
    requires s == g1 + "-" + g2 + "-" + g3 + "-" + g4 + "-" + g5
    ensures Hyphenated(u) == s
  {
    var h := Simple(u);
    assert h[..8] == g1 && h[8..12] == g2 && h[12..16] == g3 && h[16..20] == g4 && h[20..] == g5;
  }

  /** The hyphenated form of the 128-bit value 2107409058113878995600607032774715894. */
  lemma HyphenatedVector()
    ensures Hyphenated(FromU128(2107409058113878995600607032774715894)) == "0195df49-e046-7001-9e2b-cb0e098f69f6"
  {
    SimpleVector();
    HyphenatedVectorOfSimple(FromU128(2107409058113878995600607032774715894));
  }

  lemma HyphenatedVectorOfSimple(u: Uuid)
    requires Simple(u) == "0195df49" + "e046" + "7001" + "9e2b" + "cb0e098f69f6"
    ensures Hyphenated(u) == "0195df49-e046-7001-9e2b-cb0e098f69f6"
  {
    HyphenatedGroups(u, "0195df49", "e046", "7001", "9e2b", "cb0e098f69f6",
      "0195df49-e046-7001-9e2b-cb0e098f69f6");
  }

  lemma SimpleVector()
    ensures Simple(FromU128(2107409058113878995600607032774715894))
         == "0195df49" + "e046" + "7001" + "9e2b" + "cb0e098f69f6"
  {
    SimpleVectorBytes16();
  }

  lemma SimpleVectorBytes2()
    ensures HexOfBytes(ToBigEndian(405, 2)) == "0195"
  {
    assert ToBigEndian(1, 1) == ToBigEndian(0, 0) + [1];
    HexOfBytesSnoc(ToBigEndian(0, 0), 1);
    assert HexDigit(1 / 16) == '0' && HexDigit(1 % 16) == '1';
    assert HexOfBytes(ToBigEndian(1, 1)) == "" + "01";
    assert ToBigEndian(405, 2) == ToBigEndian(1, 1) + [149];
    HexOfBytesSnoc(ToBigEndian(1, 1), 149);
    assert HexDigit(149 / 16) == '9' && HexDigit(149 % 16) == '5';
    assert HexOfBytes(ToBigEndian(405, 2)) == "01" + "95";
  }

  lemma SimpleVectorBytes4()
    ensures HexOfBytes(ToBigEndian(26599241, 4)) == "0195df49"
  {
    SimpleVectorBytes2();
    assert ToBigEndian(103903, 3) == ToBigEndian(405, 2) + [223];
    HexOfBytesSnoc(ToBigEndian(405, 2), 223);
    assert HexDigit(223 / 16) == 'd' && HexDigit(223 % 16) == 'f';
    assert HexOfBytes(ToBigEndian(103903, 3)) == "0195" + "df";
    assert ToBigEndian(26599241, 4) == ToBigEndian(103903, 3) + [73];
    HexOfBytesSnoc(ToBigEndian(103903, 3), 73);
    assert HexDigit(73 / 16) == '4' && HexDigit(73 % 16) == '9';
    assert HexOfBytes(ToBigEndian(26599241, 4)) == "0195df" + "49";
  }

  lemma SimpleVectorBytes6()
    ensures HexOfBytes(ToBigEndian(1743207915590, 6)) == "0195df49e046"
  {
    SimpleVectorBytes4();
    assert ToBigEndian(6809405920, 5) == ToBigEndian(26599241, 4) + [224];
    HexOfBytesSnoc(ToBigEndian(26599241, 4), 224);
    assert HexDigit(224 / 16) == 'e' && HexDigit(224 % 16) == '0';
    assert HexOfBytes(ToBigEndian(6809405920, 5)) == "0195df49" + "e0";
    assert ToBigEndian(1743207915590, 6) == ToBigEndian(6809405920, 5) + [70];
    HexOfBytesSnoc(ToBigEndian(6809405920, 5), 70);
    assert HexDigit(70 / 16) == '4' && HexDigit(70 % 16) == '6';
    assert HexOfBytes(ToBigEndian(1743207915590, 6)) == "0195df49e0" + "46";
  }

  lemma SimpleVectorBytes8()
    ensures HexOfBytes(ToBigEndian(114242873956134913, 8)) == "0195df49e0467001"
  {
    SimpleVectorBytes6();
    assert ToBigEndian(446261226391152, 7) == ToBigEndian(1743207915590, 6) + [112];
    HexOfBytesSnoc(ToBigEndian(1743207915590, 6), 112);
    assert HexDigit(112 / 16) == '7' && HexDigit(112 % 16) == '0';
    assert HexOfBytes(ToBigEndian(446261226391152, 7)) == "0195df49e046" + "70";
    assert ToBigEndian(114242873956134913, 8) == ToBigEndian(446261226391152, 7) + [1];
    HexOfBytesSnoc(ToBigEndian(446261226391152, 7), 1);
    assert HexDigit(1 / 16) == '0' && HexDigit(1 % 16) == '1';
    assert HexOfBytes(ToBigEndian(114242873956134913, 8)) == "0195df49e04670" + "01";
  }

  lemma SimpleVectorBytes10()
    ensures HexOfBytes(ToBigEndian(7487020987589257698859, 10)) == "0195df49e04670019e2b"
  {
    SimpleVectorBytes8();
    assert ToBigEndian(29246175732770537886, 9) == ToBigEndian(114242873956134913, 8) + [158];
    HexOfBytesSnoc(ToBigEndian(114242873956134913, 8), 158);
    assert HexDigit(158 / 16) == '9' && HexDigit(158 % 16) == 'e';
    assert HexOfBytes(ToBigEndian(29246175732770537886, 9)) == "0195df49e0467001" + "9e";
    assert ToBigEndian(7487020987589257698859, 10) == ToBigEndian(29246175732770537886, 9) + [43];
    HexOfBytesSnoc(ToBigEndian(29246175732770537886, 9), 43);
    assert HexDigit(43 / 16) == '2' && HexDigit(43 % 16) == 'b';
    assert HexOfBytes(ToBigEndian(7487020987589257698859, 10)) == "0195df49e04670019e" + "2b";
  }

  lemma SimpleVectorBytes12()
    ensures HexOfBytes(ToBigEndian(490669407442649592552475406, 12)) == "0195df49e04670019e2bcb0e"
  {
    SimpleVectorBytes10();
    assert ToBigEndian(1916677372822849970908107, 11) == ToBigEndian(7487020987589257698859, 10) + [203];
    HexOfBytesSnoc(ToBigEndian(7487020987589257698859, 10), 203);
    assert HexDigit(203 / 16) == 'c' && HexDigit(203 % 16) == 'b';
    assert HexOfBytes(ToBigEndian(1916677372822849970908107, 11)) == "0195df49e04670019e2b" + "cb";
    assert ToBigEndian(490669407442649592552475406, 12) == ToBigEndian(1916677372822849970908107, 11) + [14];
    HexOfBytesSnoc(ToBigEndian(1916677372822849970908107, 11), 14);
    assert HexDigit(14 / 16) == '0' && HexDigit(14 % 16) == 'e';
    assert HexOfBytes(ToBigEndian(490669407442649592552475406, 12)) == "0195df49e04670019e2bcb" + "0e";
  }

  lemma SimpleVectorBytes14()
    ensures HexOfBytes(ToBigEndian(32156510286161483697519028210063, 14)) == "0195df49e04670019e2bcb0e098f"
  {
    SimpleVectorBytes12();
    assert ToBigEndian(125611368305318295693433703945, 13) == ToBigEndian(490669407442649592552475406, 12) + [9];
    HexOfBytesSnoc(ToBigEndian(490669407442649592552475406, 12), 9);
    assert HexDigit(9 / 16) == '0' && HexDigit(9 % 16) == '9';
    assert HexOfBytes(ToBigEndian(125611368305318295693433703945, 13)) == "0195df49e04670019e2bcb0e" + "09";
    assert ToBigEndian(32156510286161483697519028210063, 14) == ToBigEndian(125611368305318295693433703945, 13) + [143];
    HexOfBytesSnoc(ToBigEndian(125611368305318295693433703945, 13), 143);
    assert HexDigit(143 / 16) == '8' && HexDigit(143 % 16) == 'f';
    assert HexOfBytes(ToBigEndian(32156510286161483697519028210063, 14)) == "0195df49e04670019e2bcb0e09" + "8f";
  }

  lemma SimpleVectorBytes16()
    ensures HexOfBytes(ToBigEndian(2107409058113878995600607032774715894, 16)) == "0195df49e04670019e2bcb0e098f69f6"
  {
    SimpleVectorBytes14();
    assert ToBigEndian(8232066633257339826564871221776233, 15) == ToBigEndian(32156510286161483697519028210063, 14) + [105];
    HexOfBytesSnoc(ToBigEndian(32156510286161483697519028210063, 14), 105);
    assert HexDigit(105 / 16) == '6' && HexDigit(105 % 16) == '9';
    assert HexOfBytes(ToBigEndian(8232066633257339826564871221776233, 15)) == "0195df49e04670019e2bcb0e098f" + "69";
    assert ToBigEndian(2107409058113878995600607032774715894, 16) == ToBigEndian(8232066633257339826564871221776233, 15) + [246];
    HexOfBytesSnoc(ToBigEndian(8232066633257339826564871221776233, 15), 246);
    assert HexDigit(246 / 16) == 'f' && HexDigit(246 % 16) == '6';
    assert HexOfBytes(ToBigEndian(2107409058113878995600607032774715894, 16)) == "0195df49e04670019e2bcb0e098f69" + "f6";
  }
}
