/** Douglas Crockford's base-32 in its lowercase spelling, as the codec uses it
    (`CROCKFORD_LOWER.encode_uuid` and `CROCKFORD_LOWER.decode_uuid_str` of the
    `fast32` crate): an identifier is written as the base-32 numeral of its
    128-bit value, most significant digit first and without leading zeros, so
    its length varies from 1 to 26 digits. */
module Crockford {
  import opened Outcomes
  import opened Uuids

  /** Crockford's 32 digits in order: 0-9 and the letters without i, l, o and u. */
  const Alphabet: string := "0123456789abcdefghjkmnpqrstvwxyz"

  /** No `u128` needs more digits than this. */
  const MaxDigits: nat := 26

  /** Why a string is not the compact form of an identifier. */
  datatype DecodeError =
    | InvalidLength(length: nat)
    | InvalidChar(c: char, index: nat)
    | Overflow

  function Pow32(k: nat): (p: nat)
    ensures p >= 1
  {
    if k == 0 then 1 else 32 * Pow32(k - 1)
  }

  /** The digit for the value `d`. */
  function Digit(d: nat): char
    requires d < 32
  {
    if d < 10 then ('0' as int + d) as char
    else if d < 18 then ('a' as int + (d - 10)) as char
    else if d < 20 then ('j' as int + (d - 18)) as char
    else if d < 22 then ('m' as int + (d - 20)) as char
    else if d < 27 then ('p' as int + (d - 22)) as char
    else ('v' as int + (d - 27)) as char
  }

  predicate IsDigit(c: char)
  {
    || '0' <= c <= '9' || 'a' <= c <= 'h' || c == 'j' || c == 'k'
    || c == 'm' || c == 'n' || 'p' <= c <= 't' || 'v' <= c <= 'z'
  }

  /** The value of a digit: its position in the alphabet. */
  function ValueOf(c: char): (d: nat)
    requires IsDigit(c)
    ensures d < 32 && Digit(d) == c
  {
    if c <= '9' then c as int - '0' as int
    else if c <= 'h' then c as int - 'a' as int + 10
    else if c <= 'k' then c as int - 'j' as int + 18
    else if c <= 'n' then c as int - 'm' as int + 20
    else if c <= 't' then c as int - 'p' as int + 22
    else c as int - 'v' as int + 27
  }

  /** `Digit` spells Crockford's alphabet. */
  lemma DigitInAlphabet(d: nat)
    requires d < 32
    ensures Digit(d) == Alphabet[d]
  {
  }

  lemma DigitIsDigit(d: nat)
    requires d < 32
    ensures IsDigit(Digit(d)) && ValueOf(Digit(d)) == d
  {
  }

  /** The alphabet is written in increasing character order, so comparing digits
      compares their values. */
  lemma DigitOrder(d: nat, e: nat)
    requires d < 32 && e < 32
    ensures Digit(d) < Digit(e) <==> d < e
  {
  }

  predicate AllDigits(s: string)
  {
    forall i :: 0 <= i < |s| ==> IsDigit(s[i])
  }

  /** The numeral without superfluous leading zeros: what the encoder writes. */
  predicate IsCanonical(s: string)
  {
    |s| >= 1 && AllDigits(s) && (|s| > 1 ==> s[0] != '0')
  }

  /** The number a string of digits denotes, most significant digit first. */
  function Value(s: string): nat
    requires AllDigits(s)
  {
    if s == [] then 0 else Value(s[..|s| - 1]) * 32 + ValueOf(s[|s| - 1])
  }

  /** The lowercase base-32 numeral of `n`, without leading zeros. */
  function Encode(n: nat): (s: string)
    ensures IsCanonical(s)
    ensures s[0] == '0' <==> n == 0
    decreases n
  {
    if n < 32 then [Digit(n)]
    else
      DigitIsDigit(n % 32);
      Encode(n / 32) + [Digit(n % 32)]
  }

  /** The position of the first character that is not a digit (|s| if none). */
  function FirstNonDigit(s: string): (i: nat)
    ensures i <= |s|
    ensures forall j :: 0 <= j < i ==> IsDigit(s[j])
    ensures i < |s| ==> !IsDigit(s[i])
  {
    if s == [] || !IsDigit(s[0]) then 0 else 1 + FirstNonDigit(s[1..])
  }

  /** Decoding a compact string to a 128-bit value: between 1 and 26 digits of
      the lowercase alphabet, denoting a number below 2^128. */
  function Decode(s: string): (r: Result<U128, DecodeError>)
    ensures r.Ok? <==> 1 <= |s| <= MaxDigits && AllDigits(s) && Value(s) < U128Limit
    ensures r.Ok? ==> r.value == Value(s)
    ensures r == Err(InvalidLength(|s|)) <==> |s| == 0 || |s| > MaxDigits
  {
    if |s| == 0 || |s| > MaxDigits then Err(InvalidLength(|s|))
    else
      var i := FirstNonDigit(s);
      if i < |s| then Err(InvalidChar(s[i], i))
      else if Value(s) >= U128Limit then Err(Overflow)
      else Ok(Value(s))
  }

  /** `encode_uuid`: the compact form of an identifier. */
  function EncodeUuid(u: Uuid): (s: string)
    ensures IsCanonical(s) && |s| <= MaxDigits
    ensures Value(s) == AsU128(u)
  {
    ValueOfEncode(AsU128(u));
    EncodeLength(AsU128(u), MaxDigits);
    U128FitsInDigits();
    Encode(AsU128(u))
  }

  /** `decode_uuid_str`: the identifier a compact string denotes, or why there is none. */
  function DecodeUuidStr(s: string): (r: Result<Uuid, DecodeError>)
    ensures r.Ok? <==> Decode(s).Ok?
    ensures r.Ok? ==> AsU128(r.value) == Decode(s).value
    ensures r.Err? ==> r.error == Decode(s).error
  {
    match Decode(s)
    case Ok(n) => Ok(FromU128(n))
    case Err(e) => Err(e)
  }

  lemma U128FitsInDigits()
    ensures U128Limit <= Pow32(MaxDigits)
  {
    assert Pow32(2) == 0x400;
    assert Pow32(4) == 0x10_0000;
    assert Pow32(6) == 0x4000_0000;
    assert Pow32(8) == 0x100_0000_0000;
    assert Pow32(10) == 0x4_0000_0000_0000;
    assert Pow32(12) == 0x1000_0000_0000_0000;
    assert Pow32(14) == 0x40_0000_0000_0000_0000;
    assert Pow32(16) == 0x1_0000_0000_0000_0000_0000;
    assert Pow32(18) == 0x400_0000_0000_0000_0000_0000;
    assert Pow32(20) == 0x10_0000_0000_0000_0000_0000_0000;
    assert Pow32(22) == 0x4000_0000_0000_0000_0000_0000_0000;
    assert Pow32(24) == 0x100_0000_0000_0000_0000_0000_0000_0000;
    assert Pow32(25) == 0x2000_0000_0000_0000_0000_0000_0000_0000;
    assert Pow32(26) == 0x4_0000_0000_0000_0000_0000_0000_0000_0000;
  }

  /** The numeral of `n` has at most `k` digits exactly when `n < 32^k`. */
  lemma {:induction false} EncodeLength(n: nat, k: nat)
    requires k >= 1
    ensures |Encode(n)| <= k <==> n < Pow32(k)
    decreases n
  {
    if n >= 32 {
      if k > 1 {
        EncodeLength(n / 32, k - 1);
      }
    } else if k > 1 {
      assert Pow32(k) == 32 * Pow32(k - 1);
    }
  }

  /** Reading back an encoded number gives the number. */
  lemma {:induction false} ValueOfEncode(n: nat)
    ensures Value(Encode(n)) == n
    decreases n
  {
    DigitIsDigit(n % 32);
    if n >= 32 {
      var s := Encode(n);
      assert s[..|s| - 1] == Encode(n / 32);
      ValueOfEncode(n / 32);
    }
  }

  /** Round trip: every 128-bit value decodes from its compact form. */
  lemma DecodeEncode(n: U128)
    ensures Decode(Encode(n)) == Ok(n)
  {
    ValueOfEncode(n);
    EncodeLength(n, MaxDigits);
    U128FitsInDigits();
  }

  /** Distinct numbers have distinct numerals. */
  lemma EncodeInjective(a: nat, b: nat)
    ensures Encode(a) == Encode(b) <==> a == b
  {
    ValueOfEncode(a);
    ValueOfEncode(b);
  }

  /** A numeral of at least two digits whose first digit is not zero denotes at
      least 32, because its value is at least its leading digit times 32. */
  lemma {:induction false} ValueAtLeastLeading(s: string)
    requires |s| >= 1 && AllDigits(s)
    ensures Value(s) >= ValueOf(s[0])
    ensures |s| >= 2 ==> Value(s) >= 32 * ValueOf(s[0])
  {
    if |s| >= 2 {
      var p := s[..|s| - 1];
      assert p[0] == s[0];
      ValueAtLeastLeading(p);
    }
  }

  /** Round trip the other way: a canonical numeral is the encoding of its value. */
  lemma {:induction false} EncodeValue(s: string)
    requires IsCanonical(s)
    ensures Encode(Value(s)) == s
    decreases |s|
  {
    var last := s[|s| - 1];
    if |s| >= 2 {
      var p := s[..|s| - 1];
      assert p[0] == s[0] && ValueOf(p[0]) >= 1;
      ValueAtLeastLeading(p);
      var n := Value(s);
      assert n == Value(p) * 32 + ValueOf(last);
      assert n / 32 == Value(p) && n % 32 == ValueOf(last);
      EncodeValue(p);
      assert Encode(n) == p + [last];
      assert s == p + [last];
    }
  }

  /** A decoded string that is already canonical is exactly what encoding its
      value writes: the encoder's output is the only canonical spelling. */
  lemma EncodeDecode(s: string)
    requires Decode(s).Ok? && IsCanonical(s)
    ensures Encode(Decode(s).value) == s
  {
    EncodeValue(s);
  }

  /** Rust's `<` on strings: lexicographic, a proper prefix before its extensions. */
  predicate StrLess(a: string, b: string)
  {
    b != [] && (a == [] || a[0] < b[0] || (a[0] == b[0] && StrLess(a[1..], b[1..])))
  }

  /** Shorter numerals first, numerals of one length lexicographically. */
  predicate ShortLexLess(a: string, b: string)
  {
    |a| < |b| || (|a| == |b| && StrLess(a, b))
  }

  /** Appending one character to each of two strings of one length decides their
      order only on a tie. */
  lemma {:induction false} StrLessSnoc(a: string, b: string, x: char, y: char)
    requires |a| == |b|
    ensures StrLess(a + [x], b + [y]) <==> StrLess(a, b) || (a == b && x < y)
  {
    if a != [] {
      assert (a + [x])[1..] == a[1..] + [x];
      assert (b + [y])[1..] == b[1..] + [y];
      StrLessSnoc(a[1..], b[1..], x, y);
      assert a == b <==> a[0] == b[0] && a[1..] == b[1..];
    }
  }

  /** Numerals of one length compare lexicographically as their numbers compare. */
  lemma {:induction false} SameLengthOrder(a: nat, b: nat)
    requires |Encode(a)| == |Encode(b)|
    ensures StrLess(Encode(a), Encode(b)) <==> a < b
    decreases a
  {
    if a < 32 {
      DigitOrder(a, b);
    } else {
      DigitOrder(a % 32, b % 32);
      SameLengthOrder(a / 32, b / 32);
      EncodeInjective(a / 32, b / 32);
      StrLessSnoc(Encode(a / 32), Encode(b / 32), Digit(a % 32), Digit(b % 32));
    }
  }

  /** The compact form sorts as the numbers it encodes when numerals are compared
      by length first and then lexicographically. */
  lemma EncodeOrder(a: nat, b: nat)
    ensures a < b <==> ShortLexLess(Encode(a), Encode(b))
  {
    var ka, kb := |Encode(a)|, |Encode(b)|;
    EncodeLength(a, ka);
    EncodeLength(b, kb);
    if ka < kb {
      EncodeLength(b, ka);
    } else if kb < ka {
      EncodeLength(a, kb);
    } else {
      SameLengthOrder(a, b);
    }
  }

  /** Plain lexicographic order is not the numeric order: 31 is written "z" and
      32 is written "10", which sorts first. */
  lemma CompactFormNotLexSorted()
    ensures Encode(31) == "z" && Encode(32) == "10"
    ensures StrLess(Encode(32), Encode(31))
  {
  }

  /** One more digit: the numeral of `n` is that of `n / 32` followed by the
      digit for `n % 32`. */
  lemma EncodeStep(n: nat, s: string, c: char)
    requires n >= 32 && Encode(n / 32) == s && Digit(n % 32) == c
    ensures Encode(n) == s + [c]
  {
  }

  /** The compact form of the 128-bit value 2107409058113878995600607032774715894,
      established five digits at a time. */
  lemma CompactVector()
    ensures Encode(2107409058113878995600607032774715894) == "1jqfmkr26e00swayb1r4rytfp"
  {
    CompactVectorDigits25();
  }

  lemma CompactVectorDigits5()
    ensures Encode(1662452) == "1jqfm"
  {
    assert Encode(1) == "1";
    EncodeStep(50, "1", 'j');
    EncodeStep(1623, "1j", 'q');
    EncodeStep(51951, "1jq", 'f');
    EncodeStep(1662452, "1jqf", 'm');
  }

  lemma CompactVectorDigits10()
    ensures Encode(55782653298894) == "1jqfmkr26e"
  {
    CompactVectorDigits5();
    EncodeStep(53198483, "1jqfm", 'k');
    EncodeStep(1702351480, "1jqfmk", 'r');
    EncodeStep(54475247362, "1jqfmkr", '2');
    EncodeStep(1743207915590, "1jqfmkr2", '6');
    EncodeStep(55782653298894, "1jqfmkr26", 'e');
  }

  lemma CompactVectorDigits15()
    ensures Encode(1871755246897314424714) == "1jqfmkr26e00swa"
  {
    CompactVectorDigits10();
    EncodeStep(1785044905564608, "1jqfmkr26e", '0');
    EncodeStep(57121436978067456, "1jqfmkr26e0", '0');
    EncodeStep(1827885983298158617, "1jqfmkr26e00", 's');
    EncodeStep(58492351465541075772, "1jqfmkr26e00s", 'w');
    EncodeStep(1871755246897314424714, "1jqfmkr26e00sw", 'a');
  }

  lemma CompactVectorDigits20()
    ensures Encode(62805684152659147846716851972) == "1jqfmkr26e00swayb1r4"
  {
    CompactVectorDigits15();
    EncodeStep(59896167900714061590878, "1jqfmkr26e00swa", 'y');
    EncodeStep(1916677372822849970908107, "1jqfmkr26e00sway", 'b');
    EncodeStep(61333675930331199069059425, "1jqfmkr26e00swayb", '1');
    EncodeStep(1962677629770598370209901624, "1jqfmkr26e00swayb1", 'r');
    EncodeStep(62805684152659147846716851972, "1jqfmkr26e00swayb1r", '4');
  }

  lemma CompactVectorDigits25()
    ensures Encode(2107409058113878995600607032774715894) == "1jqfmkr26e00swayb1r4rytfp"
  {
    CompactVectorDigits20();
    EncodeStep(2009781892885092731094939263128, "1jqfmkr26e00swayb1r4", 'r');
    EncodeStep(64313020572322967395038056420126, "1jqfmkr26e00swayb1r4r", 'y');
    EncodeStep(2058016658314334956641217805444058, "1jqfmkr26e00swayb1r4ry", 't');
    EncodeStep(65856533066058718612518969774209871, "1jqfmkr26e00swayb1r4ryt", 'f');
    EncodeStep(2107409058113878995600607032774715894, "1jqfmkr26e00swayb1r4rytf", 'p');
  }

  /** The largest 128-bit value needs all 26 digits and begins with 7,
      established five digits at a time. */
  lemma MaxVector()
    ensures Encode(U128Limit - 1) == "7zzzzzzzzzzzzzzzzzzzzzzzzz"
  {
    MaxVectorDigits26();
  }

  lemma MaxVectorDigits6()
    ensures Encode(268435455) == "7zzzzz"
  {
    assert Encode(7) == "7";
    EncodeStep(255, "7", 'z');
    EncodeStep(8191, "7z", 'z');
    EncodeStep(262143, "7zz", 'z');
    EncodeStep(8388607, "7zzz", 'z');
    EncodeStep(268435455, "7zzzz", 'z');
  }

  lemma MaxVectorDigits11()
    ensures Encode(9007199254740991) == "7zzzzzzzzzz"
  {
    MaxVectorDigits6();
    EncodeStep(8589934591, "7zzzzz", 'z');
    EncodeStep(274877906943, "7zzzzzz", 'z');
    EncodeStep(8796093022207, "7zzzzzzz", 'z');
    EncodeStep(281474976710655, "7zzzzzzzz", 'z');
    EncodeStep(9007199254740991, "7zzzzzzzzz", 'z');
  }

  lemma MaxVectorDigits16()
    ensures Encode(302231454903657293676543) == "7zzzzzzzzzzzzzzz"
  {
    MaxVectorDigits11();
    EncodeStep(288230376151711743, "7zzzzzzzzzz", 'z');
    EncodeStep(9223372036854775807, "7zzzzzzzzzzz", 'z');
    EncodeStep(295147905179352825855, "7zzzzzzzzzzzz", 'z');
    EncodeStep(9444732965739290427391, "7zzzzzzzzzzzzz", 'z');
    EncodeStep(302231454903657293676543, "7zzzzzzzzzzzzzz", 'z');
  }

  lemma MaxVectorDigits21()
    ensures Encode(10141204801825835211973625643007) == "7zzzzzzzzzzzzzzzzzzzz"
  {
    MaxVectorDigits16();
    EncodeStep(9671406556917033397649407, "7zzzzzzzzzzzzzzz", 'z');
    EncodeStep(309485009821345068724781055, "7zzzzzzzzzzzzzzzz", 'z');
    EncodeStep(9903520314283042199192993791, "7zzzzzzzzzzzzzzzzz", 'z');
    EncodeStep(316912650057057350374175801343, "7zzzzzzzzzzzzzzzzzz", 'z');
    EncodeStep(10141204801825835211973625643007, "7zzzzzzzzzzzzzzzzzzz", 'z');
  }

  lemma MaxVectorDigits26()
    ensures Encode(340282366920938463463374607431768211455) == "7zzzzzzzzzzzzzzzzzzzzzzzzz"
  {
    MaxVectorDigits21();
    EncodeStep(324518553658426726783156020576255, "7zzzzzzzzzzzzzzzzzzzz", 'z');
    EncodeStep(10384593717069655257060992658440191, "7zzzzzzzzzzzzzzzzzzzzz", 'z');
    EncodeStep(332306998946228968225951765070086143, "7zzzzzzzzzzzzzzzzzzzzzz", 'z');
    EncodeStep(10633823966279326983230456482242756607, "7zzzzzzzzzzzzzzzzzzzzzzz", 'z');
    EncodeStep(340282366920938463463374607431768211455, "7zzzzzzzzzzzzzzzzzzzzzzzz", 'z');
  }
}
