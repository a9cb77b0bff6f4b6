/** `Uuid32`: a `Uuid` whose text form is the compact Crockford base-32 numeral
    of its 128-bit value. It renders only in the compact form, and it parses
    either form: the compact form first and, only when that fails, the standard
    hyphenated (or 32-digit) hex form. */
module Uuid32Codec {
  import opened Outcomes
  import opened Uuids
  import Crockford
  import HexForm

  /** The identifier: an immutable copy of the wrapped `Uuid`. */
  datatype Uuid32 = Uuid32(inner: Uuid)

  /** The deserializer's error: the decoder's error carried inside a message. */
  datatype DeError = Custom(cause: Crockford.DecodeError)

  /** `Uuid32::nil`, also the derived `Default`. */
  function Nil(): (v: Uuid32)
    ensures AsU128(v.inner) == 0
    ensures Display(v) == "0"
  {
    Uuid32(Uuids.Nil())
  }

  /** `Uuid32::max`. */
  function Max(): (v: Uuid32)
    ensures AsU128(v.inner) == U128Limit - 1
    ensures Display(v) == "7zzzzzzzzzzzzzzzzzzzzzzzzz"
  {
    MaxDisplay();
    Uuid32(Uuids.Max())
  }

  /** `From<Uuid> for Uuid32`. */
  function FromUuid(u: Uuid): (v: Uuid32)
    ensures IntoUuid(v) == u
  {
    Uuid32(u)
  }

  /** `From<Uuid32> for Uuid`, and `inner`. */
  function IntoUuid(v: Uuid32): (u: Uuid)
    ensures Crockford.DecodeUuidStr(Display(v)) == Ok(u)
  {
    FromU128OfAsU128(v.inner);
    v.inner
  }

  lemma FromIntoUuid(v: Uuid32)
    ensures FromUuid(IntoUuid(v)) == v
  {
  }

  /** The derived `<`, which compares the wrapped `Uuid`: the unsigned order of
      the 128-bit values. */
  function Less(a: Uuid32, b: Uuid32): (r: bool)
    ensures r <==> AsU128(a.inner) < AsU128(b.inner)
  {
    LessIsNumeric(a.inner, b.inner);
    Uuids.Less(a.inner, b.inner)
  }

  /** Equality and order of `Uuid32` are those of the 128-bit values it wraps. */
  lemma OrderIsNumeric(a: Uuid32, b: Uuid32)
    ensures Less(a, b) <==> AsU128(a.inner) < AsU128(b.inner)
    ensures a == b <==> AsU128(a.inner) == AsU128(b.inner)
  {
    LessIsNumeric(a.inner, b.inner);
    EqualIsNumeric(a.inner, b.inner);
  }

  /** `Display`: the lowercase Crockford numeral of the 128-bit value, which the
      compact decoder reads back as that value. */
  function Display(v: Uuid32): (s: string)
    ensures Crockford.Decode(s) == Ok(AsU128(v.inner))
    ensures Crockford.IsCanonical(s) && 1 <= |s| <= Crockford.MaxDigits
  {
    Crockford.DecodeEncode(AsU128(v.inner));
    Crockford.EncodeUuid(v.inner)
  }

  /** `Serialize`: always the compact form, the same string `Display` writes. */
  function Serialize(v: Uuid32): (s: string)
    ensures s == Display(v)
  {
    Crockford.EncodeUuid(v.inner)
  }

  /** `decode`: the compact form first; the hex form only when the compact
      decoder fails; and when both fail, the compact decoder's error. */
  function Decode(s: string): (r: Result<Uuid32, Crockford.DecodeError>)
    ensures Crockford.DecodeUuidStr(s).Ok? ==> r == Ok(Uuid32(Crockford.DecodeUuidStr(s).value))
    ensures Crockford.DecodeUuidStr(s).Err? && HexForm.TryParse(s).Some? ==>
              r == Ok(Uuid32(HexForm.TryParse(s).value))
    ensures Crockford.DecodeUuidStr(s).Err? && HexForm.TryParse(s).None? ==>
              r == Err(Crockford.DecodeUuidStr(s).error)
  {
    match Crockford.DecodeUuidStr(s)
    case Ok(u) => Ok(Uuid32(u))
    case Err(e) =>
      match HexForm.TryParse(s)
      case Some(u) => Ok(Uuid32(u))
      case None => Err(e)
  }

  /** `TryFrom<&str>`, `TryFrom<&String>` and `TryFrom<String>`: all three are
      `decode`, and strings are values here, so they are one function. */
  function TryFrom(s: string): (r: Result<Uuid32, Crockford.DecodeError>)
    ensures r == Decode(s)
  {
    Decode(s)
  }

  /** `FromStr`: `decode` as well. */
  function FromStr(s: string): (r: Result<Uuid32, Crockford.DecodeError>)
    ensures r == Decode(s)
  {
    Decode(s)
  }

  /** The deserializer's `visit_str`: the same compact-then-hex choice as
      `decode`, its error wrapped for the deserializer. */
  function VisitStr(s: string): (r: Result<Uuid32, DeError>)
    ensures r.Ok? <==> Decode(s).Ok?
    ensures r.Ok? ==> r.value == Decode(s).value
    ensures r.Err? ==> r.error == Custom(Decode(s).error)
  {
    match Crockford.DecodeUuidStr(s)
    case Ok(u) => Ok(Uuid32(u))
    case Err(e) =>
      match HexForm.TryParse(s)
      case Some(u) => Ok(Uuid32(u))
      case None => Err(Custom(e))
  }

  /** Every accepted compact string has at most 26 characters and every accepted
      hex string 32 or 36, so no string is in both forms: trying one form before
      the other only decides which error a string in neither form reports. */
  lemma FormsAreDisjoint(s: string)
    ensures !(Crockford.Decode(s).Ok? && HexForm.TryParse(s).Some?)
  {
  }

  /** `decode` accepts exactly the strings in one of the two forms. */
  lemma DecodeAcceptsEitherForm(s: string)
    ensures Decode(s).Ok? <==> Crockford.Decode(s).Ok? || HexForm.TryParse(s).Some?
  {
  }

  /** Round trip through the compact form. */
  lemma DecodeDisplay(v: Uuid32)
    ensures Decode(Display(v)) == Ok(v)
  {
    FromU128OfAsU128(v.inner);
  }

  /** Round trip through the hyphenated hex form. */
  lemma DecodeHyphenated(v: Uuid32)
    ensures Decode(HexForm.Hyphenated(v.inner)) == Ok(v)
  {
    HexForm.ParseHyphenated(v.inner);
  }

  /** A value decoded from either form serializes to the compact form, which
      decodes to the same value. */
  lemma SerializeDecoded(s: string)
    requires Decode(s).Ok?
    ensures Decode(Serialize(Decode(s).value)) == Decode(s)
  {
    DecodeDisplay(Decode(s).value);
  }

  /** A canonical compact string is the serialization of what it decodes to. */
  lemma SerializeOfCompact(s: string)
    requires Crockford.Decode(s).Ok? && Crockford.IsCanonical(s)
    ensures Decode(s).Ok? && Serialize(Decode(s).value) == s
  {
    Crockford.EncodeDecode(s);
    AsU128OfFromU128(Crockford.Decode(s).value);
  }

  /** The compact form sorts as the identifiers do, shorter strings first. */
  lemma DisplayOrder(a: Uuid32, b: Uuid32)
    ensures Less(a, b) <==> Crockford.ShortLexLess(Display(a), Display(b))
  {
    OrderIsNumeric(a, b);
    Crockford.EncodeOrder(AsU128(a.inner), AsU128(b.inner));
  }

  lemma MaxDisplay()
    ensures Crockford.EncodeUuid(Uuids.Max()) == "7zzzzzzzzzzzzzzzzzzzzzzzzz"
  {
    Crockford.MaxVector();
  }

  /** The vectors of the unit test: the compact string and the hyphenated string
      both decode, through every entry point, to the value
      2107409058113878995600607032774715894, and serializing it gives the compact
      string whichever form it was read from. */
  lemma TestVectors()
    ensures var expected := Ok(Uuid32(FromU128(2107409058113878995600607032774715894)));
      && TryFrom("1jqfmkr26e00swayb1r4rytfp") == expected
      && FromStr("1jqfmkr26e00swayb1r4rytfp") == expected
      && TryFrom("0195df49-e046-7001-9e2b-cb0e098f69f6") == expected
      && FromStr("0195df49-e046-7001-9e2b-cb0e098f69f6") == expected
      && Serialize(TryFrom("1jqfmkr26e00swayb1r4rytfp").value) == "1jqfmkr26e00swayb1r4rytfp"
      && Serialize(TryFrom("0195df49-e046-7001-9e2b-cb0e098f69f6").value) == "1jqfmkr26e00swayb1r4rytfp"
  {
    var v := Uuid32(FromU128(2107409058113878995600607032774715894));
    Crockford.CompactVector();
    HexForm.HyphenatedVector();
    DecodeDisplay(v);
    DecodeHyphenated(v);
  }

  /** The unit test's garbage input fails every string entry point. */
  lemma RejectsGarbage()
    ensures TryFrom("?!") == Err(Crockford.InvalidChar('?', 0))
    ensures FromStr("?!").Err? && VisitStr("?!").Err?
  {
    assert Crockford.FirstNonDigit("?!") == 0;
  }
}
