# uuid32 in Dafny

`Uuid32` is a 128-bit identifier, a thin wrapper around a standard `Uuid`. It
has two text forms:

- the **compact form**: the identifier's 128-bit value written in lowercase
  Crockford base-32 (alphabet `0123456789abcdefghjkmnpqrstvwxyz`);
- the **hex form**: the standard hyphenated hexadecimal form,
  `0195df49-e046-7001-9e2b-cb0e098f69f6`.

`Display` and `Serialize` always produce the compact form. `TryFrom`, `FromStr`
and the deserializer accept either form: they try the compact form first and the
hex form second, and they report the compact decoder's error when both fail.

A small command-line converter does the following:

1. joins its arguments with spaces;
2. cuts the result at every `/`;
3. converts each piece to the other form, trying the hex form first;
4. echoes any piece that is neither form;
5. prints the input, a space, and the converted pieces rejoined with `/`.

The project has one module per concern:

- `Outcomes`: `Option` and `Result`.
- `Uuids`: the standard identifier as 16 big-endian bytes. It holds the
  conversions to and from its `u128` value, `nil`, `max` and the derived order.
- `Crockford`: the compact numeral, its encoder and its strict decoder.
- `HexForm`: the simple (32 digits) and hyphenated (36 characters) hex forms,
  and the hex parser.
- `Uuid32Codec`: the `Uuid32` type, its conversions, `Display`, `Serialize`,
  the parsers and the deserializer's string visitor.
- `Resolver`: the converter's pipeline. `Convert` is a method with the source's
  loop, proved against the per-piece function `ConvertPiece`.
- `Uuid32Postgres`: the database adapter's byte pass-through.

Three facts about the code shape the model:

- **The compact form has variable width and is not lexicographically sorted.**
  The test vector `1jqfmkr26e00swayb1r4rytfp` has 25 digits, but its value is
  below 2^125, so a fixed 26-digit encoding would start with `0`. The encoder
  therefore drops leading zeros, and its output has 1 to 26 digits. As a
  result, plain string order is not numeric order:
  `Crockford.CompactFormNotLexSorted` proves that 32 encodes to `"10"` and 31 to
  `"z"`, and that `"10"` sorts before `"z"`. What holds is that numeric order
  equals shortlex order (shorter first, then lexicographic). See
  `Crockford.EncodeOrder` and `Uuid32Codec.DisplayOrder`.
- **Each caller has its own parse order.** The library parsers try the compact
  form first. The converter tries the hex form first. No string is valid in
  both forms: compact strings have at most 26 characters, and hex strings have
  32 or 36 (`Uuid32Codec.FormsAreDisjoint`). So the order only decides which
  error a string that is neither form reports.
- **The converter prints no decimal value.** It prints only the input and the
  converted text.

## Model

| member | source | states |
|---|---|---|
| Uuids.FromU128 | src/uuid32.rs:147 | `Uuid::from_u128`: the identifier's 16 bytes read big-endian are the given value |
| Uuids.AsU128 | src/uuid32.rs:30 | the 128-bit value of an identifier; its 16-byte big-endian spelling is the identifier's bytes |
| Uuids.AsU128OfFromU128 | src/uuid32.rs:147 | value → identifier → value is the identity |
| Uuids.FromU128OfAsU128 | src/uuid32.rs:147 | identifier → value → identifier is the identity |
| Uuids.BigEndianOfToBigEndian | src/uuid32.rs:147 | reading back the k-byte big-endian spelling of n < 256^k gives n |
| Uuids.ToBigEndianOfBigEndian | src/uuid32.rs:147 | spelling the value of a byte string in as many bytes gives the string back |
| Uuids.Nil | src/uuid32.rs:16 | `Uuid::nil` has value 0 |
| Uuids.Max | src/uuid32.rs:20 | `Uuid::max` has value 2^128 - 1 |
| Uuids.LessIsNumeric | src/uuid32.rs:11-12 | the derived (byte-lexicographic) `<` is the unsigned order of the 128-bit values, both directions |
| Uuids.EqualIsNumeric | src/uuid32.rs:11-12 | derived equality is equality of the 128-bit values |
| Crockford.ValueOf | src/uuid32.rs:54 | a digit's value is below 32 and maps back to that digit |
| Crockford.DigitOrder | src/uuid32.rs:30 | the alphabet is in ascending character order: digit order is value order |
| Crockford.Encode | src/uuid32.rs:30 | the encoder's output is a canonical numeral: only alphabet digits, non-empty, and it starts with `0` only for the value 0 |
| Crockford.EncodeLength | src/uuid32.rs:30 | the numeral of n fits in k digits exactly when n < 32^k |
| Crockford.ValueOfEncode | src/uuid32.rs:30 | the numeral's value is n |
| Crockford.Decode | src/uuid32.rs:54 | the decoder succeeds exactly on 1 to 26 alphabet digits whose value is below 2^128, and it then returns that value; it fails with `InvalidLength` exactly on the empty string or more than 26 characters |
| Crockford.FirstNonDigit | src/uuid32.rs:54 | the index reported by `InvalidChar` is the first character outside the alphabet |
| Crockford.DecodeEncode | src/uuid32.rs:28-61 | decoding the encoding of any `u128` gives it back |
| Crockford.EncodeValue | src/uuid32.rs:30 | encoding the value of a canonical numeral gives the numeral back |
| Crockford.EncodeDecode | src/uuid32.rs:54 | a canonical numeral the decoder accepts is the encoding of the decoded value |
| Crockford.EncodeInjective | src/uuid32.rs:30 | distinct values have distinct numerals |
| Crockford.EncodeUuid | src/uuid32.rs:30 | `encode_uuid` gives a canonical numeral of at most 26 digits whose value is the identifier's 128-bit value |
| Crockford.DecodeUuidStr | src/uuid32.rs:54 | `decode_uuid_str` succeeds exactly when the numeral decoder does, with the identifier of that value, and fails with the same error |
| Crockford.EncodeOrder | src/uuid32.rs:30 | a < b exactly when the numeral of a comes before the numeral of b in shortlex order |
| Crockford.CompactFormNotLexSorted | src/uuid32.rs:30 | 31 encodes to `z` and 32 to `10`, and `10` < `z` as Rust strings: the compact form is not lexicographically monotonic |
| Crockford.CompactVector | src/uuid32.rs:147-150 | 2107409058113878995600607032774715894 encodes to `1jqfmkr26e00swayb1r4rytfp` |
| Crockford.MaxVector | src/uuid32.rs:19-21 | 2^128 - 1 encodes to `7` followed by 25 `z` |
| HexForm.HexValue | src/uuid32.rs:56 | a hex digit of either case has a value below 16, and a lowercase one is the digit `to_string` writes for it |
| HexForm.HexOfBytes | src/main.rs:26 | the hex of k bytes has 2k characters |
| HexForm.HexOfBytesIsLower | src/main.rs:26 | the hex of bytes is all lowercase hex digits |
| HexForm.BytesOfHexOfBytes | src/uuid32.rs:56 | parsing the hex of bytes gives the bytes back |
| HexForm.HexOfBytesOfHex | src/uuid32.rs:56 | writing the bytes of lowercase hex gives the hex back |
| HexForm.Hyphenated | src/main.rs:26 | `Uuid::to_string` writes 36 characters |
| HexForm.HyphenatedAlphabet | src/main.rs:26 | every character of the hyphenated form is `-` or a lowercase hex digit |
| HexForm.StripHyphenated | src/main.rs:26 | the hyphenated form has hyphens at 8, 13, 18 and 23, and the rest is the simple form |
| HexForm.TryParse | src/uuid32.rs:56 | `Uuid::try_parse` accepts only 32- or 36-character strings |
| HexForm.ParseHyphenated | src/uuid32.rs:56-57 | the hyphenated form parses back to its identifier |
| HexForm.ParseSimple | src/uuid32.rs:56-57 | the simple form parses back to its identifier |
| HexForm.HyphenatedOfParse | src/main.rs:21-26 | a hyphenated string with no uppercase digits that parses is the hyphenated form of the parsed identifier |
| HexForm.HyphenatedVector | src/uuid32.rs:158 | 2107409058113878995600607032774715894 is written `0195df49-e046-7001-9e2b-cb0e098f69f6` |
| Uuid32Codec.Nil | src/uuid32.rs:15-17 | `nil` has value 0 and displays as `0` |
| Uuid32Codec.Max | src/uuid32.rs:19-21 | `max` has value 2^128 - 1 and displays as `7zzzzzzzzzzzzzzzzzzzzzzzzz` |
| Uuid32Codec.FromUuid | src/uuid32.rs:41-45 | wrapping then unwrapping a `Uuid` gives it back |
| Uuid32Codec.IntoUuid | src/uuid32.rs:47-51 | `inner` and `From<Uuid32> for Uuid` give the `Uuid` that the compact form of the value denotes |
| Uuid32Codec.FromIntoUuid | src/uuid32.rs:47-51 | unwrapping then wrapping a `Uuid32` gives it back |
| Uuid32Codec.Less | src/uuid32.rs:11-12 | the derived `<` holds exactly when the first 128-bit value is below the second |
| Uuid32Codec.OrderIsNumeric | src/uuid32.rs:11-12 | the derived `<` and `==` of `Uuid32` are those of the 128-bit values |
| Uuid32Codec.Display | src/uuid32.rs:28-32 | the displayed string is a canonical compact numeral of 1 to 26 digits, and the compact decoder maps it to the identifier's value |
| Uuid32Codec.Serialize | src/uuid32.rs:96-102 | serialisation writes the same string as `Display` |
| Uuid32Codec.Decode | src/uuid32.rs:53-61 | compact success wins; otherwise hex success; otherwise the compact decoder's error |
| Uuid32Codec.TryFrom | src/uuid32.rs:63-69 | `try_from` (all three string types) is `decode` |
| Uuid32Codec.FromStr | src/uuid32.rs:87-93 | `from_str` is `decode` |
| Uuid32Codec.VisitStr | src/uuid32.rs:125-133 | the visitor accepts exactly what `decode` accepts, with the same value, and wraps the compact error in a custom error |
| Uuid32Codec.FormsAreDisjoint | src/uuid32.rs:53-61 | no string is both a compact form and a hex form |
| Uuid32Codec.DecodeAcceptsEitherForm | src/uuid32.rs:53-61 | `decode` succeeds exactly when one of the two parsers does |
| Uuid32Codec.DecodeDisplay | src/uuid32.rs:28-61 | parsing the displayed form gives the identifier back |
| Uuid32Codec.DecodeHyphenated | src/uuid32.rs:53-61 | parsing the hyphenated form gives the identifier back |
| Uuid32Codec.SerializeDecoded | src/uuid32.rs:155-156 | serialising a parsed value and parsing the result gives the same value |
| Uuid32Codec.SerializeOfCompact | src/uuid32.rs:155-156 | a canonical compact string that parses serialises back to itself |
| Uuid32Codec.DisplayOrder | src/uuid32.rs:11-12 | identifiers are ordered exactly as their displayed strings in shortlex order |
| Uuid32Codec.MaxDisplay | src/uuid32.rs:19-21 | the largest identifier encodes to `7zzzzzzzzzzzzzzzzzzzzzzzzz` |
| Uuid32Codec.TestVectors | src/uuid32.rs:146-164 | both strings of the test parse, through `try_from` and `from_str`, to the identifier of 2107409058113878995600607032774715894, and each serialises to the compact string |
| Uuid32Codec.RejectsGarbage | src/uuid32.rs:166-170 | `?!` is rejected by `try_from`, `from_str` and the visitor |
| Resolver.Split | src/main.rs:16 | a split has at least one piece |
| Resolver.SplitPieces | src/main.rs:16 | a split has one piece more than the input has `/`, and no piece holds a `/` |
| Resolver.Join | src/main.rs:32 | `join` puts the separator between neighbours, so the result starts with the first piece; `JoinSplit` and `SplitJoin` pin it down as the inverse of `Split` |
| Resolver.JoinCount | src/main.rs:32 | joining n pieces that hold no `/` gives a string with exactly n - 1 `/` |
| Resolver.JoinSplit | src/main.rs:16 | joining the pieces with `/` rebuilds the input |
| Resolver.SplitJoin | src/main.rs:32 | splitting a join of separator-free pieces gives the pieces back |
| Resolver.ConvertPiece | src/main.rs:19-29 | the loop body for one piece: the result is empty exactly when the piece is, and it gains no `/`; `ConvertPieceMeaning` and `ConvertTwice` state which form it produces |
| Resolver.ConvertPieceMeaning | src/main.rs:19-29 | a recognised piece becomes the other form of the same identifier; an unrecognised piece is echoed; no output piece gains a `/` |
| Resolver.ConvertTwice | src/main.rs:21-26 | converting a canonical compact or lowercase hyphenated piece twice gives it back |
| Resolver.Convert | src/main.rs:16-32 | the output has as many `/`-pieces as the input, and output piece i is input piece i converted |
| Resolver.Run | src/main.rs:14-32 | the printed line is the arguments joined with spaces, a space, then the converted pieces |
| Resolver.EmptyPiecesKept | src/main.rs:19-20 | `a//b` has three pieces, and an empty piece converts to an empty piece |
| Uuid32Postgres.FromSql | src/uuid32_postgres.rs:13-16 | a raw value is accepted exactly when it has 16 bytes, which become the identifier's bytes |
| Uuid32Postgres.ToSql | src/uuid32_postgres.rs:21-28 | the raw value is 16 bytes whose big-endian reading is the identifier's value |
| Uuid32Postgres.FromSqlToSql | src/uuid32_postgres.rs:13-28 | writing then reading an identifier gives it back |
| Uuid32Postgres.ToSqlFromSql | src/uuid32_postgres.rs:13-28 | reading then writing accepted bytes gives them back |

## Left out

- The `fast32` and `uuid` crates are not part of this model. Their encoder,
  decoder, parser and formatter are written here from the source's test
  vectors and the usual base-32 and hexadecimal numerals.
- Crockford.Decode: the empty string is modelled as rejected with
  `InvalidLength(0)`. What `fast32` does with it cannot be seen, so `TryFrom`,
  `FromStr` and `VisitStr` of `""` failing is this model's assumption.
- Crockford.Encode: 0 is written `0`, the usual one-digit numeral. `Nil`
  displaying as `0` rests on this assumption.
- Crockford.Decode: accepts only the lowercase alphabet. Whether `fast32`'s
  decoder also folds case or maps the Crockford aliases `i`, `l` and `o` cannot
  be seen, so such inputs are modelled as rejected.
- Crockford.Decode: the error values (`InvalidLength`, `InvalidChar` with the
  first bad index, `Overflow`) are this model's choice. The source only relies
  on decoding failing.
- HexForm.TryParse: models the hyphenated and simple forms only. The braced and
  URN forms that `Uuid::try_parse` also accepts are left out.
- The `Debug` format, `Hash` and the derived `Default` are left out. `Default`
  is the nil identifier, which `Uuid32Codec.Nil` covers.
- The serde `Serializer` and `Deserializer` plumbing, the `expecting` text and
  the `de_error` message text are left out. Only the string the serializer
  writes and the choice the visitor makes are modelled.
- Reading `env::args`, `println!` and the usage message are left out.
  Resolver.Run: returns the printed line instead of printing it. With no
  arguments the source prints the usage message and then a line holding one
  space; that line is `Run([])`.
- Resolver.ConvertPiece: the source tests the piece's byte length and the model
  tests its character count. Both only ask whether the piece is empty.
- Strings are sequences of characters. UTF-8 byte lengths do not matter to any
  modelled operation.
