# opaqueid in Dafny

A model of the `opaqueid` package: a codec that packs an entity type tag, an
identifier (string or number) and optional metadata into one Base64 token, and
reads it back with a type check and two kinds of error.

- `Base64` (base64.dfy): Base64 with padding, over the alphabet of RFC 4648
  section 4. Every 3 bytes become 4 characters. Decoding is strict, so it
  accepts exactly the canonical tokens. Both directions are proved:
  decoding an encoded byte sequence gives it back (`RoundTrip`), and any
  accepted token is what encoding its bytes gives (`Canonical`).
- `Transform` (transform.dfy): `encode` (the UTF-8 bytes of a string, in
  Base64) and `decode` (Base64 read back as Latin-1). They are inverse on
  ASCII text, and no text beyond ASCII survives them: it comes back longer
  (`é` comes back as `Ã©`).
- `Strings` (strings.dfy): `split('|')`, the `|` framing it undoes, and the
  `type || ''` reading of an optional type.
- `Numbers` (numbers.dfy): `${n}` for an integer id, and the "is this field
  numeric" test with its value.
- `OpaqueId` (opaqueid.dfy): `encodeId`, `decodeId`, `getIdType` and
  `getIdMetadata`. Thrown errors become the outcomes `InvalidId(message)` and
  `InvalidType(expected, actual)`. Default arguments are explicit: the
  encoding type `""`, the metadata type `""`. `decodeId`'s optional type is
  an `Option`.
- `Errors` (errors.dfy): the `InvalidIDError` and `InvalidIDTypeError`
  records, with their messages, names and fields.
- `MessageAgreement` (agreement.dfy): how the codec's own messages compare
  with those records.

Where the code and its intent part ways, the model follows the code:

- `decodeId` does not use the error classes. It throws `"Invalid " + (type || "") + " ID"`.
  With no type this is `"Invalid  ID"`, with two spaces. `InvalidIDError` and the
  package's test of a malformed token both give `"Invalid ID"`.
  `OpaqueId.MalformedToken` and `MessageAgreement.InvalidIdMessageAgreement` show the
  difference. The two texts agree exactly when the type is a non-empty string.
- Not every round trip holds:
  - A string id made of digits (optionally signed), or the empty id, comes back
    as a number (`NumericStringIdBecomesNumber`).
  - Other string ids that JavaScript reads as numbers (`1.5`, ` 7`, `1e3`,
    `0x1f`, `Infinity`, white space only) come back as numbers too. The model
    reads them as strings (see "Numeric coercion" below).
  - An id containing `|` is cut at the first `|` (`TruncatedStringId`).
  - Non-ASCII text does not survive `encode` and `decode` (`Transform.NonAsciiNeverRoundTrips`).
  The string-id round trip is therefore proved only for ids that avoid all four.
  For the numeric case it takes ids whose first character cannot start a
  JavaScript number: not white space, a digit, a sign, `.` or `I`.
- `decodeId` checks the type only when one is given. `getIdMetadata` always
  checks it, with `""` as the default. The model keeps this asymmetry.

## Model

| member | source | states |
|---|---|---|
| `Base64.CharOf` | src/opaqueid.ts:6 | every sextet is written as a character of the RFC 4648 alphabet |
| `Base64.ValueOf` | src/opaqueid.ts:14 | reading an alphabet character gives the sextet it is written for, so the alphabet is a bijection with 0..63 |
| `Base64.ValueOfCharOf` | src/opaqueid.ts:5-15 | reading the character written for a sextet gives that sextet back |
| `Base64.SextetsLength` | src/opaqueid.ts:6 | n bytes become 4 sextets per whole 3-byte group, plus 2 or 3 for a last group of 1 or 2 bytes |
| `Base64.GroupBytes` | src/opaqueid.ts:5-15 | three bytes read back from the four sextets of their 24 bits |
| `Base64.BlockGroup` | src/opaqueid.ts:13-15 | any four sextets are the group of the three bytes they read back as |
| `Base64.BytesOfSextets` | src/opaqueid.ts:5-15 | the sextets of any byte sequence read back as that byte sequence |
| `Base64.SextetsOfBytes` | src/opaqueid.ts:13-15 | sextets that read back as bytes are exactly the sextets of those bytes |
| `Base64.BytesLength` | src/opaqueid.ts:14 | only 4k, 4k + 2 or 4k + 3 sextets read back, as 3k, 3k + 1 or 3k + 2 bytes |
| `Base64.TestVectors` | src/opaqueid.ts:6 | `f`, `fo`, `foo` and `foobar` encode as `Zg==`, `Zm8=`, `Zm9v` and `Zm9vYmFy`, the test vectors of section 10 of RFC 4648 |
| `Base64.DecodeLength` | src/opaqueid.ts:14 | a token whose length is not a multiple of 4 is rejected |
| `Base64.EncodeShape` | src/opaqueid.ts:5-7 | n bytes become 4 * ceil(n / 3) characters, each an alphabet character or `=` |
| `Base64.RoundTrip` | src/opaqueid.ts:5-15 | decoding the Base64 of any byte sequence gives that byte sequence back |
| `Base64.Canonical` | src/opaqueid.ts:13-15 | a token the strict decoder accepts is exactly the encoding of the bytes it decodes to |
| `Transform.Utf8Char` | src/opaqueid.ts:6 | a character becomes 1 to 4 bytes; exactly one byte, its own code, when it is below 0x80 |
| `Transform.Latin1` | src/opaqueid.ts:14 | each byte becomes the one character with that code |
| `Transform.RoundTrip` | src/opaqueid.ts:5-15 | `decode(encode(s)) == s` for every ASCII string |
| `Transform.Utf8OfEAcute` | src/opaqueid.ts:6 | `é` is written as the two UTF-8 bytes 0xC3 0xA9 |
| `Transform.NonAsciiDoesNotRoundTrip` | src/opaqueid.ts:5-15 | `é` comes back as `Ã©`: UTF-8 out, Latin-1 in |
| `Transform.Utf8Length` | src/opaqueid.ts:6 | UTF-8 never has fewer bytes than the text has characters, and has more for every text that is not ASCII |
| `Transform.NonAsciiNeverRoundTrips` | src/opaqueid.ts:5-15 | every text that is not ASCII comes back from `encode` then `decode` longer, so different |
| `Transform.EncodeShape` | src/opaqueid.ts:5-7 | the token has 4 * ceil(n / 3) characters of the Base64 alphabet or `=`, n being the UTF-8 length and, for ASCII, the string length |
| `Transform.DecodeEncode` | src/opaqueid.ts:13-15 | a canonical token whose bytes are ASCII is exactly the encoding of its decoded text |
| `Strings.Split` | src/opaqueid.ts:43 | `split('|')` always yields at least one piece |
| `Strings.SplitFree` | src/opaqueid.ts:59 | text without `|` splits into itself alone, so `getIdType` then returns the whole text |
| `Strings.SplitPrefix` | src/opaqueid.ts:28 | `split` of `a + "|" + b` with `a` free of `|` is `[a]` followed by the split of `b` |
| `Strings.SplitSingle` | src/opaqueid.ts:40-43 | the split has a single piece if and only if the text does not include `|`, so past the `includes` check there is a second field |
| `Strings.JoinSplit` | src/opaqueid.ts:43 | the pieces of a split contain no `|` and, joined with `|`, give the text back |
| `Strings.SplitJoin` | src/opaqueid.ts:28-29 | `|`-free fields joined with `|` split back into exactly those fields |
| `Strings.SplitFirstOfAppend` | src/opaqueid.ts:59 | whatever follows a `|` does not change the first piece |
| `Strings.OrEmpty` | src/opaqueid.ts:41 | `type || ''`: the given type, or `""` when it is undefined |
| `Numbers.DigitChar` | src/opaqueid.ts:28 | a digit value is written as the decimal digit character of that value |
| `Numbers.NatToStringValue` | src/opaqueid.ts:28 | the decimal text of a natural number is a run of digits whose value is that number |
| `Numbers.IntToStringValue` | src/opaqueid.ts:50 | `${n}` of an integer is numeric text, and reading it as a number gives `n` back |
| `Numbers.NumericMayReadAsNumber` | src/opaqueid.ts:50 | every text the model reads as a number starts the way a JavaScript number does |
| `Numbers.IntToStringPlain` | src/opaqueid.ts:28 | `${n}` of an integer is ASCII and contains no `|` |
| `OpaqueId.EncodeId` | src/opaqueid.ts:23-31 | the token is Base64: a whole number of 4-character groups of alphabet characters and `=` |
| `OpaqueId.Coerce` | src/opaqueid.ts:50 | the field becomes a number exactly when it is numeric text, with its numeric value; otherwise the field itself |
| `OpaqueId.DecodeId` | src/opaqueid.ts:38-51 | invalid exactly when the decoded text has no `|`, with message "Invalid " + (type or "") + " ID"; a type error exactly when a type is given and differs from the first field, carrying both; otherwise the coerced second field; never a type error without a type |
| `OpaqueId.GetIdType` | src/opaqueid.ts:57-61 | the first `|`-field of the decoded text, undefined exactly when that field is empty |
| `OpaqueId.GetIdMetadata` | src/opaqueid.ts:68-77 | a type error exactly when the first field differs from the type; metadata exactly when the first field matches and a non-empty third field exists, and then that field; never an invalid-id error |
| `OpaqueId.DecodedEncodeId` | src/opaqueid.ts:28-30 | for ASCII inputs the token decodes to `type|id`, followed by `|metadata` only when metadata is given |
| `OpaqueId.FieldsOfEncodeId` | src/opaqueid.ts:28-30 | splitting the decoded token gives exactly `[type, id]`, plus `[metadata]` if and only if metadata was given |
| `OpaqueId.LeadingFieldsOfFrame` | src/opaqueid.ts:28-30 | in the framed text the type is the first field and the id up to its first `|` the second |
| `OpaqueId.LeadingFieldsOfEncodeId` | src/opaqueid.ts:28-30 | the first field is the type and the second is the id up to its first `|`, whatever follows |
| `OpaqueId.DecodeIdOfEncodeId` | src/opaqueid.ts:38-51 | decoding an encoded id with another type gives the type error (expected, encoded type); with the same type or none, it gives the coerced id text |
| `OpaqueId.StringIdRoundTrip` | src/opaqueid.ts:38-51 | `decodeId(encodeId(s, t), t)` and `decodeId(encodeId(s, t))` give the string `s` back when `s` has no `|` and its first character cannot start a JavaScript number (no white space, digit, sign, `.` or `I`) |
| `OpaqueId.NumberIdRoundTrip` | src/opaqueid.ts:50 | `decodeId(encodeId(n, t), t)` gives the number `n` back, for every integer `n` |
| `OpaqueId.NumericStringIdBecomesNumber` | src/opaqueid.ts:50 | a string id that is numeric text comes back as its numeric value, not as the string |
| `OpaqueId.TruncatedStringId` | src/opaqueid.ts:43-50 | an id `a + "|" + b` comes back as `a`, the part before its first `|` |
| `OpaqueId.GetIdTypeOfEncodeId` | src/opaqueid.ts:57-61 | `getIdType(encodeId(id, t))` is `t` for a non-empty type, and undefined for the default type `""` |
| `OpaqueId.GetIdMetadataOfEncodeId` | src/opaqueid.ts:68-77 | `getIdMetadata(encodeId(id, t, m), e)` is the type error unless `e` is `t`, then `m` when given and non-empty, else undefined |
| `OpaqueId.MalformedToken` | src/opaqueid.ts:39-42 | the malformed token `8t7uhvgvkbvpivi` is an invalid id: "Invalid Test ID" with type `Test`, "Invalid  ID" (two spaces) without |
| `Errors.NewInvalidIdError` | src/error/InvalidIDError.ts:14-17 | message "Invalid <type> ID" for a non-empty type and "Invalid ID" when the type is undefined or empty; name "Invalid ID Error"; the declared `type` field stays undefined |
| `Errors.NewInvalidIdTypeError` | src/error/InvalidIDTypeError.ts:20-25 | message "Expected <expected> ID, got <actual> ID"; name "Invalid ID Type Error"; the two fields are the two arguments |
| `Errors.InvalidIdMessageDeterminesType` | src/error/InvalidIDError.ts:15 | two invalid-id messages are equal if and only if their types read the same (undefined and `""` alike) |
| `Errors.TypeMessageIsAmbiguous` | src/error/InvalidIDTypeError.ts:21-24 | two different type errors can share one message, so the fields carry information the message does not |
| `MessageAgreement.InvalidIdMessageAgreement` | src/opaqueid.ts:39-42 | `decodeId`'s invalid-id message equals `InvalidIDError`'s if and only if the type is non-empty; otherwise it is "Invalid  ID" |
| `MessageAgreement.DecodeIdTypeErrorAgreement` | src/opaqueid.ts:44-47 | `decodeId`'s type-mismatch message is `InvalidIDTypeError`'s for the requested type and the token's first field |
| `MessageAgreement.GetIdMetadataTypeErrorAgreement` | src/opaqueid.ts:73-75 | `getIdMetadata`'s type-mismatch message is `InvalidIDTypeError`'s for the requested type and the token's first field |

## Left out

- Lenient Base64 decoding: Node's `Buffer.from(…, 'base64')` accepts malformed tokens and returns best-effort bytes. That behaviour belongs to the runtime, and its source is not part of this model. Here a token that is not canonical Base64 decodes to the empty text. So `decodeId` reports it as an invalid id, `getIdType` as undefined, and `getIdMetadata` as a type error unless the type is `""`. All codec contracts are stated in terms of the decoded text.
- `JSON.stringify` and `JSON.parse`: metadata is carried as its serialised JSON text. `getIdMetadata` returns that text rather than the parsed object. Its error path is dropped too: `JSON.parse` throws on a third field that is not JSON (decoded text `|x|abc`, say), where the model returns the text.
- Numeric coercion: `isNaN` and `* 1` are modelled for the empty text (which reads as 0) and for decimal digits with an optional sign. JavaScript also reads other texts as numbers: surrounding whitespace, hexadecimal, exponents, fractions and `Infinity`. Those are treated as strings here. `-0` reads as 0.
- Numbers are unbounded integers. Floating point, precision beyond 2^53 and the exponent notation `${n}` uses from 10^21 on are not modelled.
- Strings are sequences of Unicode scalar values. JavaScript's UTF-16 strings with lone surrogates are not modelled. The round trips are proved for ASCII text only, because `encode` writes UTF-8 and `decode` reads Latin-1.
- Exceptions, `Error` inheritance, stack traces and the `name` property of the base class: errors are values.
- Falsy metadata values passed to `encodeId` are not modelled: metadata is either absent or a serialised object.
