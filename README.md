# slugid in Dafny

A model of the slugid generator of `slugid` for Rust. A slugid is a v4 UUID
written in 22 characters of unpadded URL-safe base 64. The generator:

1. asks a cryptographically secure random source for 16 bytes;
2. stamps the RFC 4122 variant into byte 8 and the version into byte 6;
3. for a "nice" slugid, also clears the top bit of byte 0;
4. encodes the 16 bytes.

The project has three modules:

- `Base64Url` (`base64_url.dfy`) is the encoding: the URL and filename safe alphabet of section 5 of RFC 4648, without padding (section 3.2).
  - `Encode` is defined as section 4 of RFC 4648 describes it. It regroups 3 bytes into four 6-bit values, then writes one symbol per value.
  - `Decode` is the inverse of `Encode`. Both round trips are proved, and so is the exact set of strings that decode: the canonical encodings of section 3.5.
- `Slugid` (`slugid.dfy`) is the generator: `uuid_v4`, `v4_rng` and `nice_rng`.
  - The random source is a parameter, `SecureRandom`, standing for the answer the source gives to one request for 16 bytes. That answer is either the bytes or a failure.
  - `UuidV4` fills a fresh 16-byte array in place and stamps it. `NiceRng` clears the top bit in place.
  - The methods are proved against the functions `V4Bytes`, `NiceBytes`, `V4Slug` and `NiceSlug`.
  - The character classes of the tests (`CHARS_ALL`, `CHARS_C` to `CHARS_F`) are constants. The contracts of `V4Slug` and `NiceSlug` put every slugid in those classes, position by position. The "onto" lemmas prove the converse: every string with those classes is a slugid. So the slugids are *exactly* those strings.
- `PinnedSlugs` (`pinned_slugs.dfy`) fixes every character of the slugid of 16 zero bytes.

Bytes are modelled as numbers from 0 to 255, so the bit masks are written as arithmetic:

| source | model |
|---|---|
| `x & 0x3f \| 0x80` | `x % 64 + 128` |
| `x & 0x0f \| 0x40` | `x % 16 + 64` |
| `x & 0x7f` | `x % 128` |

The lemmas `VariantMask`, `VersionMask` and `NiceMask` prove each equal to the bitwise expression on every `bv8`.

## Model

| member | source | states |
|---|---|---|
| Slugid.Fill | src/lib.rs:19-21 | the buffer is filled with the source's 16 bytes exactly when the source succeeds; a failure is reported |
| Slugid.UuidV4 | src/lib.rs:18-25 | a failed fill gives the error "could not generate random values"; otherwise a fresh 16-byte array holding `V4Bytes` of the random bytes |
| Slugid.Variant | src/lib.rs:22 | the stamped byte 8 has top bits `10` and keeps the low six bits of the input |
| Slugid.Version | src/lib.rs:23 | the stamped byte 6 has top nibble `0100` and keeps the low nibble of the input |
| Slugid.ClearTop | src/lib.rs:42 | the nice byte 0 is below 128 and keeps the low seven bits of the input |
| Slugid.VariantMask | src/lib.rs:22 | the variant stamp equals `(x & 0x3f) \| 0x80` on every 8-bit value |
| Slugid.VersionMask | src/lib.rs:23 | the version stamp equals `(x & 0x0f) \| 0x40` on every 8-bit value |
| Slugid.NiceMask | src/lib.rs:42 | the nice stamp equals `x & 0x7f` on every 8-bit value |
| Slugid.V4Bytes | src/lib.rs:18-25 | byte 8 carries the variant, byte 6 the version, with their low bits kept; every other byte is the random byte unchanged |
| Slugid.NiceBytes | src/lib.rs:40-43 | byte 0 has its top bit cleared and keeps the other seven; bytes 1 to 15 are those of `uuid_v4` |
| Slugid.V4Slug | src/lib.rs:33-37 | whatever the random bytes, the slugid has the class the v4 spread test expects at each of its 22 positions |
| Slugid.NiceSlug | src/lib.rs:39-44 | whatever the random bytes, the nice slugid has those classes and its character 0 is in `CHARS_C` |
| Slugid.V4Rng | src/lib.rs:33-37 | error on a failed fill; otherwise the encoding of the stamped bytes, which has the slugid shape the tests expect |
| Slugid.NiceRng | src/lib.rs:39-44 | error on a failed fill; otherwise the encoding of the nice bytes, which is a nice slugid |
| Slugid.BlockSextets | src/lib.rs:27-31 | 16 bytes give 22 six-bit values; names which bits values 0, 8, 10 and 21 hold |
| Slugid.SymbolInCharsAll | src/lib.rs:66 | every symbol of the alphabet is in `CHARS_ALL` |
| Slugid.NiceSymbol | src/lib.rs:67 | values below 32 are written in `CHARS_C` |
| Slugid.VersionSymbol | src/lib.rs:68 | values 16 to 19 (version nibble `0100` first) are written in `CHARS_D` |
| Slugid.VariantSymbol | src/lib.rs:69 | values ending in the variant bits `10` are written in `CHARS_E` |
| Slugid.FillSymbol | src/lib.rs:70 | values with four zero fill bits are written in `CHARS_F` |
| Slugid.EncodeBlockShape | src/lib.rs:99-103 | any 16 bytes encode to 22 characters of `CHARS_ALL`, with no `=`, and character 21 in `CHARS_F` |
| Slugid.VersionChar | src/lib.rs:99-103 | bytes whose byte 6 carries the version encode with character 8 in `CHARS_D` |
| Slugid.VariantChar | src/lib.rs:99-103 | bytes whose byte 8 carries the variant encode with character 10 in `CHARS_E` |
| Slugid.NiceChar | src/lib.rs:112-116 | bytes whose byte 0 is below 128 encode with character 0 in `CHARS_C` |
| Slugid.IsV4Slug | src/lib.rs:99-103 | the v4 `expected` array: 22 characters of `CHARS_ALL`, with `CHARS_D` at 8, `CHARS_E` at 10 and `CHARS_F` at 21 |
| Slugid.IsNiceSlug | src/lib.rs:112-116 | the nice `expected` array: as above, with `CHARS_C` at 0 |
| Slugid.CharsAllLiteral | src/lib.rs:66 | the constant `CharsAll`, written in runs, is the test's literal `CHARS_ALL` |
| Slugid.CharsCLiteral | src/lib.rs:67 | the constant `CharsC`, written in runs, is the test's literal `CHARS_C` |
| Slugid.CharsAllValue | src/lib.rs:66 | every character of `CHARS_ALL` is a symbol of the alphabet |
| Slugid.CharsCValue | src/lib.rs:67 | every character of `CHARS_C` stands for a value below 32 |
| Slugid.CharsDValue | src/lib.rs:68 | every character of `CHARS_D` stands for a value from 16 to 19 |
| Slugid.CharsEValue | src/lib.rs:69 | every character of `CHARS_E` stands for a value ending in bits `10` |
| Slugid.CharsFValue | src/lib.rs:70 | every character of `CHARS_F` stands for a value with four zero low bits |
| Slugid.V4SlugOnto | src/lib.rs:93-103 | converse of the contract of `V4Slug`: every 22-character string with the expected classes is the slugid of some random bytes, so every expected character occurs at its position |
| Slugid.NiceSlugOnto | src/lib.rs:109-120 | converse of the contract of `NiceSlug`: every nice-shaped string is the nice slugid of some random bytes |
| Slugid.NiceAgreesWithV4 | src/lib.rs:39-44 | for the same random bytes, the nice slugid and the plain one agree on characters 1 to 21 |
| Slugid.SlugDecodes | src/lib.rs:27-31 | decoding either slugid gives back exactly the bytes that were encoded |
| PinnedSlugs.ZeroSlug | src/lib.rs:18-44 | the slugid of 16 zero bytes is exactly `AAAAAAAAQACAAAAAAAAAAA` in both modes |
| Base64Url.Symbol | src/lib.rs:27-31 | the symbol of every 6-bit value is in the URL-safe alphabet (never `=`) and is read back as that value |
| Base64Url.SymbolValue | src/lib.rs:27-31 | a character has a value exactly when it is in the URL-safe alphabet |
| Base64Url.ValuesOfSymbols | src/lib.rs:27-31 | reading the symbols of any 6-bit values gives the values back |
| Base64Url.SymbolsOfValues | src/lib.rs:27-31 | writing the values read from a string of alphabet symbols gives the string back |
| Base64Url.Split | src/lib.rs:27-31 | the four 6-bit values of a 3-byte group, read in base 64, are the same 24-bit number as the bytes in base 256 |
| Base64Url.Join | src/lib.rs:27-31 | the three bytes four values pack into are the same 24-bit number |
| Base64Url.Sextets | src/lib.rs:27-31 | n bytes give the least number of 6-bit values that hold 8n bits |
| Base64Url.BytesOfSextets | src/lib.rs:27-31 | repacking the 6-bit values of any bytes gives the bytes back |
| Base64Url.SextetsOfBytes | src/lib.rs:27-31 | regrouping what any repackable values repack to gives the values back |
| Base64Url.BytesDefined | src/lib.rs:27-31 | values repack into bytes if and only if they are canonical: not 4k + 1 of them, and zero fill bits in the last |
| Base64Url.SextetsAppend | src/lib.rs:27-31 | whole 3-byte groups are regrouped independently of what follows |
| Base64Url.SextetsGroupAt | src/lib.rs:27-31 | values 4g to 4g + 3 are the regrouping of byte group g |
| Base64Url.SextetsAfterFirst | src/lib.rs:27-31 | changing only the top six bits of byte 0 changes only value 0 |
| Base64Url.Encode | src/lib.rs:29-31 | n bytes encode to (8n + 5) / 6 characters, the fewest that hold 8n bits, all in `A-Z a-z 0-9 - _`, none `=` (no padding) |
| Base64Url.DecodeEncode | src/lib.rs:27-31 | decoding an encoding gives back the bytes |
| Base64Url.EncodeDecode | src/lib.rs:27-31 | every string that decodes is the encoding of its decoding |
| Base64Url.DecodeAccepts | src/lib.rs:27-31 | a string decodes if and only if it is made of alphabet symbols whose values are canonical |
| Base64Url.EncodeInjective | src/lib.rs:27-31 | distinct byte sequences have distinct encodings |
| Base64Url.EncodeAppend | src/lib.rs:27-31 | the encoding of whole 3-byte groups followed by more bytes is the concatenation of the encodings |
| Base64Url.EncodeAfterFirstSymbol | src/lib.rs:27-31 | bytes that differ only in the top six bits of byte 0 have encodings that differ at most in character 0 |

## Left out

- The process-wide random source (src/lib.rs:11-13, a lazily created `SystemRandom`) is not modelled. The random source is a parameter: the bytes it supplies, or its failure.
- `v4()` and `nice()` (src/lib.rs:47-55) only pass that process-wide source to `v4_rng` and `nice_rng`. Since the source is a parameter, they coincide with `V4Rng` and `NiceRng`.
- The panic of `expect` on a failed fill (src/lib.rs:20-21) is modelled as the error result `Err(CouldNotGenerateRandomValues)`, not as an abort.
- The internals of the `base64` crate are not part of this model. `encode_config` with `URL_SAFE_NO_PAD` is modelled by its definition in RFC 4648 (sections 3.2, 4 and 5).
- The spread tests (src/lib.rs:72-94) call the generator 2560 times and compare the characters seen at each position with the expected classes. Sampling, and the probability that every character turns up, are not modelled. Instead, the shape lemmas and their converses prove that the set of possible slugids is exactly the set of strings with those classes.
- V4SlugOnto: states that every expected character is possible, not that it turns up in a given number of draws.
- `CHARS_ALL` and `CHARS_C` are written as concatenations of `Upper`, `Lower`, `Digits`, `"abcdef"` and `"-_"`. `CharsAllLiteral` and `CharsCLiteral` prove each equal to the literal in the test.
- Bytes are integers from 0 to 255 rather than `u8` bit patterns. `VariantMask`, `VersionMask` and `NiceMask` tie the arithmetic to the bitwise masks of the source.
