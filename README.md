# Share code v8 codec — a Dafny model

This project models the core of the version-8 "share code" codec.

- A board share code is a fixed 424-byte record. It holds:
  - equipped items and unit ids for an 8×8 board;
  - talents;
  - packed rank words;
  - the bench;
  - underlords;
  - spare items.
- The record is compressed with snappy, written as base64 and prefixed with the version tag `8`.

The model has three modules, one per layer of the codec:

- `FieldCodecs` (`fields.dfy`) holds the field codecs:
  - The 3-byte equipped-item slot: a little-endian `uint16` and an unused byte.
  - The little-endian 32-bit word.
  - The packed unit-rank word: eight units at four bits each.
  - Packing tests the masks 1, 2, 4 and 8. Unpacking writes the bits 0, 1, 2 and 4, so a rank of 8 comes back as 16.
  - A rank of 16 is a value the unpacker produces, but it does not survive a pack and unpack round trip: the packer tests masks 1, 2, 4 and 8, never 16 (`UnpackPackOnUnpackedValues`, `SixteenIsDropped`).
  - `PackUnitRanks` and `UnpackUnitRanks` are the source's nested loops. The rank bytes go into a fresh 8-byte array.
  - Each is proved equal to a reference definition: `PackWord` and `UnpackWord`. The round-trip lemmas and test vectors are proved about those definitions.
- `Layout` (`layout.dfy`) holds the record `V8` and its 424-byte memory image:
  - The Go code reinterprets the struct's memory. The model writes it out field by field instead, at the offsets Go's alignment gives. These include a 3-byte zero pad at 289..291 before the 4-byte-aligned rank words.
  - `Image` serialises a record and `Parse` reads one back. They are proved inverse up to the pad.
- `Envelope` (`envelope.dfy`) holds the text envelope:
  - `ToBase64String` is `"8"` + base64(snappy(image)).
  - `V8FromBase64` drops one leading `8` if present and decodes, ignoring decoder errors as the Go code does. It then copies the bytes one by one into a zeroed 424-byte array.
  - The snappy and base64 codecs are parameters (`Codecs`). The laws the lemmas need are hypotheses: each decoder inverts its encoder, and snappy returns nothing on error.

`lib/sharecode.go` duplicates `sharecode/v8.go` under other names (`ShareCodeV8`, `ShareCodeFromBase64`, `PackedUnitRank`, and the item types without the `V8` prefix), except that it has no `ToString` alias. The same members model both. The table cites `sharecode/v8.go`. In `lib/sharecode.go`:

- `ToBase64String` is at 42-54.
- `ShareCodeFromBase64` is at 138-157.
- `UnpackUnitRanks` is at 162-178.
- `PackUnitRanks` is at 180-195.
- `ToEquippedItem` is at 205-215.
- `NewEquippedItem3Bytes` is at 217-222.
- The struct is at 25-40.
- `ToString` has no counterpart; `Envelope.ToString` models `sharecode/v8.go:43-46` only.

## Model

| member | source | states |
|---|---|---|
| FieldCodecs.NewEquippedItem3Bytes | sharecode/v8.go:223-228 | bytes 0 and 1 of the slot read little-endian are the item id; byte 2 is always 0 |
| FieldCodecs.ToEquippedItem | sharecode/v8.go:211-221 | the id's low byte is slot byte 0 and its high byte is slot byte 1; byte 2 is not read |
| FieldCodecs.ItemRoundTrip | sharecode/v8.go:211-228 | decoding an encoded item gives the item back, for every uint16 id |
| FieldCodecs.SlotRoundTrip | sharecode/v8.go:211-228 | re-encoding a decoded slot keeps bytes 0 and 1 and zeroes byte 2 |
| FieldCodecs.SlotIgnoresThirdByte | sharecode/v8.go:212-214 | two slots that agree on bytes 0 and 1 decode to the same item |
| FieldCodecs.ItemVectors | sharecode/v8_test.go:83-119 | 10170, 10171 and 10201 encode to [186,39,0], [187,39,0] and [217,39,0], and decode back |
| FieldCodecs.WordBytes | sharecode/v8.go:33-36 | a rank word is stored as four bytes that reassemble little-endian to the word |
| FieldCodecs.WordOfBytes | sharecode/v8.go:33-36 | byte k of the word read from four bytes is byte k of the input |
| FieldCodecs.WordRoundTrip | sharecode/v8.go:33-36 | reading back the four stored bytes of a word gives the word |
| FieldCodecs.WordBytesRoundTrip | sharecode/v8.go:33-36 | storing the word read from four bytes gives those bytes |
| FieldCodecs.PackWord | sharecode/v8.go:187-201 | nibble i of the packed word is the low nibble of rank i; ranks missing from a short slice count as 0 |
| FieldCodecs.UnpackWord | sharecode/v8.go:169-184 | unpacking yields exactly 8 bytes; each has only bits 0, 1, 2 and 4 set, so it is at most 23 |
| FieldCodecs.UnitBitShift | sharecode/v8.go:174 | `UnitBit(i, k)` is Go's uint32 `1 << ((i * 4) + offsetIndex)`, also used at line 195: the single bit 4i+k for units 0..7, and 0 for every later unit, whose shift reaches the word width |
| FieldCodecs.PackRank | sharecode/v8.go:191-197 | the inner loop over masks 1, 2, 4, 8 ORs the low nibble of the rank into unit i's slot, and nothing past unit 7 where the uint32 shift overflows |
| FieldCodecs.PackUnitRanks | sharecode/v8.go:187-201 | the nested loops over any slice length compute `PackWord`: ranks past the eighth are shifted out of the word |
| FieldCodecs.UnpackRank | sharecode/v8.go:173-180 | the inner loop over slots 0..3 sets output bits 0, 1, 2 and 4 of `ranks[i]` from nibble i of the word, and leaves every other entry unchanged |
| FieldCodecs.UnpackUnitRanks | sharecode/v8.go:169-184 | the nested loops that OR bits into the fresh slice compute `UnpackWord` |
| FieldCodecs.PackDependsOnlyOnNibbles | sharecode/v8.go:187-201 | slices whose first eight low nibbles agree pack to the same word; bits 4-7 and entries past the eighth never matter |
| FieldCodecs.UnpackPack | sharecode/v8.go:169-201 | after pack and unpack, rank i is the spread of its low nibble; a rank with low nibble 8 comes back as 16 |
| FieldCodecs.UnpackPackIdentity | sharecode/v8.go:169-201 | unpack(pack(r)) == r exactly when r has 8 entries, all below 8 |
| FieldCodecs.UnpackPackOnUnpackedValues | sharecode/v8.go:169-201 | on ranks made of 1, 2, 4 and 16, the round trip keeps bits 0-2 and clears bit 4 |
| FieldCodecs.SixteenIsDropped | sharecode/v8.go:191-192 | a rank of 16 packs to 0 and unpacks to 0 |
| FieldCodecs.PackUnpack | sharecode/v8.go:169-201 | pack(unpack(w)) is w with bit 3 of every nibble cleared; it equals w exactly when those bits are 0 |
| FieldCodecs.RankVectors | sharecode/v8_test.go:70-80 | [0,2,0,2,0,0,0,0] packs to 8224 and 8224 unpacks to it; the demo program's packings [2] → 2 and [0,0,0,0,0,0,3,0] → 0x03000000 |
| Layout.FieldOffsets | sharecode/v8.go:25-40 | the image is 424 bytes; each field sits at its offset (version 0, items 1, unit ids 193, talents 257, rank words 292, bench items 324, bench ids 348, bench ranks 356, underlord ids 360, underlord ranks 362, spare items 364); bytes 289-291 are zero |
| Layout.UnitItemOffset | sharecode/v8.go:30 | byte b of the item in board cell (r, c) is image byte 1 + 24r + 3c + b |
| Layout.BoardUnitIDOffset | sharecode/v8.go:31 | the unit id of cell (r, c) is image byte 193 + 8r + c |
| Layout.PackedUnitRankOffset | sharecode/v8.go:33 | byte b of rank word i is image byte 292 + 4i + b, least significant first |
| Layout.Image | sharecode/v8.go:49-50 | the serialiser that replaces reading the struct as raw memory; `FieldOffsets` states where each field lands and `ParseImage` and `ImageParse` that `Parse` inverts it |
| Layout.Parse | sharecode/v8.go:155-162 | the record read back from any 424 bytes has the dimensions Go declares for every array; `ImageParse` states that its image is the input with the pad cleared |
| Layout.ParseImage | sharecode/v8.go:25-40 | reading a record from its own image gives back the record |
| Layout.ParsedRegion | sharecode/v8.go:25-40 | every field read from any 424 bytes lays out again as exactly the bytes of its region |
| Layout.ImageParse | sharecode/v8.go:155-162 | the image of a record read from any 424 bytes is those bytes with the pad cleared, and the same bytes when the pad is already zero |
| Layout.ZeroV8 | sharecode/v8.go:153 | the zero value `V8{}` has Go's array dimensions; `ZeroImage` states that its image is all zeros |
| Layout.ZeroImage | sharecode/v8.go:153 | the zero record's image is 424 zero bytes |
| Envelope.FormatHex | sharecode/v8.go:56 | the text is lower-case base-16 digits with no leading zero (a text starting with '0' is exactly "0"), and read back in base 16 (`HexValue`) it is the number again |
| Envelope.VersionTag | sharecode/v8.go:56 | the version tag is the text "8" |
| Envelope.ToBase64String | sharecode/v8.go:48-60 | the text starts with '8', and the rest is base64 of the compressed image |
| Envelope.ToString | sharecode/v8.go:43-46 | the same text as `ToBase64String` |
| Envelope.StripVersionTag | sharecode/v8.go:146-148 | a text starting with '8' loses exactly that one tag character; any other text is kept as is |
| Envelope.Uncompressed | sharecode/v8.go:146-151 | the bytes handed to the copy loop: the text loses one leading '8' if it has one, is base64-decoded, then snappy-decoded, and the data of each decoder is taken whatever error it reports |
| Envelope.FromBase64 | sharecode/v8.go:145-163 | the reference decoder: whenever at most 424 bytes come out of the decompressor it returns a well-formed record (Go's fixed array sizes) whose image is those bytes, zero-extended to 424, with the pad cleared |
| Envelope.V8FromBase64 | sharecode/v8.go:145-163 | the imperative decoder equals `FromBase64`: strip one '8', decode ignoring errors, copy index by index into a zeroed 424-byte image, and panic past byte 424 |
| Envelope.DecodeRoundTrip | sharecode/v8.go:145-163 | if the codecs invert each other, decoding the text of a well-formed record returns that record |
| Envelope.TextRoundTrip | sharecode/v8_test.go:23-34 | under the same laws, the text of a record decodes to a record whose text is the same again |
| Envelope.DecodedImage | sharecode/v8.go:153-160 | without a panic, image byte j is uncompressed byte j for j below the data length, and 0 past it and in the pad |
| Envelope.OverlongPanics | sharecode/v8.go:158-160 | decoding panics exactly when more than 424 bytes come out of the decompressor |
| Envelope.DecodeFailureYieldsZero | sharecode/v8.go:150-153 | when snappy reports an error and returns nothing, the discarded error leaves the zero record |
| Envelope.TagOptional | sharecode/v8.go:146-148 | text not starting with '8' decodes exactly as the same text with "8" in front (the demo program at main.go:43 relies on this) |
| Envelope.OneTagStripped | sharecode/v8.go:146-148 | after a leading "8" the rest is decoded as is, even if it starts with '8' too |

## Left out

- Snappy, base64 and `strconv`'s general formatting are library code. Snappy and base64 are `Codecs` parameters. Their inverse laws are ghost predicates required by the lemmas that need them, not proved. `FormatHex` models base-16 formatting of natural numbers only; the minus sign Go writes for negative numbers is left out, since the version is the constant 8.
- The `unsafe.Pointer` reinterpretation (sharecode/v8.go:49-50, 155-156) is replaced by the explicit serialiser `Image` and parser `Parse`. Words are written little-endian, while the Go code uses the machine's native byte order.
- Padding bytes: Go copies uncompressed bytes 289-291 into the struct's padding, and a later encoding of that struct would read them again. The record here has no pad, so `Image` always writes zeros there, as `ImageParse` states. Go's treatment of padding when structs are copied is not modelled.
- Base64's partially decoded output on an error is passed to snappy unchanged, as in the source. No lemma assumes what that output is. `DecodeFailureYieldsZero` covers only snappy errors.
- The diagnostics `PrintBytesString`, `DebugPrintSizes` and `ReflectAlignments` (sharecode/v8.go:63-142) are printing, logging and reflection only.
- `main.go` is a demo program. The two packings it makes are in `RankVectors`, and its use of an untagged text is `TagOptional`.
- The test vectors that decode the real share-code string (sharecode/v8_test.go:14-68) need a real snappy and base64. The round trip they check is `TextRoundTrip`, under the inverse laws.
- The test scaffolding (log setup and `testEq`) is not modelled.
- `V8` is a plain datatype, so it can hold arrays of the wrong size, which no Go value can. Go's fixed array sizes are the predicate `WellFormed`. `ToBase64String`, `ToString` and the lemmas about records require it, and `Parse` ensures it.
- Game rules are not modelled. Item ids, unit ids, talent bytes and the underlord fields are opaque bytes to the codec. `version` is meant to stay 0, but the codec does not enforce that, and neither does the model.
- The empty input makes `sBase64[0]` panic. `V8FromBase64` therefore requires a non-empty text. Decoding more than 424 bytes panics at the copy loop; that appears as the `Panicked` outcome.
- PackUnitRanks, UnpackUnitRanks: the inner loop of each is a separate method, `PackRank` and `UnpackRank`. The loops themselves are unchanged. Only the proof is split.
