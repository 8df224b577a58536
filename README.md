# Geohash codec, adjacency and bounding-box cover — a Dafny model

This project models the core of the aughtone geohash library (Kotlin). A
geohash names a cell of the WGS84 latitude/longitude rectangle. The cell is
found by bisecting the longitude and latitude intervals in turn, one bit per
step, and writing five bits per character in a 32-letter alphabet. The model
covers:

- the bit-interleaving encoder `encodeToLong`, which packs the bits at the top
  of a 64-bit word and the length into its low four bits;
- the renderer `fromLongToString` and its inverse `fromStringToLong`;
- the text encoder `encodeGeohash` and the decoder `decodeGeohash`, plus
  `hashContains`;
- the adjacency walk `adjacentHash` over the `NEIGHBOURS`/`BORDERS` tables,
  the edge-of-the-world shortcut `adjacentHashAtBorder`, the `steps`
  overload and `neighbours`;
- the bounding-box operations `hashLengthToCoverBoundingBox`,
  `coverBoundingBoxLongs`, `coverBoundingBox` (both overloads) and
  `coverBoundingBoxMaxHashes`;
- the supporting pieces:
  - the signed base-32 integer codec of `support/Base32.kt`;
  - `to180`, `refineInterval` and the cell width/height formulas;
  - `Direction.opposite` in both packages;
  - the `Accuracy` table and `String.toAccuracy`;
  - the `Coverage` and `CoverageLongs` result types.

Modules follow the source files:

| module | file |
|---|---|
| `Base32` | `support/Base32.kt` |
| `GeohashInternal` | `Geohash.internal.kt` |
| `Directions` | `io.github` `Direction.kt` |
| `LegacyDirections` | `com.github` `Direction.kt` |
| `Accuracies` | `Accuracy.kt` |
| `GeohashExtension` | `Geohash.extension.kt` |
| `Coverages` | `CoverageLongs.kt` and `Coverage.kt` |

`Geohash.kt` is split by concern:
- `Longs`: 64-bit words as their unsigned bit pattern in [0, 2^64);
- `Bisection`: the shared bisection, as a specification;
- `GeohashCodec`: the encoder, renderer and decoder;
- `GeohashText`: `encodeGeohash`, `hashContains` and the degree tables;
- `GeohashAdjacency`;
- `GeohashCover`: `hashLengthToCoverBoundingBox`;
- `GeohashTiling`: the covers.

Representation choices:
- `Double` is `real`. Every bisection midpoint of [-90, 90] and [-180, 180] is
  a dyadic rational, and the width/height exponents are integers, so these
  computations are exact.
- A `Long` is a `nat` below 2^64:
  - `ushr` is division by a power of two;
  - `shl` is multiplication modulo 2^64;
  - `and 0x0f` is `% 16`;
  - `or` is a bitwise function.
- A thrown exception is `Fail` of the `Result` type, carrying the source's
  message text without the values it interpolates (the character, the word
  or the length the message would show).
- A nullable result is `Option`.
- The imperative routines are methods proved equal to specification
  functions:
  - the encoder loop, the renderer loop and the decoder loop;
  - the base-32 loops;
  - the corner-bisection loop;
  - the nested tiling loops;
  - the max-hashes loop.

Where documentation and code disagree, the model follows the code:
- `to180` is documented to return a value in (-180, 180], but the code sends
  540 to -180 (`GeohashInternal.To180OfThreeHalfTurns`).
- `adjacentHashAtBorder` compares the latitude with half of `widthDegrees`,
  not `heightDegrees`. The model keeps this.
- The `CoverageLongs` documentation claims `ratio >= 1`. The code does not
  establish it, and the model states only what the code computes.

## Model

| member | source | states |
|---|---|---|
| Base32.CharactersAscending | library/src/commonMain/kotlin/io/github/aughtone/geohash/support/Base32.kt:9-13 | the alphabet is strictly increasing by character code |
| Base32.CharactersDistinct | library/src/commonMain/kotlin/io/github/aughtone/geohash/support/Base32.kt:9-13 | the 32 characters are distinct |
| Base32.CharacterIndexesInverse | library/src/commonMain/kotlin/io/github/aughtone/geohash/support/Base32.kt:18-19 | the index map has exactly the alphabet as keys and sends the i-th character to i |
| Base32.CharIndexSound | library/src/commonMain/kotlin/io/github/aughtone/geohash/support/Base32.kt:97-98 | a successful lookup returns the character's position |
| Base32.CharIndexDefined | library/src/commonMain/kotlin/io/github/aughtone/geohash/support/Base32.kt:97-98 | the lookup succeeds exactly on the alphabet; otherwise the `requireNotNull` failure |
| Base32.CharIndexOfCharacter | library/src/commonMain/kotlin/io/github/aughtone/geohash/support/Base32.kt:97-98 | `charIndexOfBase32(charactersBase32[i]) == i` for every i < 32 |
| Base32.RejectsQuestionMark | library/src/commonMain/kotlin/io/github/aughtone/geohash/support/Base32.kt:97-98 | '?' is rejected |
| Base32.DigitsNoLeadingZero | library/src/commonMain/kotlin/io/github/aughtone/geohash/support/Base32.kt:40-46 | the digit string starts with '0' only for 0, which is "0" |
| Base32.DigitsFit | library/src/commonMain/kotlin/io/github/aughtone/geohash/support/Base32.kt:40-46 | n has at most k digits exactly when n < 32^k |
| Base32.ValueOfDigits | library/src/commonMain/kotlin/io/github/aughtone/geohash/support/Base32.kt:40-46 | reading the digits of n positionally gives n |
| Base32.ValueLeadingZeros | library/src/commonMain/kotlin/io/github/aughtone/geohash/support/Base32.kt:78-82 | leading '0's do not change the value |
| Base32.PadStart | library/src/commonMain/kotlin/io/github/aughtone/geohash/support/Base32.kt:48-50 | `padStart` succeeds for a non-negative length, never truncates, and prepends only the pad character |
| Base32.EncodeBase32 | library/src/commonMain/kotlin/io/github/aughtone/geohash/support/Base32.kt:32-52 | the digit loop with its reversed builder computes the sign, the digits of the magnitude and the padding, with `length + 1` in `Int` arithmetic |
| Base32.EncodeWrapsAtIntMax | library/src/commonMain/kotlin/io/github/aughtone/geohash/support/Base32.kt:47-51 | at `length == Int.MAX_VALUE` the call throws exactly for a negative input, because the wrapped length reaches `padStart` as `Int.MIN_VALUE` |
| Base32.EncodeBase32Default | library/src/commonMain/kotlin/io/github/aughtone/geohash/support/Base32.kt:62-64 | `encodeBase32(i) == encodeBase32(i, 12)` |
| Base32.DecodeBase32 | library/src/commonMain/kotlin/io/github/aughtone/geohash/support/Base32.kt:73-85 | the right-to-left loop succeeds exactly when every digit is in the alphabet, and returns the signed positional value |
| Base32.EncodedNonNegative | library/src/commonMain/kotlin/io/github/aughtone/geohash/support/Base32.kt:40-51 | for n >= 0 the output is the digits of n, '0'-padded to at least `length`, never truncated |
| Base32.EncodeDecodeRoundTrip | library/src/commonMain/kotlin/io/github/aughtone/geohash/support/Base32.kt:32-52 | `decodeBase32(encodeBase32(n, len)) == n` for 0 <= n < 32^12 and len <= 12 |
| Base32.MinusNegates | library/src/commonMain/kotlin/io/github/aughtone/geohash/support/Base32.kt:74-83 | a leading '-' negates the decoded value, and fails exactly when the rest fails |
| Base32.ZerosDecodeToZero | library/src/commonMain/kotlin/io/github/aughtone/geohash/support/Base32.kt:78-82 | "0000000" and "0" both decode to 0 |
| Base32.NegativePaddingBeforeSign | library/src/commonMain/kotlin/io/github/aughtone/geohash/support/Base32.kt:47-48 | for negative input the padding goes before the sign: `encodeBase32(-123, 4) == "00-3v"` |
| Base32.NegativePaddingBreaksRoundTrip | library/src/commonMain/kotlin/io/github/aughtone/geohash/support/Base32.kt:47-48 | that output does not decode |
| Base32.SignFirstRoundTrip | library/src/commonMain/kotlin/io/github/aughtone/geohash/support/Base32.kt:32-52 | with the sign placed before the padding, every number of at most 12 digits round-trips, negative ones included |
| Base32.EncodeVectors | library/src/commonMain/kotlin/io/github/aughtone/geohash/support/Base32.kt:32-52 | the unit-test encodings: 1234567 to "15pn7", 0 to "0", -123 to "-3v", and 123 to "00000000003v" |
| Base32.DecodeVectors | library/src/commonMain/kotlin/io/github/aughtone/geohash/support/Base32.kt:73-85 | "15pn7" decodes to 1234567 and "-3v" to -123 |
| GeohashInternal.RefineInterval | library/src/commonMain/kotlin/io/github/aughtone/geohash/Geohash.internal.kt:19-22 | the lower bound moves to the midpoint when `cd and mask != 0`, otherwise the upper; the other entry is unchanged; the new interval lies inside the old and is half as wide |
| GeohashInternal.To180 | library/src/commonMain/kotlin/io/github/aughtone/geohash/Geohash.internal.kt:30-38 | the result always lies in [-180, 180] |
| GeohashInternal.To180WholeTurns | library/src/commonMain/kotlin/io/github/aughtone/geohash/Geohash.internal.kt:30-38 | `d - to180(d)` is a whole number of turns of 360 |
| GeohashInternal.To180Periodic | library/src/commonMain/kotlin/io/github/aughtone/geohash/Geohash.internal.kt:30-38 | shifting the angle by whole turns leaves `to180` unchanged, except that the antimeridian may switch between 180 and -180 |
| GeohashInternal.To180Identity | library/src/commonMain/kotlin/io/github/aughtone/geohash/Geohash.internal.kt:30-38 | `to180(d) == d` on [-180, 180] |
| GeohashInternal.To180Odd | library/src/commonMain/kotlin/io/github/aughtone/geohash/Geohash.internal.kt:30-31 | `to180(-d) == -to180(d)` for d > 0 |
| GeohashInternal.To180OfThreeHalfTurns | library/src/commonMain/kotlin/io/github/aughtone/geohash/Geohash.internal.kt:33-34 | `to180(540) == -180` and `to180(-540) == 180` |
| GeohashInternal.To180AboveHalfTurn | library/src/commonMain/kotlin/io/github/aughtone/geohash/Geohash.internal.kt:33-34 | for d > 180 the result lies in [-180, 180) |
| GeohashInternal.ExponentsExact | library/src/commonMain/kotlin/io/github/aughtone/geohash/Geohash.internal.kt:47-68 | the integral exponents equal `2.5 n - 1` / `2.5 n - 0.5` (width) and `2.5 n` / `2.5 n - 0.5` (height) |
| GeohashInternal.WidthValues | library/src/commonMain/kotlin/io/github/aughtone/geohash/Geohash.internal.kt:47-53 | width(0)=360, width(1)=45, width(2)=11.25 and width(13)=180/2^32 |
| GeohashInternal.HeightValues | library/src/commonMain/kotlin/io/github/aughtone/geohash/Geohash.internal.kt:62-68 | height(0)=180, height(1)=45 and height(2)=5.625 |
| GeohashInternal.WidthVersusHeight | library/src/commonMain/kotlin/io/github/aughtone/geohash/Geohash.internal.kt:47-68 | for odd n the cells are square; for even n they are twice as wide as high |
| GeohashInternal.TwoMoreCharacters | library/src/commonMain/kotlin/io/github/aughtone/geohash/Geohash.internal.kt:47-68 | width(n+2) = width(n)/32 and height(n+2) = height(n)/32 |
| Directions.Opposite | library/src/commonMain/kotlin/io/github/aughtone/geohash/Direction.kt:15-22 | `opposite` has no fixed point and keeps the axis, which pins down the result |
| Directions.OppositeTable | library/src/commonMain/kotlin/io/github/aughtone/geohash/Direction.kt:17-20 | BOTTOM↔TOP and LEFT↔RIGHT |
| Directions.OppositeInvolution | library/src/commonMain/kotlin/io/github/aughtone/geohash/Direction.kt:15-22 | `d.opposite().opposite() == d` |
| LegacyDirections.Opposite | library/src/commonMain/kotlin/com/github/aughtone/geohash/Direction.kt:15-22 | no fixed point; the axis is kept |
| LegacyDirections.OppositeTable | library/src/commonMain/kotlin/com/github/aughtone/geohash/Direction.kt:17-20 | BOTTOM↔TOP and LEFT↔RIGHT |
| LegacyDirections.OppositeInvolution | library/src/commonMain/kotlin/com/github/aughtone/geohash/Direction.kt:15-22 | an involution |
| LegacyDirections.OppositeAgrees | library/src/commonMain/kotlin/com/github/aughtone/geohash/Direction.kt:15-22 | the legacy `opposite` agrees with the current one constant by constant |
| Accuracies.Ordinal | library/src/commonMain/kotlin/io/github/aughtone/geohash/Accuracy.kt:22-71 | `ordinal` is the entry's position in declaration order |
| Accuracies.Length | library/src/commonMain/kotlin/io/github/aughtone/geohash/Accuracy.kt:22-71 | every length is in 1..12 and equals ordinal + 1 |
| Accuracies.LengthsIncrease | library/src/commonMain/kotlin/io/github/aughtone/geohash/Accuracy.kt:26-70 | lengths strictly increase in declaration order |
| Accuracies.OrdinalOfValue | library/src/commonMain/kotlin/io/github/aughtone/geohash/Accuracy.kt:22-71 | `entries[i].ordinal == i` |
| Accuracies.KnownLengths | library/src/commonMain/kotlin/io/github/aughtone/geohash/Accuracy.kt:26-70 | About5000km=1, About150km=3, About5km=5, About5m=9, About1m=10 and About3cm=12 |
| GeohashExtension.ToAccuracy | geohash/src/commonMain/kotlin/io/github/aughtone/geohash/Geohash.extension.kt:21 | the result is a prefix of the input, of length min(\|s\|, accuracy.length) |
| GeohashExtension.ShortHashUnchanged | geohash/src/commonMain/kotlin/io/github/aughtone/geohash/Geohash.extension.kt:19-21 | a string no longer than the accuracy is returned unchanged |
| GeohashExtension.ToAccuracyIdempotent | geohash/src/commonMain/kotlin/io/github/aughtone/geohash/Geohash.extension.kt:21 | truncating twice to one accuracy is truncating once |
| GeohashExtension.ToAccuracyTwice | geohash/src/commonMain/kotlin/io/github/aughtone/geohash/Geohash.extension.kt:21 | truncating to a then to b keeps the prefix of the shorter length |
| GeohashExtension.DocumentedSamples | geohash/src/commonMain/kotlin/io/github/aughtone/geohash/Geohash.extension.kt:15-18 | "9q9hr5udfr" truncates to "9q9", "9q9hr" and "9q9hr5udf" |
| Bisection.EncodeBitsPrefix | library/src/commonMain/kotlin/io/github/aughtone/geohash/Geohash.kt:285-302 | encoding fewer bits gives a prefix of encoding more |
| Bisection.CellDimensions | library/src/commonMain/kotlin/io/github/aughtone/geohash/Geohash.internal.kt:47-68 | after 5n bisection steps a cell is `calculateWidthDegrees(n)` wide and `calculateHeightDegrees(n)` high |
| Bisection.CellInWorld | library/src/commonMain/kotlin/io/github/aughtone/geohash/Geohash.kt:285-302 | every cell lies in the world with positive extent |
| Bisection.CellNested | library/src/commonMain/kotlin/io/github/aughtone/geohash/Geohash.kt:285-302 | a longer bit string's cell is inside a prefix's cell |
| Bisection.EncodeContains | library/src/commonMain/kotlin/io/github/aughtone/geohash/Geohash.kt:285-302 | the encoder's cell contains the encoded point |
| Bisection.EncodeOwned | library/src/commonMain/kotlin/io/github/aughtone/geohash/Geohash.kt:285-302 | a point in the half-open cell of `bits` encodes to exactly `bits` |
| Bisection.CentreEncodes | library/src/commonMain/kotlin/io/github/aughtone/geohash/Geohash.kt:733-736 | the centre of a cell encodes back to the cell's bits |
| GeohashCodec.IndexOfFirst | library/src/commonMain/kotlin/io/github/aughtone/geohash/Geohash.kt:722 | `indexOf` returns the first occurrence, and -1 exactly when there is none |
| GeohashCodec.IndexOfBase32 | library/src/commonMain/kotlin/io/github/aughtone/geohash/Geohash.kt:31 | `BASE32.indexOf(BASE32[i]) == i` |
| GeohashCodec.GroupBit | library/src/commonMain/kotlin/io/github/aughtone/geohash/Geohash.kt:38 | mask j of `BITS` tests bit j of the character's value, with -1 acting as all ones |
| GeohashCodec.HashBitsOfHashString | library/src/commonMain/kotlin/io/github/aughtone/geohash/Geohash.kt:255-265 | reading back the characters of a bit string gives the bit string |
| GeohashCodec.HashStringOfHashBits | library/src/commonMain/kotlin/io/github/aughtone/geohash/Geohash.kt:720-732 | a string over the alphabet is the characters of its own bits |
| GeohashCodec.Steps | library/src/commonMain/kotlin/io/github/aughtone/geohash/Geohash.kt:284 | `ushr` uses the shift distance mod 64; for lengths 1..12 there are 5·length steps |
| GeohashCodec.EncodeToLong | library/src/commonMain/kotlin/io/github/aughtone/geohash/Geohash.kt:275-305 | the loop packs the bisection bits of the point from the top bit down and ors in the length |
| GeohashCodec.EncodeWordValue | library/src/commonMain/kotlin/io/github/aughtone/geohash/Geohash.kt:275-305 | for lengths 1..12 the word is the bits' number shifted to the top, plus the length |
| GeohashCodec.EncodeWordLayout | library/src/commonMain/kotlin/io/github/aughtone/geohash/Geohash.kt:275-305 | the top 5·length bits are the interleaved bits, and everything below them is the length |
| GeohashCodec.EncodeWordNibble | library/src/commonMain/kotlin/io/github/aughtone/geohash/Geohash.kt:304 | the low nibble equals the length |
| GeohashCodec.LongToString | library/src/commonMain/kotlin/io/github/aughtone/geohash/Geohash.kt:255-265 | rejects a nibble outside [1,12]; otherwise returns nibble-many characters |
| GeohashCodec.LongToStringAlphabet | library/src/commonMain/kotlin/io/github/aughtone/geohash/Geohash.kt:261 | every rendered character is in `BASE32` |
| GeohashCodec.FromLongToString | library/src/commonMain/kotlin/io/github/aughtone/geohash/Geohash.kt:255-265 | the shifting loop over the CharArray renders the word's top 5-bit groups |
| GeohashCodec.RenderEncoded | library/src/commonMain/kotlin/io/github/aughtone/geohash/Geohash.kt:255-305 | rendering an encoded word gives the characters of the encoder's 5·length bits |
| GeohashCodec.DecodeCellIsCellOf | library/src/commonMain/kotlin/io/github/aughtone/geohash/Geohash.kt:710-737 | the decoder's nested refinement reaches the cell of the hash's bits |
| GeohashCodec.RefineCharacter | library/src/commonMain/kotlin/io/github/aughtone/geohash/Geohash.kt:723-731 | the inner loop's five mask tests refine alternately and flip the parity five times |
| GeohashCodec.DecodeGeohash | library/src/commonMain/kotlin/io/github/aughtone/geohash/Geohash.kt:710-737 | the returned point is the centre of the hash's cell |
| GeohashText.WidthDegrees | library/src/commonMain/kotlin/io/github/aughtone/geohash/Geohash.kt:555-560 | succeeds exactly for n >= 0 (a negative n indexes the cache out of bounds) |
| GeohashText.HeightDegrees | library/src/commonMain/kotlin/io/github/aughtone/geohash/Geohash.kt:540-545 | succeeds exactly for n >= 0 |
| GeohashText.CachedWidth | library/src/commonMain/kotlin/io/github/aughtone/geohash/Geohash.kt:85-87 | the cached widths equal the formula |
| GeohashText.CachedHeight | library/src/commonMain/kotlin/io/github/aughtone/geohash/Geohash.kt:89-91 | the cached heights equal the formula |
| GeohashText.DegreesOfCell | library/src/commonMain/kotlin/io/github/aughtone/geohash/Geohash.kt:540-560 | every n-character cell is `widthDegrees(n)` wide and `heightDegrees(n)` high |
| GeohashText.HashContainsCell | library/src/commonMain/kotlin/io/github/aughtone/geohash/Geohash.kt:378-382 | for a longitude in [-180, 180], `hashContains` holds exactly when the cell holds the latitude and holds the longitude or a copy a turn away |
| GeohashText.HashContainsCentre | library/src/commonMain/kotlin/io/github/aughtone/geohash/Geohash.kt:378-382 | `hashContains(h, decodeGeohash(h))` |
| GeohashText.DecodeEmpty | library/src/commonMain/kotlin/io/github/aughtone/geohash/Geohash.kt:710-737 | `decodeGeohash("")` is (0, 0) |
| GeohashText.DecodedInWorld | library/src/commonMain/kotlin/io/github/aughtone/geohash/Geohash.kt:710-737 | every decoded latitude is in [-90, 90] and longitude in [-180, 180] |
| GeohashText.EncodeGeohash | library/src/commonMain/kotlin/io/github/aughtone/geohash/Geohash.kt:695-700 | succeeds exactly for length 1..12 and latitude in [-90, 90], and then has exactly `length` characters |
| GeohashText.EncodeGeohashBits | library/src/commonMain/kotlin/io/github/aughtone/geohash/Geohash.kt:695-700 | the characters are those of the bisection bits of the point with its longitude put through `to180` |
| GeohashText.EncodeGeohashAlphabet | library/src/commonMain/kotlin/io/github/aughtone/geohash/Geohash.kt:695-700 | every character is in the alphabet |
| GeohashText.EncodeGeohashPrefix | library/src/commonMain/kotlin/io/github/aughtone/geohash/Geohash.kt:695-700 | a shorter encoding is a prefix of a longer one |
| GeohashText.EncodeDecodedCentre | library/src/commonMain/kotlin/io/github/aughtone/geohash/Geohash.kt:695-737 | encoding the decoded centre at the same length gives back any 1..12-character hash over the alphabet |
| GeohashText.EncodeGeohashContains | library/src/commonMain/kotlin/io/github/aughtone/geohash/Geohash.kt:378-382 | for every longitude, not only those in [-180, 180], the encoding of a point contains that point |
| GeohashText.HashContainsNormalised | library/src/commonMain/kotlin/io/github/aughtone/geohash/Geohash.kt:378-382 | `hashContains` gives the same answer for a longitude and for `to180` of it |
| GeohashText.FromStringToLong | library/src/commonMain/kotlin/io/github/aughtone/geohash/Geohash.kt:267 | the word of the decoded centre at the hash's own length |
| GeohashText.LongRoundTrip | library/src/commonMain/kotlin/io/github/aughtone/geohash/Geohash.kt:255-305 | `fromStringToLong(fromLongToString(w)) == w` for every word w of `encodeToLong` with length 1..12 |
| GeohashAdjacency.NeighbourRowPermutes | library/src/commonMain/kotlin/io/github/aughtone/geohash/Geohash.kt:44-61 | every `NEIGHBOURS` row is a permutation of `BASE32` |
| GeohashAdjacency.NeighbourLookup | library/src/commonMain/kotlin/io/github/aughtone/geohash/Geohash.kt:118-120 | so the table lookup finds every alphabet character |
| GeohashAdjacency.BorderRowInAlphabet | library/src/commonMain/kotlin/io/github/aughtone/geohash/Geohash.kt:66-83 | every `BORDERS` character is in the alphabet |
| GeohashAdjacency.LowercaseOfBase32 | library/src/commonMain/kotlin/io/github/aughtone/geohash/Geohash.kt:112 | lower-casing leaves a hash over the alphabet unchanged |
| GeohashAdjacency.AtBorderShape | library/src/commonMain/kotlin/io/github/aughtone/geohash/Geohash.kt:128-155 | the shortcut fails only beyond 12 characters, and its hash has the input's length and is in the alphabet |
| GeohashAdjacency.AdjacentOfEmpty | library/src/commonMain/kotlin/io/github/aughtone/geohash/Geohash.kt:107 | the empty hash is rejected |
| GeohashAdjacency.AdjacentShape | library/src/commonMain/kotlin/io/github/aughtone/geohash/Geohash.kt:106-121 | a neighbour has the hash's length, and is in the alphabet when the hash is |
| GeohashAdjacency.AdjacentReplacesLast | library/src/commonMain/kotlin/io/github/aughtone/geohash/Geohash.kt:112-120 | when the last character is not in the `BORDERS` row, only the last character changes, to its table entry |
| GeohashAdjacency.NeighbourInverse | library/src/commonMain/kotlin/io/github/aughtone/geohash/Geohash.kt:43-83 | for every parity and every character of the alphabet, the `NEIGHBOURS` row of the opposite direction maps the neighbour character back to the character; a character off the `BORDERS` row of `d` moves to one off the opposite `BORDERS` row |
| GeohashAdjacency.AdjacentInverse | library/src/commonMain/kotlin/io/github/aughtone/geohash/Geohash.kt:106-120 | away from the edge of the world and off the `BORDERS` row, one move in direction `d` followed by one move in `opposite(d)` gives back the original hash |
| GeohashAdjacency.AdjacentHashSteps | library/src/commonMain/kotlin/io/github/aughtone/geohash/Geohash.kt:213-223 | the method equals the walk: opposite direction with the saturated magnitude for negative steps, otherwise `steps` single moves |
| GeohashAdjacency.Repeat | library/src/commonMain/kotlin/io/github/aughtone/geohash/Geohash.kt:219-221 | the `for` loop of single steps equals n-fold iteration, stopping at the first failure |
| GeohashAdjacency.Magnitude | library/src/commonMain/kotlin/io/github/aughtone/geohash/Geohash.kt:216 | `abs(steps.toDouble()).toInt()` is \|steps\|, saturated at `Int.MAX_VALUE` |
| GeohashAdjacency.AdjacentZeroSteps | library/src/commonMain/kotlin/io/github/aughtone/geohash/Geohash.kt:213-223 | `adjacentHash(h, d, 0) == h` |
| GeohashAdjacency.AdjacentNegativeSteps | library/src/commonMain/kotlin/io/github/aughtone/geohash/Geohash.kt:214-217 | a negative count walks \|steps\| steps in `d.opposite()` |
| GeohashAdjacency.IterateSplits | library/src/commonMain/kotlin/io/github/aughtone/geohash/Geohash.kt:219-221 | a + b steps are a steps and then b more |
| GeohashAdjacency.IterateStopsAtFailure | library/src/commonMain/kotlin/io/github/aughtone/geohash/Geohash.kt:219-221 | once a walk fails, further steps keep that failure |
| GeohashAdjacency.NeighboursOrder | library/src/commonMain/kotlin/io/github/aughtone/geohash/Geohash.kt:233-246 | eight entries: left, right, top, bottom, left-top, left-bottom, right-top and right-bottom |
| GeohashAdjacency.NeighboursSucceed | library/src/commonMain/kotlin/io/github/aughtone/geohash/Geohash.kt:233-246 | `neighbours` fails exactly when one of its eight calls fails |
| GeohashCover.CommonPrefix | library/src/commonMain/kotlin/io/github/aughtone/geohash/Geohash.kt:340-362 | the corners agree on the first r bits and differ at bit r |
| GeohashCover.HashLengthToCoverBoundingBox | library/src/commonMain/kotlin/io/github/aughtone/geohash/Geohash.kt:330-364 | the loop returns the number of whole characters on which the corners' bisection bits agree, or 12 |
| GeohashCover.HashLengthToCoverBoundingBoxInts | library/src/commonMain/kotlin/io/github/aughtone/geohash/Geohash.kt:308-314 | the `Int` overload computes the same on the corners as doubles |
| GeohashCover.CoverLengthBound | library/src/commonMain/kotlin/io/github/aughtone/geohash/Geohash.kt:330-364 | the result is in 0..12, and is 12 exactly when the corners agree on all 60 bits |
| GeohashCover.CoverLengthShared | library/src/commonMain/kotlin/io/github/aughtone/geohash/Geohash.kt:330-364 | the corners share the cell of the computed length |
| GeohashCover.CoverLengthMaximal | library/src/commonMain/kotlin/io/github/aughtone/geohash/Geohash.kt:330-364 | one character longer, the corners' cells differ |
| GeohashCover.CoverLengthSameHash | library/src/commonMain/kotlin/io/github/aughtone/geohash/Geohash.kt:330-364 | in hash terms, for corners in the world, both corners have the same hash of the computed length |
| GeohashCover.CoverLengthNextHashDiffers | library/src/commonMain/kotlin/io/github/aughtone/geohash/Geohash.kt:330-364 | one character longer, the corners' hashes differ |
| GeohashCover.SameHashSameCell | library/src/commonMain/kotlin/io/github/aughtone/geohash/Geohash.kt:695-700 | two points in the world share a hash exactly when their bisection bits agree |
| GeohashCover.CoverLengthZero | library/src/commonMain/kotlin/io/github/aughtone/geohash/Geohash.kt:340-349 | corners on different sides of the prime meridian (longitude 0) or of the equator give 0; a box that wraps across the antimeridian with both corners on one side of longitude 0 is not covered by this and can give a longer length |
| GeohashTiling.TickAt | library/src/commonMain/kotlin/io/github/aughtone/geohash/Geohash.kt:502-508 | the k-th visited value of `while (x <= end) x += step` is start + k·step, at most `end` |
| GeohashTiling.TicksOvershoot | library/src/commonMain/kotlin/io/github/aughtone/geohash/Geohash.kt:502-508 | the loop stops at the first step beyond `end` |
| GeohashTiling.TickIndex | library/src/commonMain/kotlin/io/github/aughtone/geohash/Geohash.kt:502-508 | the k-th step is visited exactly when it is at or below `end` |
| GeohashTiling.AddRow | library/src/commonMain/kotlin/io/github/aughtone/geohash/Geohash.kt:503-507 | the row loop adds the word of every longitude step (after `to180`) to the set, in order |
| GeohashTiling.AddColumn | library/src/commonMain/kotlin/io/github/aughtone/geohash/Geohash.kt:512-516 | the right-edge loop adds the word of every latitude step |
| GeohashTiling.AddGrid | library/src/commonMain/kotlin/io/github/aughtone/geohash/Geohash.kt:500-510 | the nested loops add the grid row by row from the bottom |
| GeohashTiling.GridHas | library/src/commonMain/kotlin/io/github/aughtone/geohash/Geohash.kt:500-510 | the grid holds the word of every latitude/longitude pairing |
| GeohashTiling.GridOnly | library/src/commonMain/kotlin/io/github/aughtone/geohash/Geohash.kt:500-510 | the grid holds nothing else |
| GeohashTiling.CoverBoundingBoxLongs | library/src/commonMain/kotlin/io/github/aughtone/geohash/Geohash.kt:470-530 | the method runs both `require`s, the antimeridian and wider-than-world normalisation, the four loops and the ratio |
| GeohashTiling.Tile | library/src/commonMain/kotlin/io/github/aughtone/geohash/Geohash.kt:500-529 | the loops plus the tally give the set of visited words, its size and the area ratio |
| GeohashTiling.CoverLongsMembers | library/src/commonMain/kotlin/io/github/aughtone/geohash/Geohash.kt:486-529 | `count` is the array size and positive; no word appears twice; a word is in the set exactly when it is visited (grid point, right-edge step, top-edge step or corner) |
| GeohashTiling.CoverLongsRejects | library/src/commonMain/kotlin/io/github/aughtone/geohash/Geohash.kt:477-478 | fails exactly when `topLeftLat < bottomRightLat` or `length <= 0`, with the message of the first failing check |
| GeohashTiling.CoverLongsCorner | library/src/commonMain/kotlin/io/github/aughtone/geohash/Geohash.kt:522-524 | the top-right corner's word is always in the set |
| GeohashTiling.CoverLongsNibbles | library/src/commonMain/kotlin/io/github/aughtone/geohash/Geohash.kt:505-524 | for length <= 12 every word's nibble equals `length` |
| GeohashTiling.VisitedWord | library/src/commonMain/kotlin/io/github/aughtone/geohash/Geohash.kt:500-524 | every visited word is the word of a point inside the box |
| GeohashTiling.CoverLongsRatio | library/src/commonMain/kotlin/io/github/aughtone/geohash/Geohash.kt:526-528 | the ratio is infinite exactly for a box of zero area; otherwise ratio × box area = count × cell width × cell height |
| GeohashTiling.CoverBoundingBoxStrings | library/src/commonMain/kotlin/io/github/aughtone/geohash/Geohash.kt:458-468 | for tl >= br and length 1..12: succeeds with `count` strings, all of that length, and `hashLength == length` |
| GeohashTiling.StringsDistinct | library/src/commonMain/kotlin/io/github/aughtone/geohash/Geohash.kt:458-468 | the rendered strings of the tiling are pairwise distinct |
| GeohashTiling.WordsRenderApart | library/src/commonMain/kotlin/io/github/aughtone/geohash/Geohash.kt:255-265 | two encoded words of one length render equal exactly when they are equal |
| GeohashTiling.StartLength | library/src/commonMain/kotlin/io/github/aughtone/geohash/Geohash.kt:418-421 | the start length is in 1..12 |
| GeohashTiling.CoverBoundingBoxMaxHashes | library/src/commonMain/kotlin/io/github/aughtone/geohash/Geohash.kt:409-439 | the method carries `coverageL` through the loop over lengths, as the specification function does |
| GeohashTiling.MaxHashesFromChoice | library/src/commonMain/kotlin/io/github/aughtone/geohash/Geohash.kt:425-438 | the loop returns `null` only when its first tiling is over budget; otherwise the tiling of a length up to which all tilings fit and past which the next one does not |
| GeohashTiling.TilingsSucceed | library/src/commonMain/kotlin/io/github/aughtone/geohash/Geohash.kt:477-478 | for tl >= br every length 1..12 has a tiling |
| GeohashTiling.CoverMaxHashesRejects | library/src/commonMain/kotlin/io/github/aughtone/geohash/Geohash.kt:409-439 | throws exactly when `topLeftLat < bottomRightLat` |
| GeohashTiling.CoverMaxHashesNone | library/src/commonMain/kotlin/io/github/aughtone/geohash/Geohash.kt:431-433 | returns `null` exactly when the tiling at the start length exceeds `maxHashes` |
| GeohashTiling.CoverMaxHashesFound | library/src/commonMain/kotlin/io/github/aughtone/geohash/Geohash.kt:409-439 | a result has at most `maxHashes` hashes, a length in [max(1, start), 12], equals `coverBoundingBox` at that length, every tiling from start to it fits, and the next length (if any) does not |
| GeohashTiling.CoverBoundingBoxDefaultBound | library/src/commonMain/kotlin/io/github/aughtone/geohash/Geohash.kt:646-655 | the 4-argument overload throws exactly for tl < br, and a result has at most 12 hashes of one length |
| Coverages.RatioOf | library/src/commonMain/kotlin/io/github/aughtone/geohash/Geohash.kt:528 | positive over zero is infinite; otherwise ratio × denominator = numerator |
| Coverages.AddAllFacts | library/src/commonMain/kotlin/io/github/aughtone/geohash/Geohash.kt:486 | the insertion-ordered set holds exactly what was added, without duplicates, keeping earlier members in front |
| Coverages.AddAllDistinct | library/src/commonMain/kotlin/io/github/aughtone/geohash/Coverage.kt:24-28 | adding distinct elements to an empty set lists them as they are |
| Coverages.AddAllConcat | library/src/commonMain/kotlin/io/github/aughtone/geohash/Geohash.kt:486-524 | adding a + b is adding a and then b |
| Coverages.HashLengthOfLongs | geohash-multiplatform/src/commonMain/kotlin/io/github/aughtone/geohash/CoverageLongs.kt:25-26 | 0 when `count == 0`, else `hashes[0] and 0x0f` (in 0..15); fails only for a nonzero count over an empty array |
| Coverages.EqualsIsEquality | geohash-multiplatform/src/commonMain/kotlin/io/github/aughtone/geohash/CoverageLongs.kt:28-39 | `equals` holds exactly for equal array contents, counts and ratios |
| Coverages.HashLengthUniform | library/src/commonMain/kotlin/io/github/aughtone/geohash/Coverage.kt:35-36 | when all members have length k, `hashLength == k` |
| Coverages.StringsOf | library/src/commonMain/kotlin/io/github/aughtone/geohash/Coverage.kt:24-28 | the map succeeds exactly when every word renders, giving its strings in order |
| Coverages.ConvertedCoverage | library/src/commonMain/kotlin/io/github/aughtone/geohash/Coverage.kt:24-28 | conversion fails exactly when a nibble is outside [1,12]; it keeps the ratio; the set is exactly the rendered strings, at most as many as the words |
| Coverages.ConvertedHashLength | library/src/commonMain/kotlin/io/github/aughtone/geohash/Coverage.kt:35-36 | the converted set's `hashLength` is the words' `hashLength` |
| Coverages.AddAllFirst | library/src/commonMain/kotlin/io/github/aughtone/geohash/Coverage.kt:35-36 | the set's first member is the first string added |
| Coverages.ToCoverageCases | geohash-multiplatform/src/commonMain/kotlin/io/github/aughtone/geohash/CoverageLongs.kt:49-53 | `null.toCoverage()` is `null`; a value converts whenever its words do |

## Left out

- Floating-point rounding. Doubles are exact reals, and the loops' `x += step` accumulation is modelled as `start + k·step`. An IEEE run can visit one step more or fewer near `end`.
- `GeohashTiling.CoverBoundingBoxLongs`: with exact reals the model's tiling loops always end, but the source's may not. Once the step is below half the spacing between doubles at the current coordinate, `x += step` leaves `x` unchanged and `while (x <= end)` never stops. This happens from about length 22 on. For example, `coverBoundingBoxLongs(80.0, 0.0, 80.0, 0.0, 22)` steps latitude by `heightDegrees(22)` = 180/2^55 ≈ 5.0e-15, which is below 2^-47, half the spacing at 80.0. Longitude steps of `widthDegrees(22)` stall at 170.0 in the same way. The model returns `Ok` for these calls; `Tile`, `AddGrid` and `AddRow` share this gap.
- `Coverages.RatioOf`: a zero area gives `Infinite`. The code can give -Infinity (a negative `diff` and a zero-height box) or NaN, and the model does not capture that.
- `GeohashTiling.CoverLongsMembers`: completeness is not proved. It states which words the tiling visits, not that every point of the box falls in a visited cell.
- The documented `ratio >= 1` is not proved. It depends on that completeness.
- `hashCode` of `CoverageLongs` is not modelled. It is integer hashing with no property the rest relies on.
- `gridAsString` is not modelled. It is debug text rendering.
- The thin wrappers are not modelled: `right`/`left`/`top`/`bottom`, the `Coordinate` overloads of `encodeToLong`, `encodeGeohash` and `hashContains`, and the infix/scope/extension files. Each is one call of a modelled operation.
- `GeohashCodec.DecodeGeohash`: the two `DoubleArray`s are kept as an interval value, with one refinement per mask test. `GeohashInternal.RefineInterval` models the in-place array update on its own.
- `String.lowercase` is modelled for ASCII capitals only.
- `Coverages.Coverage`: the `Set<String>` is an insertion-ordered sequence. Its iteration order, which `hashLength` reads, is taken as insertion order.
- `CoverageLongs.hashLength` is a property computed at construction. The model computes it when read, so the out-of-bounds failure for a nonzero count over an empty array shows up at the read.
- `GeohashAdjacency.AdjacentHash`: the test vectors (for example "u1pb" to "u0zz", "u1pc", "u1p8" and "u300") are not proved. Each needs the exact decoding of a 20-bit cell inside the border shortcut. The same goes for `encodeToLong(41.842967, -72.727175, 2)` and `encodeGeohash(20.0, 31.0)`.
- Machine-word edge cases are excluded by the contracts:
  - `encodeBase32` of `Long.MIN_VALUE`;
  - `decodeBase32` of more than 12 digits. `Base32.DecodeBase32` requires at most 12 digits, so longer strings are out of scope. The source still decodes some of them correctly: from the 14th digit on `base` wraps to 0, so extra leading '0' digits change nothing. `encodeBase32(n, 20)` produces such padded strings.
- `encodeToLong` with a length above 12 is modelled as Kotlin's shift (distance mod 64) but not proved about.

## Findings

| source | as written | input that shows it | evidently intended | confidence | as-written member | corrected member |
|---|---|---|---|---|---|---|
| library/src/commonMain/kotlin/io/github/aughtone/geohash/support/Base32.kt:47-48 | a negative number is padded with `"-$result".padStart(length + 1, '0')`, so the zeros go in front of the '-' sign | `encodeBase32(-123, 4)` gives "00-3v", which `decodeBase32` rejects because '-' is not a digit | the sign first, then the zero-padded digits ("-003v"), which decodes back to -123 | medium; not executed | Base32.NegativePaddingBreaksRoundTrip | Base32.SignFirstRoundTrip |
