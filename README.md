# LOC record decoder

A Dafny model of the decoder for the DNS **LOC** (location) record of
RFC 1876 in the `dns` crate (`dns/src/record/loc.rs`). The decoder reads the
16-byte record body laid out in section 2 of RFC 1876 (version, size,
horizontal precision, vertical precision, then latitude, longitude and
altitude as 32-bit big-endian integers) from a byte cursor, turns the two raw
coordinates into degrees, arcminutes, arcseconds, milliarcseconds and a
direction, and renders sizes, positions and directions as text.

Files:

- `wire.dfy`, module `Wire`: the fixed-width integer types, the error kinds
  (`IO`, `WrongVersion`, `WrongRecordLength`), a `Result` type whose `:-`
  plays the part of Rust's `?`, the big-endian reading of four bytes, and a
  `Cursor` class over an immutable buffer whose position the reads advance.
- `loc.dfy`, module `LocRecord`: the `Loc`, `Size`, `Position` and
  `Direction` values; the size byte split into nibbles; the coordinate
  conversion, both as the decoder writes it (`FromU32AsWritten`, with u32
  arithmetic that panics on overflow) and in closed form (`FromU32`); the
  decoder `Read`, an imperative method over a `Cursor`, proved equal to the
  pure specification `Decode` of what a record body yields; and the
  properties of both.
- `display.dfy`, module `LocDisplay`: decimal numerals and zero padding as
  Rust's `{}` and `{:03}` write them, the three renderers, and proofs that
  each renderer loses no information, plus the renderings checked by the crate's unit
  tests.

The decoder checks the version byte before the stated length and the stated
length before it reads anything else, so the model's `Decode` does the same:
a non-zero version wins over a wrong length and over a short buffer. On the
southern and western half the code does not compute `2^31 - input` directly,
as a closed-form description would suggest: it reflects the coordinate to
`input + (2^31 - input) * 2` and converts again. The model keeps that
computation in `FromU32AsWritten` and proves that it agrees with the closed
form for every coordinate except 0, where the multiplication overflows (see
Findings).
`FromU32AsWritten` does its u32 subtraction, multiplication and addition with
`CheckedSub`, `CheckedMul` and `CheckedAdd`, which give `None` where a Rust
debug build panics on overflow; they are the semantics of Rust's operators,
not operations of the decoder, and have no row of their own.

## Model

| member | source | states |
|---|---|---|
| `LocRecord.Read` | dns/src/record/loc.rs:72-116 | reads version, then checks version and stated length, then size, both precisions, latitude, longitude and altitude; its result is `Decode` of the unread bytes; on success the cursor has moved exactly 16 bytes, after a version or length error exactly 1, after `IO` to the end of the buffer |
| `Wire.Cursor.ReadU8` | dns/src/record/loc.rs:73 | gives the byte at the position and advances by one, or fails with `IO` when the buffer is exhausted |
| `Wire.Cursor.ReadU32BE` | dns/src/record/loc.rs:102 | gives the next four bytes read big-endian and advances by four, or fails with `IO` when fewer than four remain |
| `Wire.BE32` | dns/src/record/loc.rs:102 | the first byte is the most significant: each byte is recovered from the integer by division and remainder by powers of 256 |
| `Wire.ToBE32RoundTrip` | dns/src/record/loc.rs:110 | reading back the big-endian bytes of any u32 gives that u32 |
| `LocRecord.Decode` | dns/src/record/loc.rs:72-116 | the pure specification of what a record body yields; `Read` is proved to return it, and the `Decode*`, `VersionCheckedFirst`, `LengthCheckedSecond` and `ShortBufferIsIO` lemmas state its properties |
| `LocRecord.DecodeSucceedsIff` | dns/src/record/loc.rs:72-116 | a body decodes exactly when its first byte is 0, the stated length is 16 and at least 16 bytes remain |
| `LocRecord.VersionCheckedFirst` | dns/src/record/loc.rs:73-81 | a non-zero first byte `b` gives `WrongVersion(b, 0)` whatever the stated length and however short the buffer |
| `LocRecord.LengthCheckedSecond` | dns/src/record/loc.rs:83-86 | with version 0, a stated length other than 16 gives `WrongRecordLength(length, Exactly(16))` even when a whole record follows |
| `LocRecord.ShortBufferIsIO` | dns/src/record/loc.rs:88-110 | an empty buffer, or one that ends before the 16th byte of an accepted record, gives `IO` and no record |
| `LocRecord.DecodeIgnoresTrailingBytes` | dns/src/record/loc.rs:88-115 | nothing past the 16th byte affects the result |
| `LocRecord.DecodeFields` | dns/src/record/loc.rs:88-115 | the size nibbles make up byte 1, the precisions are bytes 2 and 3, the latitude and longitude convert back to bytes 4-7 and 8-11, the altitude is bytes 12-15, and the latitude lies on the vertical axis, the longitude on the horizontal one |
| `LocRecord.DecodesExampleRecord` | dns/src/record/loc.rs:190-211 | the sample body decodes to size 3e2, zero precisions, the two converted coordinates and altitude 0x00989680 |
| `LocRecord.RejectsExamplesOfWrongLengthOrVersion` | dns/src/record/loc.rs:213-266 | the 2-byte and 19-byte bodies give `WrongRecordLength`, version 0x80 gives `WrongVersion(128, 0)`, the empty and the 1-byte buffer give `IO` |
| `LocRecord.SplitSize` | dns/src/record/loc.rs:91-94 | base and power of ten are both below 16 and `base * 16 + power` is the size byte |
| `LocRecord.NibbleSplit` | dns/src/record/loc.rs:91-92 | for every byte, `>> 4` and `& 0b1111` give the base and power of ten that `SplitSize` gives |
| `LocRecord.SplitSizeInjective` | dns/src/record/loc.rs:91-94 | different size bytes give different sizes |
| `LocRecord.Split` | dns/src/record/loc.rs:127-134 | milliarcseconds below 1000, arcseconds and arcminutes below 60, at most 596 degrees for a count of at most 2^31 |
| `LocRecord.SplitTotal` | dns/src/record/loc.rs:127-134 | `((degrees*60 + arcminutes)*60 + arcseconds)*1000 + milliarcseconds` is the count that was split |
| `LocRecord.FromU32` | dns/src/record/loc.rs:124-148 | every component in range; North or East exactly when the input is at least 2^31; North or South exactly when the position is vertical |
| `LocRecord.FromU32Total` | dns/src/record/loc.rs:125-134 | the position's total angle is the input's distance from 2^31 |
| `LocRecord.FromU32RoundTrip` | dns/src/record/loc.rs:124-148 | adding or subtracting the total angle to 2^31 according to the direction gives back the input |
| `LocRecord.FromU32Injective` | dns/src/record/loc.rs:124-148 | two inputs on the same axis never give the same position |
| `LocRecord.FromU32Surjective` | dns/src/record/loc.rs:124-148 | every in-range position within 2^31 milliarcseconds of the origin (strictly within on the positive side, not at the origin on the negative side) is the conversion of some u32 |
| `LocRecord.MixedRadixUnique` | dns/src/record/loc.rs:127-134 | an in-range position is determined by its direction and total angle |
| `LocRecord.FromU32Mirror` | dns/src/record/loc.rs:141-146 | `2^31 + k` and `2^31 - k` give positions that differ only in direction |
| `LocRecord.FromU32AsWritten` | dns/src/record/loc.rs:124-148 | the conversion as coded overflows exactly on input 0 |
| `LocRecord.AsWrittenAgreesAwayFromZero` | dns/src/record/loc.rs:141-147 | for every input but 0 the reflected computation gives the closed-form `FromU32` |
| `LocRecord.AsWrittenOverflowsAtZero` | dns/src/record/loc.rs:142 | on input 0 the multiplication `(2^31 - 0) * 2` overflows u32 |
| `LocRecord.WrappingReflect` | dns/src/record/loc.rs:142 | with wrapping u32 arithmetic the reflection of a non-zero negative-side input is `2^32 - input`, beyond 2^31 |
| `LocRecord.WrappingReflectFixesZero` | dns/src/record/loc.rs:142 | with wrapping u32 arithmetic the reflection of 0 is 0, a negative-side input again |
| `LocRecord.DecodeReachesZeroCoordinate` | dns/src/record/loc.rs:102-103 | a well-formed body with latitude bytes 00 00 00 00 decodes and hands 0 to the conversion, where the coded computation overflows |
| `LocDisplay.Decimal` | dns/src/record/loc.rs:159-163 | a non-empty string of digits that starts with 0 only when it is exactly "0" for 0; with `DecimalRoundTrip` this fixes the shortest numeral |
| `LocDisplay.DecimalRoundTrip` | dns/src/record/loc.rs:159-163 | the digits read back as the number written |
| `LocDisplay.ZeroPadded` | dns/src/record/loc.rs:166 | digits only, as long as the numeral or the width whichever is longer, with the number's value |
| `LocDisplay.DirectionText` | dns/src/record/loc.rs:173-182 | one character, not a digit |
| `LocDisplay.DirectionTextInjective` | dns/src/record/loc.rs:173-182 | every direction has its own letter |
| `LocDisplay.SizeText` | dns/src/record/loc.rs:151-155 | base numeral, `e`, power numeral; specified by `SizeTextInjective` (the text determines the size) and `RendersExampleSize` |
| `LocDisplay.FractionText` | dns/src/record/loc.rs:165-167 | `.` and the zero-padded milliarcseconds, or nothing; specified by `FractionWrittenIffNonZero` |
| `LocDisplay.PositionText` | dns/src/record/loc.rs:157-171 | degrees, arcminutes, arcseconds, optional fraction, seconds mark and direction letter; specified by `PositionTextInjective`, `FractionWrittenIffNonZero` and the `Renders*` lemmas |
| `LocDisplay.SizeTextInjective` | dns/src/record/loc.rs:151-155 | different sizes are never written the same |
| `LocDisplay.PositionTextInjective` | dns/src/record/loc.rs:157-171 | different positions are never written the same: the text keeps degrees, arcminutes, arcseconds, milliarcseconds and direction |
| `LocDisplay.FractionWrittenIffNonZero` | dns/src/record/loc.rs:165-167 | the text contains a point exactly when the milliarcseconds are non-zero; for an in-range position the point comes right after the arcseconds numeral, and the three characters after it are digits worth the milliarcseconds, followed by the seconds mark |
| `LocDisplay.RendersOrigins` | dns/src/record/loc.rs:275-297 | 2^31 renders as `0°0′0″ E` horizontally and `0°0′0″ N` vertically |
| `LocDisplay.RendersNeighboursOfMeridian` | dns/src/record/loc.rs:281-291 | 2^31 + 1 and 2^31 - 1 render horizontally as `0°0′0.001″ E` and `0°0′0.001″ W` |
| `LocDisplay.RendersNeighboursOfEquator` | dns/src/record/loc.rs:299-309 | 2^31 + 1 and 2^31 - 1 render vertically as `0°0′0.001″ N` and `0°0′0.001″ S` |
| `LocDisplay.RendersSomeLatitude` | dns/src/record/loc.rs:311-315 | 2332896396 renders vertically as `51°30′12.748″ N` |
| `LocDisplay.RendersSomeLongitude` | dns/src/record/loc.rs:317-321 | 2147024037 renders horizontally as `0°7′39.611″ W` |
| `LocDisplay.RendersExampleSize` | dns/src/record/loc.rs:151-155 | the size byte 0x32 renders as `3e2` |

## Left out

- Trace logging: the `trace!` calls only observe values and never change a result.
- Record registration: the name `LOC` and the type number 29 are kept as constants; the registry and message parser that use them are not part of this model.
- The mutation-testing attribute and the test harness around the examples; the examples themselves are lemmas.
- The reader library: `read_u8` and `read_u32::<BigEndian>` are modelled as sequence reads that fail with `IO` when too few bytes remain; the conversion of the reader's error into `IO` by `?` is folded into the reads.
- Wire.Cursor.ReadU32BE: after a failed read the model leaves the cursor at the end of the buffer, which is what the standard cursor does in current releases; older releases may leave it elsewhere, and no caller looks at it after an error.
- The meaning of the raw fields: base times ten to the power, the precision bytes and the 100,000 m altitude offset are stored raw and never interpreted.
- SplitSize: the shift and the mask of the size byte are written as division and remainder by 16 on integers; NibbleSplit proves them equal to the bit operations on every byte.
- The `Display` plumbing: a renderer is a function to a string; `fmt::Formatter` errors cannot arise when writing to a string and are not modelled.

## Findings

| source | as written | input that shows it | evidently intended | confidence | as-written member | corrected member |
|---|---|---|---|---|---|---|
| dns/src/record/loc.rs:142 | the southern and western branch computes `input + (0x8000_0000 - input) * 2` in u32 | coordinate 0, for instance a record body whose latitude bytes are 00 00 00 00: `(2^31 - 0) * 2` is 2^32, which overflows u32 (a panic in a debug build; with wrapping it is 0 again and the function calls itself on 0 for ever) | the position 2^31 milliarcseconds south or west of the origin, i.e. distance `2^31 - input` | not executed | `LocRecord.AsWrittenOverflowsAtZero` | `LocRecord.FromU32` |

`LocRecord.FromU32` is the corrected conversion (closed form `2^31 - input`); `Decode` and `Read` use it, so they are total. `LocRecord.FromU32AsWritten` is the conversion as coded.
