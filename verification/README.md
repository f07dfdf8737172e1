# Pikaid in Dafny

A model of the `Pikaid` class of the pikaid PHP library.

A pikaid is a 26-character identifier over the lowercase base-36 alphabet `[0-9a-z]`. It has two segments:

- a 7-character timestamp segment holding the Unix seconds of `generate`;
- a 19-character segment holding 12 random bytes, read as one big-endian unsigned number.

The class has three public operations: `generate`, `isValid` and `parse`. Behind them sits a base-conversion engine, `toBase36` and `fromBase36`. Each engine function has a GMP branch, which is one library call. It also has a BCMath fallback, which is two arithmetic loops. The engine also has the one-character helpers `digit` and `value`.

The project has three modules:

- `Numerals` (`Numerals.dfy`) holds the arithmetic vocabulary and its lemmas:
  - `digit`/`value`;
  - the big-endian value of a digit string (`DigitsValue`) and of a byte string (`BytesValue`);
  - the shortest numeral of a number (`Digits`);
  - `str_pad` to the left (`PadLeft`);
  - fixed-width bytes (`FixedBytes`);
  - `bin2hex` (`BinToHex`) and `hex2bin` (`HexToBin`).
- `Engine` (`Engine.dfy`) models `toBase36` and `fromBase36`:
  - Each GMP branch is a function over `nat`.
  - The BCMath loops are methods (`Accumulate`, `Emit`) proved against `DigitsValue` and `Digits`.
  - The module proves the round trip, the agreement of the two backends, the fixed widths, and where the backends part ways.
- `Pikaid` (`Codec.dfy`) models `isValid`, `generate` and `parse`:
  - The clock reading and the random bytes are parameters.
  - The loaded extension is a `Backend` parameter (`Gmp` or `BcMath`).
  - `parse` returns a `Result` whose error `InvalidFormat` stands for the `InvalidArgumentException`.

Three behaviours of the code are worth stating up front:

- **Zero under BCMath.** The loop at src/Pikaid.php:99-104 emits nothing for zero, so the fallback `toBase36` yields "" for all-zero bytes where GMP yields "0". The two agree after padding (`Engine.ToBase36PaddedAgree`).
- **Width of `fromBase36`.** The GMP branch never truncates a longer export (src/Pikaid.php:116-117). The BCMath branch substitutes 12 zero bytes when the hex string has odd length (src/Pikaid.php:139-140). This matters only for segments that denote 2^96 or more; see Findings.
- **How BCMath converts.** The fallback goes through a BCMath decimal accumulator, and the model follows those loops.

## Model

| member | source | states |
|---|---|---|
| `Numerals.DigitsValue` | src/Pikaid.php:126-129 | the multiply-and-add accumulator over characters of [0-9a-z] is never negative |
| `Numerals.Digits` | src/Pikaid.php:133-137 | the digits the mod/div loop emits are all in [0-9a-z], and there are none exactly when the number is zero |
| `Numerals.BytesValue` | src/Pikaid.php:82 | the big-endian value of a byte string is zero exactly when every byte is zero |
| `Numerals.Repeat` | src/Pikaid.php:140 | `str_repeat` gives k copies of its argument and nothing else |
| `Numerals.Digit` | src/Pikaid.php:146-151 | `digit(v)` for v < 36 is a character of [0-9a-z] whose `value` is v |
| `Numerals.Value` | src/Pikaid.php:156-162 | `value` maps '0'..'9' to 0..9 and 'a'..'z' to 10..35, and hex digits below 16 |
| `Numerals.ValueOfDigit` | src/Pikaid.php:146-162 | `value(digit(v)) == v` for every v in 0..35 |
| `Numerals.DigitOfValue` | src/Pikaid.php:146-162 | `digit(value(c)) == c` for every c in [0-9a-z], so the alphabet is a bijection with 0..35 |
| `Numerals.DigitInjective` | src/Pikaid.php:146-151 | two values give the same digit exactly when they are equal |
| `Numerals.DigitsValueBound` | src/Pikaid.php:124-129 | a numeral of n digits in a base accumulates to a value below base^n |
| `Numerals.DigitsDenote` | src/Pikaid.php:99-104 | the digits the mod/div loop emits are a numeral whose value is the input number |
| `Numerals.DigitsNoLeadingZero` | src/Pikaid.php:99-104 | the emitted digits never start with '0', and are empty exactly for zero |
| `Numerals.DigitsLength` | src/Pikaid.php:99-104 | a number needs at most k digits exactly when it is below base^k (both directions) |
| `Numerals.PadLeft` | src/Pikaid.php:27 | `str_pad` left fills to the width with the pad character, keeps the input as suffix, and never truncates |
| `Numerals.PadNumeral` | src/Pikaid.php:32 | padding a numeral with '0' keeps it a numeral of the same value |
| `Numerals.LeadingZerosValue` | src/Pikaid.php:126-129 | leading '0' characters do not change the accumulated value |
| `Numerals.BytesValueBound` | src/Pikaid.php:82 | k bytes read big-endian denote a number below 256^k |
| `Numerals.FixedBytes` | src/Pikaid.php:117 | has exactly k bytes and keeps only the low k bytes of n; it is the reference encoding that the `str_pad` at :117 matches below 2^96 (`Engine.GmpFits`) |
| `Numerals.FixedBytesValue` | src/Pikaid.php:117 | the k-byte encoding keeps the value modulo 256^k |
| `Numerals.FixedBytesOfValue` | src/Pikaid.php:82 | every byte string is the fixed-width encoding of its own big-endian value |
| `Numerals.BytesDetermined` | src/Pikaid.php:116-117 | two byte strings of one length and one value are equal |
| `Numerals.BinToHex` | src/Pikaid.php:68 | `bin2hex` yields two characters per byte |
| `Numerals.BinToHexDenotes` | src/Pikaid.php:91 | `bin2hex` output is a hex numeral whose value is the bytes' big-endian value |
| `Numerals.BinToHexIsHex` | src/Pikaid.php:68 | every character of `bin2hex` output is in [0-9a-f] |
| `Numerals.HexToBin` | src/Pikaid.php:140 | `hex2bin` fails exactly on an odd length or a non-hex character, and otherwise halves the length |
| `Numerals.HexPairsValue` | src/Pikaid.php:140 | `hex2bin` keeps the big-endian value of the hex digits |
| `Engine.IsFalsy` | src/Pikaid.php:140 | for `?:` only the empty string and "0" are falsy, so no string longer than one byte is |
| `Engine.RandomFitsSegment` | src/Pikaid.php:16-17 | 12 bytes are 2^96 values, and 2^96 < 36^19, so they fit the 19-character segment |
| `Engine.StrVal36` | src/Pikaid.php:83 | `gmp_strval(n, 36)` is a base-36 numeral of n with no leading zero, and "0" for zero |
| `Engine.Export` | src/Pikaid.php:116 | `gmp_export` gives big-endian bytes of n with no leading zero byte |
| `Engine.ExportLength` | src/Pikaid.php:116 | the export has at most k bytes exactly when n < 256^k |
| `Engine.ToBase36Spec` | src/Pikaid.php:79-107 | under either backend `toBase36` yields a base-36 numeral of the bytes' value with no leading zero |
| `Engine.Accumulate` | src/Pikaid.php:94-97 | the multiply-and-add loop ends holding the big-endian value of the characters read |
| `Engine.Emit` | src/Pikaid.php:99-104 | the mod/div loop that prepends digits emits exactly the shortest numeral of the number |
| `Engine.ToBase36BcMath` | src/Pikaid.php:90-106 | the BCMath fallback returns the shortest base-36 numeral of the bytes' value |
| `Engine.ToBase36` | src/Pikaid.php:79-107 | `toBase36` returns what its specification function gives for the loaded backend |
| `Engine.ToBase36FitsSegment` | src/Pikaid.php:30-32 | 12 bytes give at most 19 digits, so padding to 19 never overflows the segment |
| `Engine.ToBase36BranchesAgree` | src/Pikaid.php:81-106 | the branches agree on nonzero input; on zero GMP gives "0" and BCMath gives "" |
| `Engine.ToBase36PaddedAgree` | src/Pikaid.php:31-32 | after left padding the two branches give the same segment for every input |
| `Engine.GmpBytes` | src/Pikaid.php:114-118 | the GMP branch of `fromBase36` gives at least 12 bytes that keep the value |
| `Engine.PaddedHex` | src/Pikaid.php:132-139 | the hex digits padded to 24 characters are a hex numeral of the value |
| `Engine.BcMathBytes` | src/Pikaid.php:139-140 | the BCMath branch of `fromBase36` gives at least 12 bytes |
| `Engine.FromBase36Spec` | src/Pikaid.php:112-141 | `fromBase36` depends only on the numeral's value and gives at least 12 bytes |
| `Engine.FromBase36BcMath` | src/Pikaid.php:124-140 | the BCMath loops, padding and `hex2bin ?:` compute the BCMath decoding of the numeral's value |
| `Engine.FromBase36` | src/Pikaid.php:112-141 | `fromBase36` returns what its specification gives for the loaded backend |
| `Engine.BcMathFits` | src/Pikaid.php:132-140 | below 2^96 the BCMath branch returns exactly the 12-byte encoding of the value |
| `Engine.GmpFits` | src/Pikaid.php:114-118 | below 2^96 the GMP branch returns exactly the 12-byte encoding of the value |
| `Engine.FromBase36Fits` | src/Pikaid.php:112-141 | below 2^96 both branches return the same 12 bytes, whose value is the numeral's |
| `Engine.RoundTrip` | src/Pikaid.php:79-141 | for every 12 bytes, decoding the padded encoding gives the bytes back, for any encoder and decoder backend |
| `Engine.LeadingZerosIgnored` | src/Pikaid.php:124-129 | leading '0' characters do not change what `fromBase36` returns |
| `Engine.BranchesDivergeAboveTwo96` | src/Pikaid.php:112-141 | for segment values from 2^96 to 36^19 - 1, GMP returns 13 bytes of the value and BCMath 12 zero bytes |
| `Engine.AllZInRange` | src/Pikaid.php:16 | the segment of nineteen 'z' denotes a value in that range |
| `Engine.FromBase36Intended` | src/Pikaid.php:109-112 | the intended decoder returns exactly 12 bytes holding the value modulo 2^96 |
| `Engine.IntendedAgreesBelowTwo96` | src/Pikaid.php:112-141 | below 2^96 the intended decoder agrees with both branches as written |
| `Engine.IntendedRoundTrip` | src/Pikaid.php:79-141 | the intended decoder inverts the padded encoding of every 12 bytes |
| `Pikaid.RegexMatches` | src/Pikaid.php:43 | the pattern matches exactly 26 characters of [0-9a-z], optionally followed by one final newline |
| `Pikaid.IsValid` | src/Pikaid.php:40-44 | a valid pikaid is a string over [0-9a-z], and every 26-character string over [0-9a-z] is valid |
| `Pikaid.IsValidExactly` | src/Pikaid.php:40-44 | `isValid` holds exactly for 26-character strings over [0-9a-z] |
| `Pikaid.LengthTestNeeded` | src/Pikaid.php:42-43 | the pattern alone accepts 26 digits plus a final newline, and the `strlen` test rejects them |
| `Pikaid.RejectsMalformed` | tests/PikaidTest.php:24-34 | `isValid` rejects the empty, 25- and 27-character, upper-case, '!', trailing-space and sample invalid strings |
| `Pikaid.TimestampSegment` | src/Pikaid.php:26-27 | the timestamp segment is a numeral of the seconds; it has exactly 7 characters iff seconds < 36^7 |
| `Pikaid.RandomSegment` | src/Pikaid.php:30-32 | the randomness segment is a numeral of the bytes' value with at least 19 characters |
| `Pikaid.PikaidOf` | src/Pikaid.php:34 | the concatenated segments form a digit string of at least 26 characters; below 36^7 seconds the first 7 denote the seconds and the rest the bytes' value |
| `Pikaid.Generate` | src/Pikaid.php:22-35 | `generate` concatenates the two padded segments, the same under either backend, and is valid below 36^7 seconds |
| `Pikaid.GenerateIsValid` | src/Pikaid.php:22-35 | below 36^7 seconds the segments have 7 and 19 characters and the pikaid has 26 and is valid |
| `Pikaid.GenerateOverflows` | src/Pikaid.php:26-27 | from 36^7 seconds on, the pikaid is longer than 26 characters and is not valid |
| `Pikaid.ValidSegments` | src/Pikaid.php:58-59 | a valid pikaid splits into digit segments, the second of 19 characters with value below 36^19 |
| `Pikaid.ParseSpec` | src/Pikaid.php:52-74 | `parse` fails with `InvalidFormat` exactly when `isValid` does not hold |
| `Pikaid.Parse` | src/Pikaid.php:52-74 | `parse` rejects an invalid string before decoding, and otherwise returns the seconds and the hex randomness |
| `Pikaid.ParseFields` | src/Pikaid.php:58-68 | a valid pikaid parses to seconds below 36^7; below 2^96 the randomness is 24 lowercase hex characters |
| `Pikaid.ParseGenerate` | src/Pikaid.php:52-74 | parsing what `generate` produced gives back the seconds and `bin2hex` of the bytes, under either backend |
| `Pikaid.ZeroBytesHex` | src/Pikaid.php:68 | `bin2hex` of k zero bytes is 2k '0' characters |
| `Pikaid.EpochId` | tests/PikaidTest.php:96-101 | 0 seconds with zero bytes is the pikaid of 26 '0' characters |
| `Pikaid.EpochExample` | tests/PikaidTest.php:94-101 | 26 '0' characters parse to 0 seconds and 24 '0' hex characters |
| `Pikaid.MaxSecondsExample` | tests/PikaidTest.php:94-104 | 36^7 - 1 seconds with zero bytes parse back to 36^7 - 1 seconds and 24 '0' hex characters |
| `Pikaid.ParseGmpAboveTwo96` | src/Pikaid.php:114-118 | a valid pikaid whose segment denotes 2^96 or more parses to 26 hex characters under GMP |
| `Pikaid.ParseBcMathAboveTwo96` | src/Pikaid.php:139-140 | the same pikaid parses to 24 '0' hex characters under BCMath |
| `Pikaid.ParseIntended` | src/Pikaid.php:66-68 | with the intended decoder, every valid pikaid parses to seconds below 36^7 and 24 hex characters |
| `Pikaid.ParseIntendedAgrees` | src/Pikaid.php:52-74 | below 2^96 the intended `parse` agrees with `parse` as written, under either backend |
| `Pikaid.ParseIntendedGenerate` | src/Pikaid.php:52-74 | the intended `parse` gives back what `generate` encoded |

## Left out

- `time()` and `random_bytes(12)` are outside the model. The clock reading and the 12 bytes are parameters of `Generate`.
- The `DateTimeImmutable`/`DateTimeZone` construction is left out. `parse` returns the second count, and calendar and time-zone handling is outside the model.
- `extension_loaded` and the `RuntimeException` when neither extension is loaded are left out. The loaded extension is a `Backend` parameter chosen by the caller.
- GMP, BCMath, `base_convert`, `hexdec`, `dechex` and `preg_match` are foreign libraries. Their intended results are written with `nat` arithmetic and a per-character predicate.
- `base_convert` goes through floating point, which loses precision on large values. Its precision is not modelled: seconds are exact `nat`. This is exact below 2^53, which covers every 7-character timestamp.
- PHP strings are byte strings. Identifiers are modelled as `string`, and byte strings as `seq<Byte>`.
- Negative second counts are not modelled; the seconds are a `nat`.
- `Engine.FromBase36`: requires a string over [0-9a-z]. GMP's `gmp_init` failure and BCMath's `value` on other characters are not modelled. Its only caller, `parse`, checks `isValid` first.
- The E_WARNING that `hex2bin` raises on an odd-length string (src/Pikaid.php:140) is not modelled. The model takes PHP's default handling, where the warning is reported and `hex2bin` returns `false`. An application error handler that throws would make `parse` throw instead of returning zero bytes.
- `Numerals.HexToBin`: only lowercase hex digits are modelled; PHP's `hex2bin` also accepts 'A'..'F'. Its only caller passes `dechex` output, which is lowercase, padded with '0'.
- `generate` producing 1000 distinct identifiers is probabilistic and not modelled. The benchmarks and the PHPUnit test suite are not modelled.

## Findings

| source | as written | input that shows it | evidently intended | confidence | as-written member | corrected member |
|---|---|---|---|---|---|---|
| src/Pikaid.php:112-141 | `fromBase36` has a different result per backend when a 19-character segment denotes 2^96 or more. GMP keeps all 13 exported bytes, so `parse` returns 26 hex characters. BCMath gets 25 hex digits, an odd length on which `hex2bin` raises an E_WARNING and returns `false`, so `?:` substitutes 12 zero bytes and `parse` returns 24 '0' characters. | the pikaid `0000000zzzzzzzzzzzzzzzzzzz` (randomness segment of nineteen 'z', value 36^19 - 1) | exactly 12 bytes for every valid segment, the same under both backends, so that the randomness is always 24 hex characters | high (not executed) | `Engine.BranchesDivergeAboveTwo96` | `Engine.FromBase36Intended` |

`Pikaid.Parse` keeps the decoder as written. `Pikaid.ParseIntended` reads the segment with `Engine.FromBase36Intended`.
