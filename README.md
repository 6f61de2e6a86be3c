# bsonfy codec primitives in Dafny

This project models the byte-level primitives of the bsonfy BSON library
(`src/helper.ts`) and the three value wrappers built on them (`src/types.ts`),
and proves properties of the model.

- **Buffer packing.** `int32` writes a little-endian 32-bit value into the
  caller's buffer at an offset. `cstring` writes the UTF-8 bytes of a name
  followed by `0x00`. Both return the number of bytes they wrote.
- **64-bit integers over two 32-bit halves.** `number2long` splits an
  integer into a low and a high word. For negative values it complements
  the halves of the magnitude and adds one with a carry. It then lays the
  eight bytes out least significant first. `long2number` reads them back
  as `hi * 2^32 + unsigned(lo)`.
- **UTF-8 over 16-bit code units.** `str2bin` first rewrites `"\r\n"` as
  `"\n"`. It then emits 1, 2 or 3 bytes per code unit. `bin2str` decodes by
  the lead byte. `strlen` counts bytes through `encodeURI`.
- **Value wrappers.** `UUID` and `ObjectId` copy a byte array and hand it
  back. `UTC` owns the eight bytes of a millisecond timestamp. It can be
  reset from a date (`fromString`) and read back as a number (`toNumber`).

The modules follow the program:

- `JsNumber` (`jsnumber.dfy`) holds the slice of JavaScript number semantics
  the code relies on: ToInt32, ToUint32, `~`, the truncating `%` and
  `/ ... | 0`, and the element types. The bitwise operators are written
  arithmetically. An OR of disjoint bit fields is a sum, and `x >>> k & 0xff`
  is `ToUint32(x) / 2^k % 256`.
- `Helper` (`helper.dfy`) models `src/helper.ts`.
- `Types` (`types.dfy`) models `src/types.ts`.

JavaScript strings are sequences of 16-bit code units, and lone surrogates
are allowed. They are modelled as `seq<CodeUnit>` rather than Dafny's
`string`. Functions that mutate a caller's `Uint8Array` become methods with
a `modifies` clause. Loops stay loops.

The regex rewrite, `encodeURI` and the byte layouts are specification
functions: `NormalizeNewlines`, `Strlen`, `Int32Bytes`, `LongBytes`,
`EncodeString` and `Utf8Decode`. The methods are proved against these
functions, and the lemmas prove what the library promises about them.

`strlen` (src/helper.ts:161-168) counts the UTF-8 bytes of the string as
`encodeURI` sees it. That can differ from the length of `str2bin`'s output
(see Findings). The model follows the code.

Integers are unbounded in Dafny. JavaScript numbers are modelled only on
integers. `number2long` takes its argument from the safe integers, where
every Dafny integer is a JavaScript number.

## Model

| member | source | states |
|---|---|---|
| JsNumber.ToInt32 | src/helper.ts:100-101 | the value the bitwise operators produce lies in [-2^31, 2^31), has the same unsigned 32-bit pattern as its argument, and is the argument itself on that range |
| JsNumber.BitNot32 | src/helper.ts:75 | `~x` is the 32-bit complement: its unsigned pattern is 2^32 - 1 minus that of `x` |
| JsNumber.ToUint32 | src/helper.ts:54-56 | the unsigned 32-bit value `>>>` works on lies in [0, 2^32), is congruent to its argument mod 2^32, and is the argument itself on that range |
| JsNumber.TruncDiv | src/helper.ts:73 | `(x / 2^32) \| 0` rounds toward zero: for `a >= 0`, `q * b <= a < q * b + b`; for `a < 0`, `q * b - b < a <= q * b` |
| JsNumber.Uint32OfInt32 | src/helper.ts:102 | the unsigned pattern of a negative signed word is the word plus 2^32, of a non-negative one the word itself; this is the `(lo >= 0) ? lo : TWO_PWR_32 + lo` of long2number |
| JsNumber.TruncRem | src/helper.ts:73 | JavaScript `%`: dividend = quotient rounded toward zero times divisor plus remainder, and the remainder takes the sign of the dividend |
| Helper.Int32Bytes | src/helper.ts:52-58 | the int32 layout is four bytes that, read back little-endian, are `v` mod 2^32, and as a signed word ToInt32(v) |
| Helper.Int32BytesExamples | src/helper.ts:52-58 | int32 of 1 is `01 00 00 00`, of -1 is `FF FF FF FF`, and 2^32 + 1 gives the bytes of 1 |
| Helper.Int32 | src/helper.ts:52-58 | returns 4, writes the four bytes of `size` mod 2^32 least significant first at `offset`, and leaves every other index unchanged |
| Helper.CString | src/helper.ts:36-42 | writes str2bin(name) at `offset` and a 0 right after it, returns that length plus one, and leaves every other index unchanged |
| Helper.Halves | src/helper.ts:71-78 | the `lo` and `hi` computed for a safe integer, as unsigned words, are the low and high words of `value` mod 2^64; for negatives this covers the complement with the carry |
| Helper.NonNegativeHalves | src/helper.ts:73 | for a non-negative safe integer, `(value % 2^32) \| 0` and `(value / 2^32) \| 0` are its low and high words |
| Helper.LowNegation | src/helper.ts:75-77 | `(~r + 1) & 0xffffffff` is the 32-bit negation of `r`, and is zero exactly when `r` is, which is when the carry into `hi` happens |
| Helper.NegativeHalves | src/helper.ts:74-78 | complementing the magnitude's halves and adding one to the low half, with a carry into the high half when it wraps to 0, gives the words of 2^64 - m |
| Helper.Number2Long | src/helper.ts:69-82 | for a safe integer, returns a fresh 8-byte buffer whose byte i is (value mod 2^64) / 256^i mod 256 |
| Helper.LongBytes | src/helper.ts:80-81 | the int64 layout is eight bytes that, read back as an unsigned little-endian integer, are `v` mod 2^64 |
| Helper.LongBytesFields | src/helper.ts:80-81 | byte i of the int64 layout is (v mod 2^64) / 256^i mod 256, for i = 0..7: the little-endian two's complement of v |
| Helper.LowWordFields | src/helper.ts:80 | the four byte fields of the low word are the four low byte fields of the 64-bit value |
| Helper.HighWordFields | src/helper.ts:81 | the byte fields of the high word are the four high byte fields of the 64-bit value |
| Helper.Word32At | src/helper.ts:100-101 | a word read with `\|` and `<<` is a signed int32 whose unsigned pattern is the four bytes' little-endian value |
| Helper.CombineWords | src/helper.ts:102 | `hi * 2^32 + unsigned(lo)` for two signed words lies in the signed 64-bit range, and its residue mod 2^64 puts the high word's pattern above the low word's |
| Helper.Long2Number | src/helper.ts:98-103 | the result is a signed 64-bit integer congruent mod 2^64 to the eight bytes at `offset` read little-endian, which fixes it as their two's complement value |
| Helper.Long2NumberReadsWindow | src/helper.ts:98-103 | buffers that agree on the eight bytes at `offset` give the same result |
| Helper.LongRoundTrip | src/helper.ts:69-103 | every signed 64-bit integer is recovered by long2number from its int64 layout |
| Helper.Number2LongThenLong2Number | src/helper.ts:69-103 | long2number(number2long(v), 0) == v for every safe integer v |
| Helper.NormalizeNewlines | src/helper.ts:112 | the rewrite never lengthens the string |
| Helper.NormalizeAppend | src/helper.ts:112 | the rewrite distributes over any concatenation that does not split a `"\r\n"` |
| Helper.NormalizeCrlf | src/helper.ts:112 | every `"\r\n"`, wherever it stands, becomes `"\n"` |
| Helper.NormalizeIdentity | src/helper.ts:112 | a string without `"\r\n"` is left unchanged |
| Helper.NormalizeSinglePass | src/helper.ts:112 | the rewrite is one left-to-right pass: `"\r\r\n"` becomes `"\r\n"`, which a second pass would change again |
| Helper.EncodeUnit | src/helper.ts:115-125 | a unit below 0x80 is one byte equal to it; below 0x800 it is a `110xxxxx 10xxxxxx` pair; above that a `1110xxxx 10xxxxxx 10xxxxxx` triple; in each case the payload bits reassemble the unit |
| Helper.Utf8EncodeAppend | src/helper.ts:113-127 | the encoding of a concatenation is the concatenation of the encodings |
| Helper.Utf8EncodeLength | src/helper.ts:113-127 | the encoded length is the sum of the per-unit lengths 1, 2 or 3 |
| Helper.EncodeString | src/helper.ts:111-128 | str2bin's output is as long as the per-unit lengths of the rewritten string add up to, and is the plain per-unit encoding when the string holds no `"\r\n"` |
| Helper.EncodedLength | src/helper.ts:111-128 | the byte count of str2bin's output, computed without building it: the count `cstring` returns less its terminator |
| Helper.Str2Bin | src/helper.ts:111-128 | returns a fresh array holding the per-unit encoding, in order, of `str` after the `"\r\n"` rewrite |
| Helper.Utf8Decode | src/helper.ts:136-158 | decoding never yields more code units than there are bytes |
| Helper.SequenceLengthClasses | src/helper.ts:141-155 | bin2str takes one byte for a lead below 0x80, two for 0xC0..0xDF, and three for every other byte, stray continuation bytes and four-byte leads included |
| Helper.DecodeUnitFields | src/helper.ts:141-153 | the decoded unit's bit fields are the payload bits of its bytes: the low 5 or 4 bits of the lead byte, then the low 6 bits of each continuation byte |
| Helper.DecodeStep | src/helper.ts:139-156 | decoding from index i yields the unit built from the lead byte and the next two, then continues 1, 2 or 3 bytes further as the lead byte says |
| Helper.UnitFields | src/helper.ts:122-124 | the three bit fields str2bin cuts a code unit into (`c >>> 12`, `(c >>> 6) & 63`, `c & 63`) add back up to it |
| Helper.EncodePrefix | src/helper.ts:114-126 | one more iteration of the encoding loop appends exactly the bytes of the next code unit |
| Helper.DecodeUnitOfEncodeUnit | src/helper.ts:139-155 | on the bytes emitted for a code unit, bin2str's lead-byte test picks their number and its bit arithmetic rebuilds the unit |
| Helper.DecodeAdvance | src/helper.ts:139-156 | one iteration of the decoding loop keeps the decoded prefix plus the decoding of the rest equal to the decoding of the whole buffer |
| Helper.DecodeEncodeUnit | src/helper.ts:113-158 | the bytes of one code unit decode back to it, whatever follows them |
| Helper.DecodeEncode | src/helper.ts:113-158 | decoding undoes the three-case encoding of any code units, lone surrogates included |
| Helper.StringRoundTrip | src/helper.ts:111-158 | bin2str(str2bin(s)) is `s` with `"\r\n"` rewritten, and `s` itself when it holds no `"\r\n"` |
| Helper.Bin2Str | src/helper.ts:136-158 | the loop returns the decoding of the whole buffer, taking 1, 2 or 3 bytes by the lead-byte tests `< 128`, `192..223`, otherwise |
| Helper.Str2BinThenBin2Str | src/helper.ts:111-158 | str2bin followed by bin2str gives back the rewritten string, and the string itself when it holds no `"\r\n"` |
| Helper.Strlen | src/helper.ts:166-168 | when defined, strlen lies between the number of code units and three times it (a surrogate pair counts 4 for 2 units) |
| Helper.StrlenDefined | src/helper.ts:166-168 | strlen yields a count exactly when the string is well-formed UTF-16; a lone surrogate makes encodeURI throw |
| Helper.WellFormedTail | src/helper.ts:166-168 | after its first code point (a non-surrogate unit or a surrogate pair) is cut off, the rest is well formed exactly when the whole string is |
| Helper.StrlenWithoutSurrogates | src/helper.ts:166-168 | on a string without surrogates strlen is the sum of 1, 2, 3 per unit |
| Helper.StrlenAgreesWithStr2Bin | src/helper.ts:161-168 | with neither surrogates nor `"\r\n"`, strlen equals the length of str2bin's output |
| Helper.StrlenDisagreesWithStr2Bin | src/helper.ts:166-168 | strlen counts 2 for `"\r\n"` where str2bin writes 1 byte, and 4 for a surrogate pair where str2bin writes 6 |
| Types.ToUint8Array | src/types.ts:37 | `new Uint8Array(numbers)` keeps the length and takes every element mod 256 |
| Types.UUID.FromArray | src/types.ts:36-38 | a UUID built from a byte array owns a fresh copy with the same bytes |
| Types.UUID.FromNumbers | src/types.ts:36-38 | a UUID built from numbers owns a fresh array of their residues mod 256 |
| Types.UUID.Buffer | src/types.ts:40-42 | returns the stored array itself |
| Types.UuidIsACopy | src/types.ts:36-42 | after the source array is changed, `buffer()` still holds the bytes it had at construction |
| Types.ObjectId.FromArray | src/types.ts:52-54 | an ObjectId built from a byte array of any length owns a fresh copy with the same bytes |
| Types.ObjectId.FromNumbers | src/types.ts:52-54 | an ObjectId built from numbers owns a fresh array of their residues mod 256 |
| Types.ObjectId.Buffer | src/types.ts:56-58 | returns the stored array itself |
| Types.UTC.FromArray | src/types.ts:68-70 | a UTC built from a byte array owns a fresh copy with the same bytes |
| Types.UTC.FromNumbers | src/types.ts:68-70 | a UTC built from numbers owns a fresh array of their residues mod 256 |
| Types.UTC.FromClock | src/types.ts:68-70 | a UTC built without an argument holds a copy of number2long of the clock reading, and toNumber gives that reading back |
| Types.UTC.FromDateString | src/types.ts:68-70 | a UTC built from a date holds number2long of its milliseconds, and toNumber gives them back |
| Types.UTC.Buffer | src/types.ts:72-74 | returns the stored array itself |
| Types.UTC.FromString | src/types.ts:80-82 | replaces the object's only field with a fresh number2long(ms), so toNumber then gives `ms` |
| Types.UTC.ToNumber | src/types.ts:87-89 | the stored bytes read as a signed 64-bit little-endian integer |
| Types.UtcRoundTrip | src/types.ts:68-89 | a UTC built from the milliseconds of a date returns exactly those milliseconds |

## Left out

- The float branch of `number2long` (src/helper.ts:83-87) is not modelled.
  It copies the IEEE-754 bits through a `Float64Array`, and floating point
  is outside the model.
- Helper.Number2Long: requires a safe integer, |v| <= 2^53 - 1. On every
  integer-valued double the integer branch is exact: `%` and `/` by 2^32
  and the 32-bit wrap of `| 0` and `~` lose nothing, so it writes the value
  mod 2^64. Above 2^53, though, not every Dafny integer is a JavaScript
  number, and the model does not describe which ones are. The requires
  keeps the argument where the two coincide.
- Helper.Long2Number: returns the exact signed 64-bit value.
  JavaScript's `hi * 2^32 + lo` rounds to the nearest double outside the
  safe range.
- Helper.Long2Number: a negative or non-integer `offset` is not modelled.
  Bytes past the end read as 0, as `undefined` does under `|` and `<<`.
- Helper.Int32: requires the four bytes to fit in the buffer; JavaScript
  silently drops writes past the end. `size` is an integer. The ToInt32
  conversion of non-integers (NaN, fractions) is not modelled.
- Helper.CString: requires the bytes and the terminator to fit. When the
  bytes themselves overrun, `buffer.set` throws a RangeError. When they
  fit exactly (`offset + clen == buffer.length`), the terminator write at
  src/helper.ts:40 falls past the end and is silently dropped, yet
  `clen + 1` is still returned. The requires excludes both cases.
- Helper.Str2Bin: the regex `replace` is the specification function
  `NormalizeNewlines`. The JavaScript array `bin` with its counter `p` is a
  sequence that is appended to.
- Helper.Bin2Str: reads past the end give 0, matching `undefined & 63`. The
  decoded value is not masked to 16 bits. The decoder never produces more
  than 16 bits, so the mask is not needed.
- Helper.Strlen: `encodeURI` and the regex `split` are foreign library calls, so
  strlen is the specification function `Helper.Strlen`. The URIError thrown
  on a lone surrogate is `None`.
- `Date.now()` and `new Date(string)` are not modelled. The clock reading
  and the parsed milliseconds are parameters of `UTC.FromClock`,
  `UTC.FromDateString` and `UTC.FromString`. An unparsable date gives NaN,
  which is not an integer: it takes the float branch and is not modelled.
- `UTC.toDate` (src/types.ts:91-93) builds a `Date` object, which is
  outside the model.
- The single JavaScript constructor of each class dispatches on the
  argument: a byte array, an array of numbers, a string, or nothing. It is
  modelled as one named constructor per case.
- Types.UUID.FromNumbers, Types.ObjectId.FromNumbers, Types.UTC.FromNumbers:
  the elements are integers. ToUint8 of fractions and NaN is not modelled.
- The document serializer and deserializer that call these helpers are
  not part of this model.
- JsNumber.DivModOf (uniqueness of quotient and remainder for the
  bit-field divisors) and Helper.SameResidue64 (two signed 64-bit integers
  with the same residue mod 2^64 are equal) are arithmetic proof utilities.
  They model no line of the source.

## Findings

| source | as written | input that shows it | evidently intended | confidence | as-written member | corrected member |
|---|---|---|---|---|---|---|
| src/helper.ts:166-168 | `strlen` counts the UTF-8 bytes of `encodeURI(str)`: the string as written, with surrogate pairs as 4-byte code points | `"\r\n"` gives 2 where `str2bin` writes 1 byte; `"\uD83D\uDE00"` gives 4 where `str2bin` writes 6 | a byte count that agrees with what `str2bin` (and so `cstring`) writes; the callers that would rely on it are outside this model | low, not executed | Helper.StrlenDisagreesWithStr2Bin | Helper.EncodedLength |
