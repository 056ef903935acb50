# Funcular.IdGenerators in Dafny

A model of the identifier generators of Funcular.IdGenerators and the base-36
converters they are built on, with proofs of what the code promises.

There are two generations of the library in the repository, and both are modelled:

- **Current generator.** `Funcular.IdGenerators/Base36/Base36IdGenerator.cs` builds
  an identifier as timestamp + host hash [+ reserved value] + random digits. Each
  field is base 36 and of configurable width. The identifier is optionally
  delimited. `Format` delimits an identifier after the fact, and `Parse` takes one apart.
- **Older generator.** `Base36/Base36IdGenerator.cs` makes 16-character identifiers
  with fields of widths 10, 2, 1 and 3, optionally in four groups of four.
- **Converters.** Both generations have a `BaseConverter` that rewrites a digit list
  in place by repeated long division, and a `Base36Converter` with `FromHex`,
  `FromInt32`, `FromInt64`, `FromLong`, `Encode` and `Decode`.
- **Clock.** `ConcurrentStopwatch` is a microsecond clock that never hands out the
  same value twice.

Modules:

- `Numerals` holds the shared definitions that every converter is specified
  against:
  - positional values (`ValueOf`);
  - canonical numerals (`Numeral`);
  - spelling digits with a character list (`Spell`);
  - base-36 text (`Base36Of`);
  - what `Decode` reads (`DecodeValue`).
- `LongDivision` is the in-place long division shared by both `Convert`s. Its
  running remainder is a C# `int` that wraps modulo 2^32 (`Clr.Wrap32`).
- `BaseConverter` and `Base36Converter` are the current converters.
- `LegacyBaseConverter` and `LegacyBase36Converter` are the older converters. The
  static `CharList` is a `Converter` object.
- `ConcurrentStopwatch` is the clock. Its static state is a `Stopwatch` object.
- `Delimiting` is `StringBuilder.Insert` at a list of offsets, and the sorting of
  the offsets largest first.
- `DigestText` is `BitConverter.ToString` of the SHA-1 digest and what `FromHex`
  reads from it.
- `IdGenerator` is the current generator. The static host-hash cache is a
  `HostHashCache` object.
- `LegacyIdGenerator` is the older generator. Its static fields are a `Statics`
  object.
- `Clr`, `Text`, `Wrappers` and `IdTypes` are the .NET behaviour the code relies on:
  - truncating `/` and `%`;
  - `Math.Abs`, `Substring` and `PadLeft`;
  - `ToUpper`, for ASCII letters only;
  - ordinal string comparison;
  - `StringBuilder`;
  - exceptions as `Result` values;
  - `IdInformation`.

How outside inputs are handled:

- Exceptions are `Err` values that carry the exception kind. `ArgumentOutOfRange` and `Argument` also carry the parameter name. `Argument(None)` is an `ArgumentException` built without one.
- The stopwatch readings are a sequence parameter.
- The random draws, the host name's hash code and the SHA-1 and MD5 digests are parameters.
- A `creationTimestamp` is its UTC tick count.

What the proofs show beyond each operation's own contract:

- **Converters.** `Convert` writes the same number in the new base with no leading
  zero. It works in place without ever overwriting an unread digit, so its
  `nibbles.Add` branches are dead. `Decode` reads the text of `FromLong` and `Encode`
  back as the number, for every non-negative `long`, in the wrapping 64-bit
  arithmetic of C#.
- **Older converter, negative numbers.** The older `Convert` keeps the '-' of a
  negative number as the index -1. A number of up to nine decimal digits (seven
  hexadecimal ones) then throws `IndexOutOfRange`. With more digits the 32-bit
  remainder can wrap: "-00000000" read as hexadecimal gives "0".
- **Current generator, `Parse`.** `Parse` recovers the creation time of an
  identifier made at microsecond resolution. It cuts the hash and random fields one
  character early (see Findings).
- **Current generator, `Format`.** `Format` is idempotent, and it turns an
  undelimited identifier into the delimited one `NewId` would have made.
- **Current generator, layout.** With the parameterless constructor, an identifier
  has 20 characters and no dash. The constructor gives no delimiter offsets, despite
  the comment about four dash-separated groups.
- **Current generator, order.** Identifiers made at increasing microsecond counts
  sort in increasing ordinal order, with or without case folding, as long as the
  count stays below 36^T for a timestamp field of T characters. At 36^T the order
  breaks: the identifier sorts below the one made a microsecond earlier.
- **Current generator, limits.** A server field of more than eight characters always
  fails, because the host hash never has more.
- **Older generator, random field.** The random field reads the base-36 text of the
  draw as if it were hexadecimal, so the draws 36 and 16 both give "00G".
- **Older generator, host hash.** The host hash of `ComputeHostHash(host)` is "100"
  for a checksum of exactly 1296.
- **Older generator, reserved value.** Once `checkReserved` rolls the reserved value,
  the cached reserved text ("Z") is stale.
- **Older generator, widths.** The instance's widths play no part in the identifier.

## Model

| member | source | states |
|---|---|---|
| `BaseConverter.Convert` | Funcular.IdGenerators/BaseConversion/BaseConverter.cs:74-120 | Separators ' ', '-', ',' and '.' are dropped. The result is the number the remaining digit indices denote in `fromBase`, written in `toBase` with the alphabet, canonically (no leading zero, "0" for zero or empty input). |
| `BaseConverter.ConvertReadsBack` | Funcular.IdGenerators/BaseConversion/BaseConverter.cs:84-112 | The converted text read back in `toBase` has the value the input had in `fromBase`. It is non-empty, and it starts with '0' only when it is "0". |
| `LongDivision.DividePass` | Funcular.IdGenerators/BaseConversion/BaseConverter.cs:88-108 | One pass of the inner loop, with `value * fromBase + nibbles[i]` wrapped to an `int`. The write index never passes the read index. The remainder is an `int` below `toBase`. Nothing is emitted exactly while no prefix's wrapped value reaches `toBase`, and until then the remainder is that wrapped value. When every digit emits one, the first quotient digit is below the first digit. For non-negative digits below 2^30 nothing wraps: the digits written back are the quotient without a leading zero, and the prefix equals quotient × `toBase` + remainder. |
| `LongDivision.DivideDigit` | Funcular.IdGenerators/BaseConversion/BaseConverter.cs:94-106 | One turn of the inner loop on digit `i` keeps the pass invariant, writes at most one quotient digit and leaves the unread digits as they were. |
| `LongDivision.QuietStep` | Funcular.IdGenerators/BaseConversion/BaseConverter.cs:94-106 | For any digits, one step keeps the quotient empty exactly while the wrapped prefix value stays below `toBase`. Until then the remainder is that wrapped value. The first quotient digit is below the first digit. |
| `LongDivision.Wrap32Step` | Funcular.IdGenerators/BaseConversion/BaseConverter.cs:94 | Wrapping the remainder before `value * fromBase + nibble` gives the same `int` as wrapping the exact value, so the pass tracks the prefix's value modulo 2^32. |
| `LongDivision.OnePass` | Funcular.IdGenerators/BaseConversion/BaseConverter.cs:109-110 | When the first pass emits nothing, the result is `IndexOutOfRange` exactly when the wrapped value is negative, and otherwise the one character at that index. |
| `LongDivision.PassStep` | Funcular.IdGenerators/BaseConversion/BaseConverter.cs:94-106 | Every branch of one inner step (emit a digit, emit a zero, emit nothing) preserves the pass invariant, for any digits. |
| `LongDivision.DivideOut` | Funcular.IdGenerators/BaseConversion/BaseConverter.cs:88-112 | The outer do-while ends for any digits: each pass shortens the list or lowers its first digit. The result is text or `IndexOutOfRange`. Non-negative digits below 2^30 give the canonical `toBase` numeral of the input's value, spelled with the list. When the first pass emits nothing, the wrapped value of the whole input decides alone: negative throws, otherwise its one character. |
| `LongDivision.NumeralSplit` | Funcular.IdGenerators/BaseConversion/BaseConverter.cs:109-112 | Let `whole` = q × b + r, with r a digit. The numeral of `whole` is the numeral of q followed by r, or r alone when q is zero. |
| `LongDivision.NegativePass` | Funcular.IdGenerators/BaseConversion/BaseConverter.cs:94-95 | After a leading -1, every prefix is negative and at least −fromBase^(k−1) for k digits. While that bound fits an `int`, the first pass emits nothing and ends with a negative remainder, which is then used as a list index. |
| `LongDivision.OuterAdvance` | Funcular.IdGenerators/BaseConversion/BaseConverter.cs:109-112 | After a pass, the remainder goes in front of the digits already produced. The quotient is strictly smaller than the number, which is why the loop ends. |
| `BaseConverter.WriteDigitsBackwards` | Funcular.IdGenerators/BaseConversion/BaseConverter.cs:144-149 | The characters written from the end of the 64-character buffer are exactly the canonical numeral of `n` in the radix. They always fit. |
| `BaseConverter.DecimalToArbitrarySystem` | Funcular.IdGenerators/BaseConversion/BaseConverter.cs:129-158 | A radix outside [2, 36] gives an `ArgumentException` with no parameter name (`Argument(None)`). Zero gives "0". `long.MinValue` overflows in `Math.Abs`. Otherwise the result is the digits of the magnitude, with '-' in front of a negative number. |
| `Base36Converter.FromHex` | Funcular.IdGenerators/BaseConversion/Base36Converter.cs:70-73 | The upper-cased text, without dashes, is read in base 16 and written in base 36. The result decodes to the hexadecimal value. |
| `Base36Converter.DecimalToBase36` | Funcular.IdGenerators/BaseConversion/Base36Converter.cs:85-88 | Decimal text converted from base 10 to base 36 is the base-36 text of the magnitude, because its '-' is a stripped separator. |
| `Base36Converter.FromInt32` | Funcular.IdGenerators/BaseConversion/Base36Converter.cs:80-83 | The base-36 text of the magnitude of the `int`. |
| `Base36Converter.FromInt64` | Funcular.IdGenerators/BaseConversion/Base36Converter.cs:85-88 | The base-36 text of the magnitude of the `long`, for every `long`, including `long.MinValue`. |
| `Base36Converter.FromLong` | Funcular.IdGenerators/BaseConversion/Base36Converter.cs:96-118 | "0" for zero. Otherwise the minimal base-36 digits of the magnitude, without a sign. `long.MinValue` throws `Overflow`. Every result has at most 13 characters, and `Decode` reads it back as the magnitude. |
| `Base36Converter.FromLongText` | Funcular.IdGenerators/BaseConversion/Base36Converter.cs:100-115 | The base-36 text of the magnitude of any `long`, `long.MinValue` included, has at most 13 characters. |
| `Base36Converter.Encode` | Funcular.IdGenerators/BaseConversion/Base36Converter.cs:125-138 | Zero gives "". A positive input gives its base-36 text. A negative input makes the digit table be indexed out of range. For every non-negative input the text has at most 13 characters, and `Decode` reads it back as the input. |
| `Base36Converter.Decode` | Funcular.IdGenerators/BaseConversion/Base36Converter.cs:145-159 | For text of up to 13 characters, the result is the sum of each upper-cased character's alphabet index times 36^position, counted from the right, in `unchecked` 64-bit arithmetic: that sum wrapped modulo 2^64 into the `long` range. Up to 12 characters it is the sum itself. |
| `Base36Converter.WrappedStep` | Funcular.IdGenerators/BaseConversion/Base36Converter.cs:154 | One wrapping `result +=` step keeps the running result equal to the wrapped value of the characters read so far. |
| `Base36Converter.WrapAdd` | Funcular.IdGenerators/BaseConversion/Base36Converter.cs:154 | Adding in 64-bit arithmetic: wrapping the operands first does not change the wrapped sum. |
| `Base36Converter.DecodeIgnoresCase` | Funcular.IdGenerators/BaseConversion/Base36Converter.cs:149 | `Decode(ToUpper(s)) == Decode(s)`. |
| `Base36Converter.DecodeFits` | Funcular.IdGenerators/BaseConversion/Base36Converter.cs:145-159 | Text of at most 12 characters decodes to a value strictly between -36^12 and 36^12, so the `long` sum cannot overflow. |
| `Base36Converter.DecodeInvertsBase36` | Funcular.IdGenerators/BaseConversion/Base36Converter.cs:145-159 | Every number from 0 to `long.MaxValue` has base-36 text of at most 13 characters. `Decode` reads that text back exactly, through the wrapping arithmetic too. |
| `LegacyBaseConverter.Converter.constructor` | BaseConversion/BaseConverter.cs:62 | `CharList` starts unset. |
| `LegacyBaseConverter.Converter.SetCharList` | BaseConversion/BaseConverter.cs:67 | The setter replaces the list. |
| `LegacyBaseConverter.Converter.Convert` | BaseConversion/BaseConverter.cs:74-107 | An unset or empty list is a `FormatException`. Otherwise the result is text or `IndexOutOfRange`, for any characters. Characters all found in a list no longer than 2^30 are converted to their `toBase` numeral. When the first pass emits nothing, the wrapped remainder decides: negative (a leading '-' and few digits) throws `IndexOutOfRange`. |
| `LegacyBase36Converter.DecimalIndices` | BaseConversion/Base36Converter.cs:72-82 | The indices of decimal text are the decimal numeral, or -1 followed by the numeral of the magnitude when the number is negative. |
| `LegacyBase36Converter.SignIndex` | BaseConversion/Base36Converter.cs:72-82 | The '-' of negative decimal text is not in the list. Its index is -1, in front of the digits. |
| `LegacyBase36Converter.ConvertDecimal` | BaseConversion/Base36Converter.cs:72-82 | `CharList` becomes the alphabet. Non-negative decimal text becomes base-36 text that decodes back to the number. A negative number above −10^9 throws `IndexOutOfRange`. Below that the remainder may wrap: the result is text or `IndexOutOfRange`, and the wrapped value decides when the first pass emits nothing. |
| `LegacyBase36Converter.NegativeDecimal` | BaseConversion/Base36Converter.cs:72-82 | The decimal text of a negative number above −10^9 gives a first pass that stays within the `int` range, emits nothing and ends negative. |
| `LegacyBase36Converter.PositiveDecimal` | BaseConversion/Base36Converter.cs:72-82 | The decimal text of a non-negative number converts to its base-36 text, which decodes back to it. |
| `LegacyBase36Converter.FromHex` | BaseConversion/Base36Converter.cs:60-64 | `CharList` becomes the alphabet. The text is upper-cased but keeps its dashes, and is read in base 16 and written in base 36. A leading dash followed by at most seven hexadecimal digits throws `IndexOutOfRange`. Otherwise the result is text or `IndexOutOfRange`, decided by the wrapped value when the first pass emits nothing. |
| `LegacyBase36Converter.DashEightZeros` | BaseConversion/Base36Converter.cs:60-64 | For "-00000000" the value −16^8 = −2^32 wraps to 0 and no prefix reaches 36, so `FromHex` returns "0" where a dash and seven zeros throw. |
| `LegacyBase36Converter.FromHexReadsBack` | BaseConversion/Base36Converter.cs:60-64 | The base-36 text produced from hexadecimal digits decodes to their value. |
| `LegacyBase36Converter.FromInt32` | BaseConversion/Base36Converter.cs:72-76 | A non-negative `int` gives its base-36 text, which decodes back to it. A negative one above −10^9 throws `IndexOutOfRange`. A lower one wraps as `ConvertDecimal` states. |
| `LegacyBase36Converter.FromInt64` | BaseConversion/Base36Converter.cs:78-82 | The same for a `long`. It agrees with `FromLong` only on non-negative input. |
| `LegacyBase36Converter.FromLong` | BaseConversion/Base36Converter.cs:90-117 | "0" for zero. Otherwise the base-36 digits of the magnitude, with '-' in front of a negative number. `long.MinValue` throws `Overflow`. |
| `LegacyBase36Converter.Encode` | BaseConversion/Base36Converter.cs:124-136 | A negative input is `ArgumentOutOfRange("input")`, and zero gives "". A positive input gives base-36 text that decodes back to it. Every result has at most 13 characters, and `Decode` reads it back as the input. |
| `LegacyBase36Converter.Decode` | BaseConversion/Base36Converter.cs:143-154 | For text of up to 13 characters, the positional base-36 sum of the upper-cased text, wrapped modulo 2^64 into the `long` range. Up to 12 characters it is the sum itself. |
| `ConcurrentStopwatch.Stopwatch.constructor` | Base36/ConcurrentStopwatch.cs:21-26 | The time zero is the microseconds from the epoch to the moment of starting, and the last value is 0. |
| `ConcurrentStopwatch.MicrosecondsSince` | Base36/ConcurrentStopwatch.cs:33-39 | Whole microseconds between the epoch and the instant, truncated toward zero. |
| `ConcurrentStopwatch.MicrosecondsSinceTruncates` | Base36/ConcurrentStopwatch.cs:33-39 | From the epoch on, ten times the microseconds is the elapsed tick count with its last decimal digit dropped, and it fits in the range of `DateTime`. |
| `ConcurrentStopwatch.MicrosecondsSinceMonotone` | Base36/ConcurrentStopwatch.cs:33-39 | Later instants never give fewer microseconds. |
| `ConcurrentStopwatch.Stopwatch.GetMicroseconds` | Base36/ConcurrentStopwatch.cs:45-58 | The value returned is strictly greater than the last one handed out, and is recorded as the new last value. It is the first reading to pass that value, so successive calls never repeat. |
| `IdGenerator.ValidateConstructorArguments` | Funcular.IdGenerators/Base36/Base36IdGenerator.cs:383-398 | It returns normally exactly when all three widths lie in [0, 12]. Otherwise it throws `ArgumentOutOfRange` naming a width that is out of range. A width above 12 is reported before a negative one. |
| `IdGenerator.GetRandomString` | Funcular.IdGenerators/Base36/Base36IdGenerator.cs:295-309 | A length outside [1, 12] throws. Otherwise the result has exactly that length and decodes to the random value modulo 36^length. |
| `IdGenerator.CutThenPad` | Funcular.IdGenerators/Base36/Base36IdGenerator.cs:226-228 | Cutting to the width and then padding with '0' gives text of exactly that width. |
| `IdGenerator.PaddedValue` | Funcular.IdGenerators/Base36/Base36IdGenerator.cs:228 | Leading '0' padding does not change what `Decode` reads. |
| `IdGenerator.RandomValue` | Funcular.IdGenerators/Base36/Base36IdGenerator.cs:303 | `Math.Abs` of C#'s truncating remainder by 36^width lies in [0, 36^width), even for a negative draw. |
| `IdGenerator.FitValue` | Funcular.IdGenerators/Base36/Base36IdGenerator.cs:225-228 | A number with at most `width` base-36 digits survives cutting or padding to `width`. |
| `IdGenerator.EncodeInterval` | Funcular.IdGenerators/Base36/Base36IdGenerator.cs:369-372 | The text is exactly `length` characters. It decodes to the count when the count fits. |
| `IdGenerator.GetTimestamp` | Funcular.IdGenerators/Base36/Base36IdGenerator.cs:325-373 | A length outside [1, 12] or resolution `None` throws. Strict mode throws `Overflow` only when the count exceeds 36^length. Non-strict mode keeps the count modulo 36. The result has exactly `length` characters and reads back as any count below 36^length. |
| `IdGenerator.GetTimestampAtCapacity` | Funcular.IdGenerators/Base36/Base36IdGenerator.cs:359-372 | At exactly 36^length intervals, strict mode returns text that reads as 36^(length-1). |
| `IdGenerator.GetTimestampCorrected` | Funcular.IdGenerators/Base36/Base36IdGenerator.cs:359-368 | With the test `combinations <= intervals`, strict mode succeeds exactly when the count fits, and its result always reads back as the count. |
| `IdGenerator.HostHashCache.constructor` | Funcular.IdGenerators/Base36/Base36IdGenerator.cs:79 | The static host-hash cache starts empty. |
| `IdGenerator.ComputeHostHash` | Funcular.IdGenerators/Base36/Base36IdGenerator.cs:274-289 | A cached hash whose length equals the server width is reused. Otherwise the first five bytes of the SHA-1 digest, read as a big-endian number, are written in base 36 and cached. The hash has at most eight characters. |
| `DigestText.HashHex` | Funcular.IdGenerators/Base36/Base36IdGenerator.cs:284-286 | The digest text cut to 14 characters is the text of the first five bytes. |
| `DigestText.HostHashValue` | Funcular.IdGenerators/Base36/Base36IdGenerator.cs:284-288 | `FromHex` of that text is the base-36 text of the five-byte number, at most eight characters long. |
| `IdGenerator.AddTicks` | Funcular.IdGenerators/Base36/Base36IdGenerator.cs:486-490 | Adding ticks succeeds exactly when the sum stays within the range of `DateTime`, and otherwise throws `ArgumentOutOfRange`. |
| `IdGenerator.CreationTicks` | Funcular.IdGenerators/Base36/Base36IdGenerator.cs:466-492 | The creation time is the epoch plus the decoded count in units of the resolution. Microseconds and the default case multiply by ten first. A result outside the range of `DateTime` throws. |
| `IdGenerator.CreationOfMicroseconds` | Funcular.IdGenerators/Base36/Base36IdGenerator.cs:488-491 | Converting an instant to microseconds and back gives the instant truncated to the microsecond. |
| `IdGenerator.Generator.constructor` | Funcular.IdGenerators/Base36/Base36IdGenerator.cs:137-145 | The fields are stored. The offsets are sorted largest first, with null meaning none. `_maxRandom` is 36^numRandomCharacters. |
| `IdGenerator.NewGenerator` | Funcular.IdGenerators/Base36/Base36IdGenerator.cs:130-162 | Invalid widths throw before anything changes. Otherwise the generator holds the arguments and the host hash from the cache or the digest, and the clock has advanced once. |
| `IdGenerator.NewDefaultGenerator` | Funcular.IdGenerators/Base36/Base36IdGenerator.cs:122-125 | The layout is 11 + 4 + 5, with no reserved value, the delimiter "-" and no offsets. |
| `IdGenerator.DefaultIdentifiers` | Funcular.IdGenerators/Base36/Base36IdGenerator.cs:118-125 | With that layout an identifier has 20 characters, and a delimited one equals the undelimited one. |
| `IdGenerator.Generator.RandomComponent` | Funcular.IdGenerators/Base36/Base36IdGenerator.cs:422-437 | Exactly `numRandomCharacters` characters, decoding to the magnitude of the draw modulo 36^numRandomCharacters. |
| `IdGenerator.Generator.TimestampField` | Funcular.IdGenerators/Base36/Base36IdGenerator.cs:225-228 | Exactly `numTimestampCharacters` base-36 characters, reading back as the microseconds whenever they fit. |
| `IdGenerator.TextOrder` | Funcular.IdGenerators/Base36/Base36IdGenerator.cs:225-228 | Base-36 texts of one length are in the ordinal order of the numbers they denote. The smaller number has the smaller character where the texts first differ. |
| `IdGenerator.LeadingTextDecides` | Funcular.IdGenerators/Base36/Base36IdGenerator.cs:225-238 | Texts that begin with base-36 texts of one length compare, ordinally and ignoring case, like the numbers those beginnings denote, whatever follows. |
| `IdGenerator.FitCapacity` | Funcular.IdGenerators/Base36/Base36IdGenerator.cs:225-228 | 36^length, cut to `length` characters, reads as less than 36^length − 1 padded to `length` characters. |
| `IdGenerator.Generator.IdsAscend` | Funcular.IdGenerators/Base36/Base36IdGenerator.cs:167-179 | `NewId` is documented as sequential. Identifiers made at microsecond counts `earlier` < `later` < 36^T sort in that order, ordinally and under `OrdinalIgnoreCase`, whatever the random draws. |
| `IdGenerator.Generator.IdsWrapAtCapacity` | Funcular.IdGenerators/Base36/Base36IdGenerator.cs:225-228 | The sequence breaks at 36^T microseconds. That identifier's timestamp field is the cut text of 36^T, so it sorts below the identifier made at 36^T − 1. |
| `IdGenerator.Generator.TimestampAtCapacity` | Funcular.IdGenerators/Base36/Base36IdGenerator.cs:225-228 | The timestamp field at 36^T microseconds reads as less than the field at 36^T − 1. |
| `IdGenerator.Generator.UndelimitedSplit` | Funcular.IdGenerators/Base36/Base36IdGenerator.cs:225-238 | An undelimited identifier is its timestamp field followed by the host hash, reserved and random fields. |
| `IdGenerator.Generator.Undelimited` | Funcular.IdGenerators/Base36/Base36IdGenerator.cs:225-238 | The undelimited identifier has length T + S + \|reserved\| + R. The reserved value counts only when it is not blank. |
| `IdGenerator.Generator.NewIdResult` | Funcular.IdGenerators/Base36/Base36IdGenerator.cs:211-248 | `Substring` throws exactly when the host hash is shorter than the server field. That always happens above eight characters. A delimited identifier is longer by one delimiter per offset and contains the delimiter. |
| `IdGenerator.Generator.NewId` | Funcular.IdGenerators/Base36/Base36IdGenerator.cs:211-248 | The result is `NewIdResult` at the microseconds of the clock or of the creation time. Only the clock path advances the clock. The builder holds the result. |
| `IdGenerator.Generator.AppendFields` | Funcular.IdGenerators/Base36/Base36IdGenerator.cs:225-238 | The appends add the undelimited identifier to the builder. They fail exactly when the host hash is too short. |
| `Delimiting.InsertAll` | Funcular.IdGenerators/Base36/Base36IdGenerator.cs:242-245 | Each insertion grows the text by the delimiter. An offset beyond the current text throws `ArgumentOutOfRange("index")`. |
| `Delimiting.InsertEach` | Funcular.IdGenerators/Base36/Base36IdGenerator.cs:242-245 | The insertion loop gives what inserting at each offset in turn gives, failing at the first offset outside the text. |
| `Delimiting.InsertAllDescending` | Funcular.IdGenerators/Base36/Base36IdGenerator.cs:242-245 | With offsets in descending order, all inside the text, every insertion succeeds. The delimiter then stands in front of each offset of the undelimited text. |
| `Delimiting.InsertAllContains` | Funcular.IdGenerators/Base36/Base36IdGenerator.cs:242-245 | After at least one successful insertion, the text contains the delimiter. |
| `Delimiting.SortDescending` | Funcular.IdGenerators/Base36/Base36IdGenerator.cs:144 | `OrderByDescending` gives a descending permutation of the offsets. |
| `Delimiting.SortDescendingSorted` | Funcular.IdGenerators/Base36/Base36IdGenerator.cs:144 | Sorting offsets that are already descending changes nothing. |
| `IdGenerator.Generator.Format` | Funcular.IdGenerators/Base36/Base36IdGenerator.cs:257-267 | Blank text, or text that already holds the delimiter, is returned as is. Otherwise the delimiter is inserted at each offset. |
| `IdGenerator.Generator.FormatIdempotent` | Funcular.IdGenerators/Base36/Base36IdGenerator.cs:257-267 | `Format(Format(id)) == Format(id)`. |
| `IdGenerator.Generator.FormatDelimits` | Funcular.IdGenerators/Base36/Base36IdGenerator.cs:262-266 | With every offset inside the text, `Format` succeeds, and the length grows by one delimiter per offset. |
| `IdGenerator.Generator.FormatOfNewId` | Funcular.IdGenerators/Base36/Base36IdGenerator.cs:240-246 | Formatting an undelimited identifier gives the delimited identifier `NewId(true)` makes from the same time and draw. |
| `IdGenerator.Generator.Slice` | Funcular.IdGenerators/Base36/Base36IdGenerator.cs:454-464 | A field is cut only when its width is positive. It succeeds exactly when it lies inside the text. |
| `IdGenerator.Generator.ParseAt` | Funcular.IdGenerators/Base36/Base36IdGenerator.cs:439-497 | Null throws `Argument(Some("id"))`, and "" gives the default information. A failed cut throws. Without a timestamp field, `Decode(null)` throws. Otherwise the fields are the cut slices, and the creation time follows from the decoded timestamp. |
| `IdGenerator.Generator.Parse` | Funcular.IdGenerators/Base36/Base36IdGenerator.cs:439-497 | The same, with the hash and random fields cut from `index - 1`. Without a timestamp field, the first cut already throws for `startIndex`. |
| `IdGenerator.Generator.ParseWellFormed` | Funcular.IdGenerators/Base36/Base36IdGenerator.cs:439-497 | On text long enough for every field, `Parse` fails only where the creation time leaves the range of `DateTime`. |
| `IdGenerator.Generator.ParseReadsTimestamp` | Funcular.IdGenerators/Base36/Base36IdGenerator.cs:448-452 | The timestamp field of a new identifier decodes back to the microseconds when they fit. |
| `IdGenerator.Generator.ParseRecoversCreationTime` | Funcular.IdGenerators/Base36/Base36IdGenerator.cs:466-491 | At microsecond resolution, `Parse` of a `NewId` made at a creation time gives that time truncated to the microsecond. |
| `IdGenerator.Generator.ParseShiftsFields` | Funcular.IdGenerators/Base36/Base36IdGenerator.cs:454-464 | On a `NewId` identifier, the hash field is the last timestamp character plus all but the last hash character. The random field starts with the last hash character. |
| `IdGenerator.Generator.ParseCorrected` | Funcular.IdGenerators/Base36/Base36IdGenerator.cs:454-464 | `Parse` with each field cut where `NewId` puts it. The null and empty cases are unchanged. |
| `IdGenerator.Generator.ParseCorrectedRecoversFields` | Funcular.IdGenerators/Base36/Base36IdGenerator.cs:454-464 | The corrected `Parse` of a `NewId` identifier returns its timestamp field, the server's part of the host hash and its random digits. It succeeds exactly when the creation time is in range. |
| `LegacyIdGenerator.StaticHostHash` | Base36/Base36IdGenerator.cs:303-310 | The static host hash is 2 to 6 characters of base-36 text for the magnitude of the host name's hash code, and decodes back to it. `int.MinValue` throws. |
| `LegacyIdGenerator.HostHashTextFacts` | Base36/Base36IdGenerator.cs:135 | Padded to two characters, the base-36 text of a magnitude up to `int.MaxValue` has 2 to 6 alphabet characters and decodes back to it. |
| `LegacyIdGenerator.EncodeTextDigits` | BaseConversion/Base36Converter.cs:124-136 | The older `Encode` of a non-negative number decodes back to it. Its alphabet indices are the number's base-36 digits. |
| `LegacyIdGenerator.InitializeStatics` | Base36/Base36IdGenerator.cs:126-141 | The static constructor sets the host hash, `_reservedHash` = "Z", `_reserved` = 35 and `_lastMicroseconds` = 0. It throws only where `Math.Abs` does. |
| `LegacyIdGenerator.Statics.constructor` | Base36/Base36IdGenerator.cs:77-93 | The initial values of the static fields. |
| `LegacyIdGenerator.Statics.GetMicroseconds` | Base36/Base36IdGenerator.cs:390-404 | The value returned is strictly greater than the last one and becomes the last one. The reserved state is untouched. |
| `LegacyIdGenerator.Statics.GetMicrosecondsCrossProcess` | Base36/Base36IdGenerator.cs:363-382 | The same, under the mutex. |
| `LegacyIdGenerator.Statics.Reserved` | Base36/Base36IdGenerator.cs:113 | The property returns the cached text if there is one. Otherwise it computes `FromInt32(_reserved)` and caches it: the digit's text for 0 to 35, `IndexOutOfRange` below zero. The static state keeps `_reserved` within the range `checkReserved` can produce, where nothing wraps. |
| `LegacyIdGenerator.ReservedDigits` | Base36/Base36IdGenerator.cs:113 | `FromInt32` of a reserved value in [−2487, 35] is the digit's text from 0 up, and `IndexOutOfRange` below 0. |
| `LegacyIdGenerator.ReservedPeriods` | Base36/Base36IdGenerator.cs:411 | A non-negative `long` holds at most 2522 periods of 36^10 − 1, so the rolled `_reserved` is at least −2487 and `Convert.ToInt32` never overflows. |
| `LegacyIdGenerator.Generator.constructor` | Base36/Base36IdGenerator.cs:146-171 | The widths and the reserved value are stored, and the clock is read once. |
| `LegacyIdGenerator.Generator.CheckReserved` | Base36/Base36IdGenerator.cs:406-414 | Past `_oneYearInMicroseconds`, `_reserved` becomes 35 − last / (36^10 − 1), and the last value is set back by that constant. Otherwise only the flag changes. The cached text is never refreshed, and `_reserved` stays within [−2487, 35]. |
| `LegacyIdGenerator.ReservedRollIsStale` | Base36/Base36IdGenerator.cs:406-414 | A roll gives a reserved value below 35, whose text differs from the cached "Z". |
| `LegacyIdGenerator.RandomFieldFacts` | Base36/Base36IdGenerator.cs:287 | A draw below 46655 gives a random field of exactly three characters. It decodes to the draw's base-36 digits read as hexadecimal. |
| `LegacyIdGenerator.RandomFieldCollision` | Base36/Base36IdGenerator.cs:287 | The draws 36 and 16 give the same random field, "00G". |
| `LegacyIdGenerator.SumBytes` | Base36/Base36IdGenerator.cs:507-510 | The `foreach` accumulates the sum of the bytes. |
| `LegacyIdGenerator.GetBytesSum` | Base36/Base36IdGenerator.cs:500-516 | The repeated byte sums end at a value in [0, forBase^maxChars] that keeps the first sum's remainder modulo 255. |
| `LegacyIdGenerator.DigitSumShrinks` | Base36/Base36IdGenerator.cs:505-514 | From 256 on, the sum of a number's bytes is strictly smaller than the number, so the loop ends. |
| `LegacyIdGenerator.ReduceFacts` | Base36/Base36IdGenerator.cs:505-514 | The repeated byte sum ends at most at the bound and at most at the start value, and it keeps the remainder modulo 255. |
| `LegacyIdGenerator.ChecksumText` | Base36/Base36IdGenerator.cs:317-322 | A checksum up to 1296 encodes to at most three characters. It is "100" exactly at 1296. |
| `LegacyIdGenerator.ComputeHostHash` | Base36/Base36IdGenerator.cs:317-322 | `Encode` of the checksum of the MD5 digest. It has at most three characters, and three exactly when it is "100" for the checksum 1296. |
| `LegacyIdGenerator.AppendFront` | Base36/Base36IdGenerator.cs:281-286 | The builder holds the timestamp, host hash and reserved fields, each forced to its width by the `Length` assignments. |
| `LegacyIdGenerator.TimestampDigits` | Base36/Base36IdGenerator.cs:281 | `FromInt64` of the microseconds, padded to ten characters. |
| `LegacyIdGenerator.RandomDigits` | Base36/Base36IdGenerator.cs:287 | `FromHex` of the encoded draw reads the draw's base-36 digits as hexadecimal and writes that value in base 36. The result is padded to three characters. |
| `LegacyIdGenerator.LayoutFields` | Base36/Base36IdGenerator.cs:281-288 | The `Length` assignments leave the four fields side by side, each cut or padded with '\0' to widths 10, 2, 1 and 3, whatever the instance's widths are. |
| `LegacyIdGenerator.TimestampFieldFits` | Base36/Base36IdGenerator.cs:281-282 | While the microseconds are below 36^10, the timestamp field reads back as them. |
| `LegacyIdGenerator.TimestampFieldOverflows` | Base36/Base36IdGenerator.cs:281-282 | From 36^10 on, the field keeps only the leading ten digits of a longer text. |
| `LegacyIdGenerator.NewIdTextSteps` | Base36/Base36IdGenerator.cs:281-294 | The identifier is the four fields laid out by the `Length` assignments, then the three insertions, all of which succeed. |
| `LegacyIdGenerator.UndelimitedFields` | Base36/Base36IdGenerator.cs:281-288 | The undelimited identifier has 16 characters. The timestamp reads back while it fits ten characters. The host field is the first two hash characters. The reserved field is its first character or '\0'. The random field is the last three characters. |
| `LegacyIdGenerator.DelimitedGroups` | Base36/Base36IdGenerator.cs:289-294 | With a delimiter, the identifier is four groups of four separated by it, of length 16 + 3·\|delimiter\|. |
| `LegacyIdGenerator.Generator.NewBase36String` | Base36/Base36IdGenerator.cs:254-296 | The clock advances, and the result is the identifier of the new microseconds, the static host hash, the cached reserved text and the draw. |

## Left out

- `FromGuid` (both versions) is not modelled. It is `FromHex` of the GUID's text, and GUID formatting is not part of this model.
- Locks, the named mutex and the `SpinLock` are left out, as are the shared `StringBuilder` and `_fromLongBuffer`. Every call is sequential.
- Other outside values are parameters:
  - the random draws: `NextBytes` and `NextLong`, in `ConcurrentRandom.cs` and `Funcular.IdGenerators/ConcurrentRandom.cs`, are not part of this model;
  - the SHA-1 and MD5 digests;
  - `Dns.GetHostName`, `Environment.MachineName` and `string.GetHashCode`;
  - the stopwatch and `DateTime.UtcNow` readings.
- `getHostBytes`, `getRandomDigitsSpinLock`, `getRandomDigitsUnsafe`, `NewBase36StringConcat` and the commented-out code are not modelled.
- The configured inception date (`ConfigurationManager`), the timer wiring, and `Console`/`Debug` output are left out. The epoch is fixed at 1970-01-01 UTC.
- `_oneYearInMicroseconds` is a positive constant given to the `Statics` constructor, not computed from `TimeSpan` arithmetic.
- `DateTime.ToUniversalTime` is left out. A creation time is given as UTC ticks.
- `NewId()` and `NewId(DateTime)` are not modelled as separate members. They are `NewId(false, …)`, covered by `IdGenerator.Generator.NewId`.
- A null `delimiter` of the current generator, and `Format(null)`, are not modelled.
- `ArgumentOutOfRange` parameter names follow .NET Framework's `Substring` and `Insert`. Other runtimes may name them differently.
- `Base36Converter.Decode`: input is limited to at most 13 characters. From 14 characters on, the cast of `Math.Pow(36, 13)` to `long` is out of range, and its result is not specified by C#. Up to 13 characters the products and the sum wrap, and that is modelled.
- `LegacyBase36Converter.Decode`: input is limited to at most 13 characters, for the same reason. Its arithmetic is taken as unchecked, the C# default. No project file that could turn on overflow checking is part of this model.
- `Clr.Upper`: ASCII upper-casing, 'a' to 'z' only. The culture-sensitive `ToUpper` maps other characters too: 'ı' and 'ſ' to 'I' and 'S' in every culture, and 'i' to 'İ' under a Turkish culture. Those mappings are not modelled. `Clr.UpperChar` likewise.
- `IdGenerator.Generator.IdsAscend`: the order is shown for undelimited identifiers from increasing microsecond counts. Delimited identifiers, and two identifiers made within the same microsecond, are not covered.
- `BaseConverter.Convert`: every character left after removing separators must be in the alphabet. A character outside it reads as -1 anywhere in the text, and that is not modelled.
- `LegacyBaseConverter.Converter.Convert`: `toBase` must not exceed the list length. The exact conversion is stated only for lists of at most 2^30 characters, more than a .NET string can hold. For other input it states only that the result is text or `IndexOutOfRange`.
- `LongDivision.DivideOut`: once a wrapped remainder reaches `toBase` and quotient digits are emitted from it, the loop is modelled pass by pass but no contract names the resulting text. An example is `int.MinValue`, which is said to give "C71FK0" in the source. Only "text or `IndexOutOfRange`" is stated.
- `LongDivision.DividePass`: the same. For digits that wrap, only the emptiness of the quotient, the remainder's range and the termination measure are stated.
- `LongDivision.NegativePass`: it covers a leading -1 with fromBase^(k−1) ≤ 2^31, which is 9 decimal or 7 hexadecimal digits after the sign. Longer input is covered by `DivideOut` and `OnePass`.
- `LegacyBase36Converter.ConvertDecimal`: for a negative number of ten or more digits the result is stated only as text or `IndexOutOfRange`, or exactly when the first pass emits nothing. `LegacyBase36Converter.FromInt32` and `LegacyBase36Converter.FromInt64` likewise.
- `LegacyBase36Converter.FromInt32`: see `ConvertDecimal`. `int.MinValue` and other values below −999999999 wrap.
- `LegacyBase36Converter.FromInt64`: see `ConvertDecimal`.
- `LegacyBase36Converter.FromHex`: for a leading dash followed by eight or more digits, or a character outside the alphabet later in the text, the result is stated only as text or `IndexOutOfRange`, or exactly when the first pass emits nothing.
- `IdGenerator.GetTimestamp`: the elapsed time since `sinceUtc`, in units of the resolution, is the parameter `intervals`. The `double` rounding of `Convert.ToInt64(elapsed.TotalHours)` and similar is not modelled. The comparison with `Math.Pow(36, length)` is taken as exact.
- `IdGenerator.CreationTicks`: for days to milliseconds, `DateTime.Add*` is taken as adding whole ticks. The `double` rounding of those methods is left out.
- `LegacyIdGenerator.GetBytesSum`: `forBase^maxChars` must be at least 255. With a smaller bound the source loops forever on a sum between the bound and 255. The `Math.Pow` double is taken as exact.
- `ConcurrentStopwatch.Stopwatch.GetMicroseconds`: some reading in the sequence must pass the last value. The source spins until one does.
- `LegacyIdGenerator.Statics.GetMicroseconds`: the same condition as the current stopwatch.
- `LegacyIdGenerator.Statics.GetMicrosecondsCrossProcess`: the same condition as the current stopwatch.

## Findings

| source | as written | input that shows it | evidently intended | confidence | as-written member | corrected member |
|---|---|---|---|---|---|---|
| Funcular.IdGenerators/Base36/Base36IdGenerator.cs:359-368 | Strict `GetTimestamp` throws only when `combinations < intervals`. | `length` = 1, `intervals` = 36, `strict` = true returns "1", which reads as 1 and not 36. | Throw from `intervals` = 36^length on (`<=`), since 36^length needs `length + 1` digits. | high (not executed) | `IdGenerator.GetTimestampAtCapacity` | `IdGenerator.GetTimestampCorrected` |
| Funcular.IdGenerators/Base36/Base36IdGenerator.cs:454-464 | `Parse` cuts the hash and random fields from `index - 1`, and ignores the reserved value. | With the default layout (11, 4, 5), the hash field of a new identifier is its 11th to 14th characters: the last timestamp character and the first three hash characters. | Cut the hash from `index`, and the random digits after the hash and the reserved value, where `NewId` puts them. | high (not executed) | `IdGenerator.Generator.ParseShiftsFields` | `IdGenerator.Generator.ParseCorrectedRecoversFields` |
