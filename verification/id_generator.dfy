/** `Base36IdGenerator` of the current library. An identifier is laid out as
    timestamp + host hash [+ reserved value] + random digits, all base 36, and
    may be delimited; `Parse` takes one apart again. The clock, the random
    number generator and the SHA-1 digest of the host name are inputs. */
module IdGenerator {
  import opened Wrappers
  import opened Clr
  import opened Numerals
  import opened Delimiting
  import Text
  import Base36Converter
  import DigestText
  import ConcurrentStopwatch
  import IdTypes

  /** `DateTime.MaxValue.Ticks`. */
  const MaxTicks: int := 3155378975999999999

  /** The widest component: 36^13 does not fit a `long`. */
  const MaxWidth: int := 12

  /** The width a `ValidateConstructorArguments` exception names. */
  function WidthNamed(param: string, numTimestampCharacters: int, numServerCharacters: int,
                      numRandomCharacters: int): int
  {
    if param == "numTimestampCharacters" then numTimestampCharacters
    else if param == "numServerCharacters" then numServerCharacters
    else numRandomCharacters
  }

  /** `ValidateConstructorArguments`: `None` when it returns normally,
      otherwise the exception it throws. The three upper bounds are checked
      before the three signs. */
  function ValidateConstructorArguments(numTimestampCharacters: int, numServerCharacters: int,
                                        numRandomCharacters: int): (thrown: Option<Exception>)
    ensures thrown == None <==>
      0 <= numTimestampCharacters <= MaxWidth && 0 <= numServerCharacters <= MaxWidth
      && 0 <= numRandomCharacters <= MaxWidth
    ensures thrown.Some? ==>
      thrown.value.ArgumentOutOfRange?
      && thrown.value.param in {"numTimestampCharacters", "numServerCharacters", "numRandomCharacters"}
    ensures thrown.Some? ==>
      var w := WidthNamed(thrown.value.param, numTimestampCharacters, numServerCharacters, numRandomCharacters);
      w < 0 || w > MaxWidth
    ensures thrown.Some? && (numTimestampCharacters > MaxWidth || numServerCharacters > MaxWidth
                             || numRandomCharacters > MaxWidth) ==>
      WidthNamed(thrown.value.param, numTimestampCharacters, numServerCharacters, numRandomCharacters) > MaxWidth
  {
    if numTimestampCharacters > MaxWidth then Some(ArgumentOutOfRange("numTimestampCharacters"))
    else if numServerCharacters > MaxWidth then Some(ArgumentOutOfRange("numServerCharacters"))
    else if numRandomCharacters > MaxWidth then Some(ArgumentOutOfRange("numRandomCharacters"))
    else if numTimestampCharacters < 0 then Some(ArgumentOutOfRange("numTimestampCharacters"))
    else if numServerCharacters < 0 then Some(ArgumentOutOfRange("numServerCharacters"))
    else if numRandomCharacters < 0 then Some(ArgumentOutOfRange("numRandomCharacters"))
    else None
  }

  /** Base-36 text cut to its first `width` characters, or padded on the left
      with '0' to `width` characters. */
  function Fit(s: string, width: nat): (r: string)
    ensures |r| == width
  {
    if |s| > width then s[..width] else PadLeft(s, width, '0')
  }

  /** Cutting to `width` characters and then padding to `width` is `Fit`. */
  lemma CutThenPad(s: string, width: nat)
    ensures PadLeft(if |s| > width then s[..width] else s, width, '0') == Fit(s, width)
  {
  }

  /** Leading '0' characters do not change what `Decode` reads. */
  lemma PaddedValue(s: string, width: int)
    ensures DecodeValue(PadLeft(s, width, '0')) == DecodeValue(s)
  {
    if |s| < width {
      AlphabetShape();
      var p := PadLeft(s, width, '0');
      var k := width - |s|;
      assert p == p[..k] + s;
      var ip := Indices(Upper(p), Alphabet);
      assert IndexOf('0', Alphabet) == 0;
      assert ip == Zeros(k) + Indices(Upper(s), Alphabet);
      LeadingZeros(k, Indices(Upper(s), Alphabet), 36);
    }
  }

  /** A number with at most `width` base-36 digits survives `Fit`. */
  lemma FitValue(n: nat, width: nat)
    ensures n < Pow(36, width) ==> DecodeValue(Fit(Base36Of(n), width)) == n
  {
    var s := Base36Of(n);
    if n < Pow(36, width) {
      DecodeBase36Of(n);
      if width == 0 {
        assert Fit(s, width) == "";
      } else {
        Base36OfLength(n, width);
        PaddedValue(s, width);
      }
    }
  }

  /** Fitting base-36 text keeps it base-36 text. */
  lemma FitAllIn(s: string, width: nat)
    requires AllIn(s, Alphabet)
    ensures AllIn(Fit(s, width), Alphabet)
  {
    AlphabetShape();
    assert '0' == Alphabet[0];
  }

  /** Base-36 texts of one length are in the ordinal order of the numbers
      they denote: the smaller number has the smaller character where the
      texts first differ. */
  lemma TextOrder(s: string, t: string)
    requires AllIn(s, Alphabet) && AllIn(t, Alphabet) && |s| == |t|
    requires DecodeValue(s) < DecodeValue(t)
    ensures exists k :: 0 <= k < |s| && s[..k] == t[..k] && s[k] < t[k]
  {
    UpperOfAlphabetText(s);
    UpperOfAlphabetText(t);
    var xs, ys := Indices(s, Alphabet), Indices(t, Alphabet);
    AlphabetIndices(s);
    AlphabetIndices(t);
    ValueOrder(xs, ys, 36);
    var k :| 0 <= k < |xs| && xs[..k] == ys[..k] && xs[k] < ys[k];
    SpelledPrefix(s, t, k);
    AlphabetAscending(xs[k], ys[k]);
  }

  /** Texts whose leading `k` characters have the same alphabet indices agree
      on those characters. */
  lemma SpelledPrefix(s: string, t: string, k: int)
    requires AllIn(s, Alphabet) && AllIn(t, Alphabet) && 0 <= k <= |s| && k <= |t|
    requires Indices(s, Alphabet)[..k] == Indices(t, Alphabet)[..k]
    ensures s[..k] == t[..k]
  {
    forall i | 0 <= i < k
      ensures s[i] == t[i]
    {
      assert Indices(s, Alphabet)[..k][i] == Indices(t, Alphabet)[..k][i];
    }
  }

  /** The indices of base-36 text are digits that spell it back. */
  lemma AlphabetIndices(s: string)
    requires AllIn(s, Alphabet)
    ensures IsDigits(Indices(s, Alphabet), 36)
    ensures forall i :: 0 <= i < |s| ==> Alphabet[Indices(s, Alphabet)[i]] == s[i]
  {
    AlphabetShape();
  }

  /** The alphabet is in ascending character order. */
  lemma AlphabetAscending(i: int, j: int)
    requires 0 <= i < j < 36
    ensures Alphabet[i] < Alphabet[j]
  {
    AlphabetShape();
  }

  /** Two texts that first differ inside leading base-36 parts of one length
      keep that order whatever follows, compared as they are or upper-cased
      (`StringComparison.OrdinalIgnoreCase`). */
  lemma HeadDecides(s: string, t: string, x: string, y: string, k: int)
    requires AllIn(s, Alphabet) && AllIn(t, Alphabet) && |s| == |t|
    requires 0 <= k < |s| && s[..k] == t[..k] && s[k] < t[k]
    ensures OrdinalBelow(s + x, t + y)
    ensures OrdinalBelow(Upper(s + x), Upper(t + y))
  {
    assert (s + x)[..k] == s[..k] && (t + y)[..k] == t[..k];
    UpperOfAlphabetText(s);
    UpperOfAlphabetText(t);
    assert UpperChar(s[k]) == Upper(s)[k] && UpperChar(t[k]) == Upper(t)[k];
    forall i | 0 <= i < k
      ensures Upper(s + x)[i] == Upper(t + y)[i]
    {
      assert s[i] == s[..k][i] == t[..k][i] == t[i];
    }
    assert Upper(s + x)[..k] == Upper(t + y)[..k];
  }

  /** Texts that begin with base-36 texts of one length are in the order of
      the numbers those beginnings denote, whatever follows, compared as they
      are or upper-cased (`StringComparison.OrdinalIgnoreCase`). */
  lemma LeadingTextDecides(s: string, t: string, x: string, y: string)
    requires AllIn(s, Alphabet) && AllIn(t, Alphabet) && |s| == |t|
    requires DecodeValue(s) < DecodeValue(t)
    ensures OrdinalBelow(s + x, t + y)
    ensures OrdinalBelow(Upper(s + x), Upper(t + y))
  {
    TextOrder(s, t);
    var k :| 0 <= k < |s| && s[..k] == t[..k] && s[k] < t[k];
    HeadDecides(s, t, x, y, k);
  }

  /** `Math.Abs(random % 36^width)`: the magnitude of C#'s remainder. */
  function RandomValue(randomLong: int, width: nat): (v: nat)
    ensures v < Pow(36, width)
  {
    Abs(Rem(randomLong, Pow(36, width)))
  }

  /** `GetRandomString(length)`, with `randomLong` the `long` read from the
      random bytes. */
  function GetRandomString(length: int, randomLong: int): (r: Result<string>)
    ensures r.Err? <==> length < 1 || length > MaxWidth
    ensures r.Err? ==> r.error == ArgumentOutOfRange("length")
    ensures r.Ok? ==> |r.value| == length && DecodeValue(r.value) == RandomValue(randomLong, length)
  {
    if length < 1 || length > MaxWidth then Err(ArgumentOutOfRange("length"))
    else
      FitValue(RandomValue(randomLong, length), length);
      Ok(Fit(Base36Of(RandomValue(randomLong, length)), length))
  }

  /** The end of `GetTimestamp`: `FromLong` (which throws in `Math.Abs` for
      `long.MinValue`), then cut or padded to `length`. */
  function EncodeInterval(length: nat, intervals: int): (r: Result<string>)
    ensures r.Err? <==> intervals == MinLong
    ensures r.Err? ==> r.error == Overflow
    ensures r.Ok? ==> |r.value| == length
    ensures intervals != MinLong && Abs(intervals) < Pow(36, length) ==>
      r.Ok? && DecodeValue(r.value) == Abs(intervals)
  {
    if intervals == MinLong then Err(Overflow)
    else
      FitValue(Abs(intervals), length);
      Ok(Fit(Base36Of(Abs(intervals)), length))
  }

  /** `GetTimestamp(length, resolution, sinceUtc, strict)`, with `intervals`
      the elapsed time since `sinceUtc` that the switch computes in units of
      `resolution`. Strict mode throws only when the count EXCEEDS 36^length. */
  function GetTimestamp(length: int, resolution: IdTypes.TimestampResolution, intervals: int,
                        strict: bool): (r: Result<string>)
    ensures length < 1 || length > MaxWidth ==> r == Err(ArgumentOutOfRange("length"))
    ensures 1 <= length <= MaxWidth ==> (r == Err(ArgumentOutOfRange("resolution")) <==> resolution.None?)
    ensures 1 <= length <= MaxWidth && !resolution.None? ==>
      (r == Err(Overflow) <==> (strict && Pow(36, length) < intervals) || intervals == MinLong)
    ensures r.Ok? ==> |r.value| == length
    ensures 1 <= length <= MaxWidth && !resolution.None? && 0 <= intervals < Pow(36, length) ==>
      r.Ok? && DecodeValue(r.value) == intervals
    ensures 1 <= length <= MaxWidth && !resolution.None? && !strict && Pow(36, length) < intervals ==>
      r.Ok? && DecodeValue(r.value) == intervals % 36
  {
    if length < 1 || length > MaxWidth then Err(ArgumentOutOfRange("length"))
    else if resolution.None? then Err(ArgumentOutOfRange("resolution"))
    else if Pow(36, length) < intervals then
      if strict then Err(Overflow)
      else
        PowMonotone(36, 1, length);
        EncodeInterval(length, intervals % 36)
    else EncodeInterval(length, intervals)
  }

  /** Base-36 text of 36^k: a '1' followed by k zeros. */
  lemma PowText(k: nat)
    ensures Base36Of(Pow(36, k)) == Spell([1] + Zeros(k), Alphabet)
    ensures DecodeValue(Spell([1] + Zeros(k), Alphabet)) == Pow(36, k)
  {
    AlphabetShape();
    var ds := [1] + Zeros(k);
    ValueOfCons(1, Zeros(k), 36);
    LeadingZeros(k, [], 36);
    assert Zeros(k) + [] == Zeros(k);
    NumeralUnique(ds, Pow(36, k), 36);
    DecodeBase36Of(Pow(36, k));
  }

  /** 36^length has `length + 1` digits; keeping the first `length` of them
      leaves the text of 36^(length-1). */
  lemma FitPowText(length: nat)
    requires length >= 1
    ensures DecodeValue(Fit(Base36Of(Pow(36, length)), length)) == Pow(36, length - 1)
  {
    var t, u := Base36Of(Pow(36, length)), Base36Of(Pow(36, length - 1));
    PowText(length);
    PowText(length - 1);
    assert |t| == length + 1 && |u| == length;
    forall i | 0 <= i < length ensures t[i] == u[i] {
      if i > 0 {
        assert t[i] == Alphabet[0] == u[i];
      }
    }
    assert Fit(t, length) == u;
    DecodeBase36Of(Pow(36, length - 1));
  }

  /** 36^length fitted to `length` characters reads as less than the
      largest number of `length` digits. */
  lemma FitCapacity(length: nat)
    requires length >= 1
    ensures DecodeValue(Fit(Base36Of(Pow(36, length)), length))
          < DecodeValue(Fit(Base36Of(Pow(36, length) - 1), length))
  {
    var capacity, below := Pow(36, length), Pow(36, length - 1);
    assert capacity == 36 * below && below >= 1;
    FitPowText(length);
    FitValue(capacity - 1, length);
    var wrapped, last := Fit(Base36Of(capacity), length), Fit(Base36Of(capacity - 1), length);
    assert DecodeValue(wrapped) == below < capacity - 1 == DecodeValue(last);
  }

  /** At exactly 36^length intervals, strict mode does not throw: the text
      has `length + 1` digits, `Fit` keeps the first `length`, and the result
      reads back as 36^(length-1). */
  lemma GetTimestampAtCapacity(length: int, resolution: IdTypes.TimestampResolution)
    requires 1 <= length <= MaxWidth && !resolution.None?
    ensures GetTimestamp(length, resolution, Pow(36, length), true).Ok?
    ensures DecodeValue(GetTimestamp(length, resolution, Pow(36, length), true).value) == Pow(36, length - 1)
    ensures Pow(36, length - 1) < Pow(36, length)
  {
    var n := Pow(36, length);
    PowMonotone(36, length, MaxWidth);
    Pow36Twelve();
    assert GetTimestamp(length, resolution, n, true) == EncodeInterval(length, n);
    assert EncodeInterval(length, n) == Ok(Fit(Base36Of(n), length));
    FitPowText(length);
  }

  /** `GetTimestamp` with the overflow test `combinations <= intervals`, so
      strict mode returns only timestamps that read back as the count. */
  function GetTimestampCorrected(length: int, resolution: IdTypes.TimestampResolution, intervals: int,
                                 strict: bool): (r: Result<string>)
    ensures length < 1 || length > MaxWidth ==> r == Err(ArgumentOutOfRange("length"))
    ensures 1 <= length <= MaxWidth ==> (r == Err(ArgumentOutOfRange("resolution")) <==> resolution.None?)
    ensures r.Ok? ==> |r.value| == length
    ensures 1 <= length <= MaxWidth && !resolution.None? && strict && 0 <= intervals ==>
      (r.Ok? <==> intervals < Pow(36, length)) && (r.Ok? ==> DecodeValue(r.value) == intervals)
    ensures 1 <= length <= MaxWidth && !resolution.None? && !strict && Pow(36, length) <= intervals ==>
      r.Ok? && DecodeValue(r.value) == intervals % 36
  {
    if length < 1 || length > MaxWidth then Err(ArgumentOutOfRange("length"))
    else if resolution.None? then Err(ArgumentOutOfRange("resolution"))
    else if Pow(36, length) <= intervals then
      if strict then Err(Overflow)
      else
        PowMonotone(36, 1, length);
        EncodeInterval(length, intervals % 36)
    else EncodeInterval(length, intervals)
  }

  /** The static `_hostHashBase36`, shared by every generator of the process. */
  class HostHashCache {
    var hostHashBase36: Option<string>

    /** A cached hash is base-36 text of at most eight characters. */
    ghost predicate Valid()
      reads this
    {
      hostHashBase36.Some? ==> |hostHashBase36.value| <= 8 && AllIn(hostHashBase36.value, Alphabet)
    }

    constructor ()
      ensures hostHashBase36 == None && Valid()
    {
      hostHashBase36 := None;
    }
  }

  /** `ComputeHostHash()`, with `digest` the SHA-1 digest of the UTF-8 host
      name. A cached hash is reused only when its length equals
      `numServerCharacters`; otherwise the first five digest bytes are read as
      a number and written in base 36, and the cache is replaced. */
  method ComputeHostHash(cache: HostHashCache, numServerCharacters: int, digest: seq<int>) returns (h: string)
    requires cache.Valid() && |digest| == 20 && IsDigits(digest, 256)
    modifies cache
    ensures cache.Valid() && cache.hostHashBase36 == Some(h)
    ensures |h| <= 8 && AllIn(h, Alphabet)
    ensures old(cache.hostHashBase36).Some? && |old(cache.hostHashBase36).value| == numServerCharacters ==>
      h == old(cache.hostHashBase36).value
    ensures !(old(cache.hostHashBase36).Some? && |old(cache.hostHashBase36).value| == numServerCharacters) ==>
      ValueOf(digest[..5], 256) >= 0 && h == Base36Of(ValueOf(digest[..5], 256))
      && DecodeValue(h) == ValueOf(digest[..5], 256)
  {
    if cache.hostHashBase36.Some? && |cache.hostHashBase36.value| == numServerCharacters {
      return cache.hostHashBase36.value;
    }
    var hashHex := DigestText.HashHex(digest);
    DigestText.HostHashValue(digest);
    h := Base36Converter.FromHex(hashHex);
    DecodeBase36Of(ValueOf(digest[..5], 256));
    cache.hostHashBase36 := Some(h);
  }

  /** `DateTime.AddTicks`, which throws when the result leaves the range of
      `DateTime`. */
  function AddTicks(ticks: int, value: int): (r: Result<int>)
    ensures r.Ok? <==> 0 <= ticks + value <= MaxTicks
    ensures r.Ok? ==> r.value == ticks + value
    ensures r.Err? ==> r.error == ArgumentOutOfRange("value")
  {
    if 0 <= ticks + value <= MaxTicks then Ok(ticks + value) else Err(ArgumentOutOfRange("value"))
  }

  /** Ticks in one interval of each resolution that `Parse` adds as a whole
      count (`AddDays` to `AddMilliseconds` and `AddTicks`). */
  function TicksPer(resolution: IdTypes.TimestampResolution): (t: nat)
    ensures t >= 1
  {
    match resolution
    case Day => 864000000000
    case Hour => 36000000000
    case Minute => 600000000
    case Second => 10000000
    case Millisecond => 10000
    case _ => 1
  }

  /** The creation time `Parse` derives from the decoded timestamp: the epoch
      plus `intervals` units of the resolution. Microseconds (and `None`) are
      multiplied by ten in unchecked `long` arithmetic before `AddTicks`.
      Whole counts of days to milliseconds are exact below the range limit, so
      their range check is the one of `AddTicks`. */
  function CreationTicks(intervals: int, resolution: IdTypes.TimestampResolution): (r: Result<int>)
    ensures r.Ok? ==> 0 <= r.value <= MaxTicks
    ensures r.Err? ==> r.error == ArgumentOutOfRange("value")
    ensures (resolution.Microsecond? || resolution.None?) && IsLong(intervals * 10) ==>
      r == AddTicks(ConcurrentStopwatch.EpochTicks, intervals * 10)
    ensures !(resolution.Microsecond? || resolution.None?) ==>
      r == AddTicks(ConcurrentStopwatch.EpochTicks, intervals * TicksPer(resolution))
  {
    var offset :=
      if resolution.Microsecond? || resolution.None? then Wrap64(intervals * 10)
      else intervals * TicksPer(resolution);
    AddTicks(ConcurrentStopwatch.EpochTicks, offset)
  }

  /** A tick count with its last decimal digit since the epoch dropped. */
  function TruncatedToMicrosecond(ticks: int): int
  {
    ticks - (ticks - ConcurrentStopwatch.EpochTicks) % 10
  }

  /** The creation time at microsecond resolution of the microseconds since
      the epoch at `creationTicks`: that instant, truncated to the microsecond. */
  lemma CreationOfMicroseconds(creationTicks: int)
    requires ConcurrentStopwatch.EpochTicks <= creationTicks <= MaxTicks
    ensures 0 <= ConcurrentStopwatch.MicrosecondsSince(creationTicks)
    ensures CreationTicks(ConcurrentStopwatch.MicrosecondsSince(creationTicks), IdTypes.Microsecond)
         == Ok(TruncatedToMicrosecond(creationTicks))
  {
    ConcurrentStopwatch.MicrosecondsSinceTruncates(creationTicks, MaxTicks);
    var offset := ConcurrentStopwatch.MicrosecondsSince(creationTicks) * 10;
    assert Wrap64(offset) == offset;
  }

  /** A `Substring` result as the value of a string property. */
  function Field(r: Result<string>): Result<Option<string>>
  {
    if r.Ok? then Ok(Some(r.value)) else Err(r.error)
  }

  /** An instance of `Base36IdGenerator`; every instance field is `readonly`. */
  class Generator {
    const numTimestampCharacters: nat
    const numServerCharacters: nat
    const numRandomCharacters: nat
    const reservedValue: string
    const delimiter: string
    const delimiterPositions: seq<int>
    const timestampResolution: IdTypes.TimestampResolution
    const maxRandom: nat
    const hostHash: string

    /** What the constructor establishes: widths validated, `_maxRandom` is
        36^numRandomCharacters, the offsets sorted largest first, and the host
        hash is base-36 text of at most eight characters. */
    predicate Valid()
    {
      numTimestampCharacters <= MaxWidth && numServerCharacters <= MaxWidth
      && numRandomCharacters <= MaxWidth && maxRandom == Pow(36, numRandomCharacters)
      && Descending(delimiterPositions) && |hostHash| <= 8 && AllIn(hostHash, Alphabet)
    }

    /** The field assignments of the instance constructor (a null offset
        array is the empty sequence). */
    constructor (numTimestampCharacters: nat, numServerCharacters: nat, numRandomCharacters: nat,
                 reservedValue: string, delimiter: string, delimiterPositions: seq<int>,
                 resolution: IdTypes.TimestampResolution, hostHash: string)
      requires numTimestampCharacters <= MaxWidth && numServerCharacters <= MaxWidth
      requires numRandomCharacters <= MaxWidth
      requires |hostHash| <= 8 && AllIn(hostHash, Alphabet)
      ensures this.numTimestampCharacters == numTimestampCharacters
      ensures this.numServerCharacters == numServerCharacters
      ensures this.numRandomCharacters == numRandomCharacters
      ensures this.reservedValue == reservedValue && this.delimiter == delimiter
      ensures this.delimiterPositions == SortDescending(delimiterPositions)
      ensures this.timestampResolution == resolution && this.hostHash == hostHash
      ensures Valid()
    {
      this.numTimestampCharacters := numTimestampCharacters;
      this.numServerCharacters := numServerCharacters;
      this.numRandomCharacters := numRandomCharacters;
      this.reservedValue := reservedValue;
      this.delimiter := delimiter;
      this.timestampResolution := resolution;
      this.delimiterPositions := SortDescending(delimiterPositions);
      this.maxRandom := Pow(36, numRandomCharacters);
      this.hostHash := hostHash;
    }

    /** `GetRandomBase36DigitsSafe()`, with `randomLong` the `long` read from
        the random bytes. */
    function RandomComponent(randomLong: int): (r: string)
      requires Valid()
      ensures |r| == numRandomCharacters
      ensures DecodeValue(r) == RandomValue(randomLong, numRandomCharacters)
    {
      var number := Abs(Rem(randomLong, maxRandom));
      var encoded := Base36Of(number);
      FitValue(number, numRandomCharacters);
      if |encoded| == numRandomCharacters then encoded
      else if |encoded| > numRandomCharacters then encoded[..numRandomCharacters]
      else PadLeft(encoded, numRandomCharacters, '0')
    }

    /** The timestamp field of `NewId`: `FromLong(microseconds)`, cut or
        padded to the width. */
    function TimestampField(microseconds: int): (r: string)
      requires Valid()
      ensures |r| == numTimestampCharacters
      ensures 0 <= microseconds < Pow(36, numTimestampCharacters) ==> DecodeValue(r) == microseconds
      ensures AllIn(r, Alphabet)
    {
      FitValue(Abs(microseconds), numTimestampCharacters);
      FitAllIn(Base36Of(Abs(microseconds)), numTimestampCharacters);
      Fit(Base36Of(Abs(microseconds)), numTimestampCharacters)
    }

    /** The reserved value as `NewId` appends it: nothing when it is blank. */
    function Reserved(): string
    {
      if IsBlank(reservedValue) then "" else reservedValue
    }

    /** The identifier `NewId` builds before any delimiter goes in. */
    function Undelimited(microseconds: int, randomLong: int): (u: string)
      requires Valid() && numServerCharacters <= |hostHash|
      ensures |u| == numTimestampCharacters + numServerCharacters + |Reserved()| + numRandomCharacters
    {
      TimestampField(microseconds) + hostHash[..numServerCharacters] + Reserved() + RandomComponent(randomLong)
    }

    /** Identifiers built at increasing microsecond counts sort in increasing
        ordinal order, with or without case folding, whatever the random
        values: the timestamp field leads and the host hash and reserved value
        are the same in both. This holds while the count stays below 36^T for
        T timestamp characters. */
    lemma IdsAscend(earlier: int, later: int, randomEarlier: int, randomLater: int)
      requires Valid() && numServerCharacters <= |hostHash|
      requires 0 <= earlier < later < Pow(36, numTimestampCharacters)
      ensures OrdinalBelow(Undelimited(earlier, randomEarlier), Undelimited(later, randomLater))
      ensures OrdinalBelow(Upper(Undelimited(earlier, randomEarlier)), Upper(Undelimited(later, randomLater)))
    {
      UndelimitedSplit(earlier, randomEarlier);
      UndelimitedSplit(later, randomLater);
      LeadingTextDecides(TimestampField(earlier), TimestampField(later), Trailer(randomEarlier), Trailer(randomLater));
    }

    /** At 36^T microseconds the timestamp field overflows: `FromLong` gives
        T + 1 characters, the first T of which spell 36^(T-1), so the
        identifier sorts below one built a microsecond earlier. */
    lemma IdsWrapAtCapacity(randomEarlier: int, randomLater: int)
      requires Valid() && numServerCharacters <= |hostHash| && numTimestampCharacters >= 1
      ensures OrdinalBelow(Undelimited(Pow(36, numTimestampCharacters), randomLater),
                           Undelimited(Pow(36, numTimestampCharacters) - 1, randomEarlier))
      ensures OrdinalBelow(Upper(Undelimited(Pow(36, numTimestampCharacters), randomLater)),
                           Upper(Undelimited(Pow(36, numTimestampCharacters) - 1, randomEarlier)))
    {
      var capacity := Pow(36, numTimestampCharacters);
      TimestampAtCapacity();
      UndelimitedSplit(capacity, randomLater);
      UndelimitedSplit(capacity - 1, randomEarlier);
      LeadingTextDecides(TimestampField(capacity), TimestampField(capacity - 1), Trailer(randomLater), Trailer(randomEarlier));
    }

    /** The timestamp field at 36^T microseconds reads as 36^(T-1), below the
        field a microsecond earlier. */
    lemma TimestampAtCapacity()
      requires Valid() && numTimestampCharacters >= 1
      ensures DecodeValue(TimestampField(Pow(36, numTimestampCharacters)))
            < DecodeValue(TimestampField(Pow(36, numTimestampCharacters) - 1))
    {
      var capacity := Pow(36, numTimestampCharacters);
      FitCapacity(numTimestampCharacters);
      assert TimestampField(capacity) == Fit(Base36Of(capacity), numTimestampCharacters);
      assert TimestampField(capacity - 1) == Fit(Base36Of(capacity - 1), numTimestampCharacters);
    }

    /** What follows the timestamp field in an undelimited identifier. */
    function Trailer(randomLong: int): string
      requires Valid() && numServerCharacters <= |hostHash|
    {
      hostHash[..numServerCharacters] + Reserved() + RandomComponent(randomLong)
    }

    /** An undelimited identifier is its timestamp field and then the rest. */
    lemma UndelimitedSplit(microseconds: int, randomLong: int)
      requires Valid() && numServerCharacters <= |hostHash|
      ensures Undelimited(microseconds, randomLong) == TimestampField(microseconds) + Trailer(randomLong)
    {
      var t, h, v, c := TimestampField(microseconds), hostHash[..numServerCharacters], Reserved(), RandomComponent(randomLong);
      ConcatAssoc(t, h, v);
      ConcatAssoc(t, h + v, c);
    }

    /** What `NewId(delimited, creationTimestamp)` returns or throws, for the
        microseconds it reads and the random `long` it draws. A host hash
        shorter than the server field makes `Substring` throw, and the hash
        never has more than eight characters. */
    function NewIdResult(microseconds: int, randomLong: int, delimited: bool): (r: Result<string>)
      requires Valid()
      ensures r == Err(ArgumentOutOfRange("length")) <==> numServerCharacters > |hostHash|
      ensures numServerCharacters > 8 ==> r.Err?
      ensures r.Ok? ==>
        |r.value| == numTimestampCharacters + numServerCharacters + |Reserved()| + numRandomCharacters
                     + if delimited && !IsBlank(delimiter) then |delimiterPositions| * |delimiter| else 0
      ensures r.Ok? && delimited && !IsBlank(delimiter) && |delimiterPositions| > 0 ==> Contains(r.value, delimiter)
    {
      if numServerCharacters > |hostHash| then Err(ArgumentOutOfRange("length"))
      else
        var u := Undelimited(microseconds, randomLong);
        if !delimited || IsBlank(delimiter) then Ok(u)
        else
          InsertAllContains(u, delimiterPositions, delimiter);
          InsertAll(u, delimiterPositions, delimiter)
    }

    /** `NewId(delimited, creationTimestamp)`, building the identifier in the
        shared builder `sb`. Without a creation time the microseconds come
        from `clock`, sampled at the `elapsed` readings; with one (as UTC
        ticks) they are computed from it and the clock is left alone. */
    method NewId(sb: Text.StringBuilder, clock: ConcurrentStopwatch.Stopwatch, delimited: bool,
                 creationTicks: Option<int>, elapsed: seq<int>, randomLong: int) returns (r: Result<string>)
      requires Valid()
      requires creationTicks.Some? ==> 0 <= creationTicks.value <= MaxTicks
      requires creationTicks.None? ==>
        clock.Valid()
        && (exists k :: 0 <= k < |elapsed| && clock.Reading(elapsed[k]) > clock.lastMicroseconds)
        && (forall k :: 0 <= k < |elapsed| ==> IsLong(clock.Reading(elapsed[k])))
      modifies sb, clock
      ensures creationTicks.None? ==>
        clock.Valid() && clock.lastMicroseconds > old(clock.lastMicroseconds)
        && r == NewIdResult(clock.lastMicroseconds, randomLong, delimited)
      ensures creationTicks.Some? ==>
        clock.lastMicroseconds == old(clock.lastMicroseconds)
        && r == NewIdResult(ConcurrentStopwatch.MicrosecondsSince(creationTicks.value), randomLong, delimited)
      ensures r.Ok? ==> sb.content == r.value
    {
      sb.Clear();
      var microseconds: int;
      if creationTicks.None? {
        microseconds := clock.GetMicroseconds(elapsed);
      } else {
        microseconds := ConcurrentStopwatch.MicrosecondsSince(creationTicks.value);
        assert -MaxTicks <= microseconds * 10 <= MaxTicks;
      }
      var complete := AppendFields(sb, microseconds, randomLong);
      if !complete {
        return Err(ArgumentOutOfRange("length"));
      }
      assert sb.content == Undelimited(microseconds, randomLong);
      if !delimited || IsBlank(delimiter) {
        return Ok(sb.content);
      }
      var ok := InsertEach(sb, delimiterPositions, delimiter);
      if !ok {
        return Err(ArgumentOutOfRange("index"));
      }
      return Ok(sb.content);
    }

    /** The appends of `NewId`: timestamp, host hash, reserved value and
        random digits; `complete` is false where `Substring` throws because
        the host hash is shorter than the server field. */
    method AppendFields(sb: Text.StringBuilder, microseconds: int, randomLong: int) returns (complete: bool)
      requires Valid() && IsLong(microseconds) && microseconds != MinLong
      modifies sb
      ensures complete <==> numServerCharacters <= |hostHash|
      ensures complete ==> sb.content == old(sb.content) + Undelimited(microseconds, randomLong)
    {
      ghost var start := sb.content;
      var base36 := Base36Converter.FromLong(microseconds);
      var base36Microseconds := base36.value;
      if |base36Microseconds| > numTimestampCharacters {
        base36Microseconds := base36Microseconds[..numTimestampCharacters];
      }
      ghost var fields := TimestampField(microseconds);
      assert PadLeft(base36Microseconds, numTimestampCharacters, '0') == fields by {
        CutThenPad(base36.value, numTimestampCharacters);
      }
      sb.Append(PadLeft(base36Microseconds, numTimestampCharacters, '0'));
      var host := "";
      if numServerCharacters > 0 {
        if numServerCharacters > |hostHash| {
          return false;
        }
        host := hostHash[..numServerCharacters];
        sb.Append(host);
      }
      assert sb.content == start + fields + host;
      ConcatAssoc(start, fields, host);
      fields := fields + host;
      var reserved := "";
      if !IsBlank(reservedValue) {
        reserved := reservedValue;
        sb.Append(reserved);
      }
      assert sb.content == start + fields + reserved;
      ConcatAssoc(start, fields, reserved);
      fields := fields + reserved;
      var random := RandomComponent(randomLong);
      sb.Append(random);
      ConcatAssoc(start, fields, random);
      fields := fields + random;
      assert fields == Undelimited(microseconds, randomLong);
      return true;
    }

    /** What `Format(id)` returns or throws for a non-null `id`: blank text and
        text that already holds the delimiter come back as they are. */
    function FormatResult(id: string): (r: Result<string>)
      requires Valid()
    {
      if IsBlank(id) || Contains(id, delimiter) then Ok(id)
      else InsertAll(id, delimiterPositions, delimiter)
    }

    /** `Format(id)` on a non-null `id`, inserting into a fresh builder. */
    method Format(id: string) returns (r: Result<string>)
      requires Valid()
      ensures r == FormatResult(id)
    {
      if IsBlank(id) || Contains(id, delimiter) {
        return Ok(id);
      }
      var sb := new Text.StringBuilder(id);
      var ok := InsertEach(sb, delimiterPositions, delimiter);
      if !ok {
        return Err(ArgumentOutOfRange("index"));
      }
      return Ok(sb.content);
    }

    /** Formatting a formatted identifier changes nothing: it either came
        back unchanged or now holds the delimiter. */
    lemma FormatIdempotent(id: string)
      requires Valid() && FormatResult(id).Ok?
      ensures FormatResult(FormatResult(id).value) == FormatResult(id)
    {
      if !(IsBlank(id) || Contains(id, delimiter)) && |delimiterPositions| > 0 {
        InsertAllContains(id, delimiterPositions, delimiter);
      }
    }

    /** With every offset inside the identifier, `Format` succeeds: the
        delimiter stands in front of each offset of the undelimited text, and
        the length grows by one delimiter per offset. */
    lemma FormatDelimits(id: string)
      requires Valid() && Within(delimiterPositions, |id|)
      requires !IsBlank(id) && !Contains(id, delimiter)
      ensures FormatResult(id) == Ok(Delimited(id, delimiterPositions, delimiter))
      ensures |FormatResult(id).value| == |id| + |delimiterPositions| * |delimiter|
    {
      InsertAllDescending(id, delimiterPositions, delimiter);
    }

    /** Formatting an undelimited identifier gives the delimited one that
        `NewId(true)` would have made at the same instant with the same random
        draw. */
    lemma FormatOfNewId(microseconds: int, randomLong: int)
      requires Valid() && numServerCharacters <= |hostHash| && !IsBlank(delimiter)
      requires !IsBlank(Undelimited(microseconds, randomLong))
      requires !Contains(Undelimited(microseconds, randomLong), delimiter)
      ensures NewIdResult(microseconds, randomLong, false).Ok?
      ensures FormatResult(NewIdResult(microseconds, randomLong, false).value)
           == NewIdResult(microseconds, randomLong, true)
    {
    }

    /** A field `Parse` cuts with `Substring`: `width` characters from
        `start`, and no field at all when the width is zero. */
    function Slice(s: string, start: int, width: nat): (r: Result<Option<string>>)
      ensures width == 0 ==> r == Ok(None)
      ensures width > 0 ==> (r.Ok? <==> 0 <= start && start + width <= |s|)
      ensures width > 0 && r.Ok? ==> r.value == Some(s[start..start + width])
    {
      if width > 0 then Field(Substring(s, start, width)) else Ok(None)
    }

    /** The hash field `Parse` cuts: from `index - 1`, where `index` is the
        end of the timestamp field. */
    function HashSlice(s: string): Result<Option<string>>
    {
      Slice(s, numTimestampCharacters - 1, numServerCharacters)
    }

    /** The random field `Parse` cuts: from `index - 1`, where `index` is the
        end of the hash field. */
    function RandomSlice(s: string): Result<Option<string>>
    {
      Slice(s, numTimestampCharacters + numServerCharacters - 1, numRandomCharacters)
    }

    /** The body of `Parse`, with the hash field cut from `hashStart` and the
        random field from `randomStart`. A null `id` throws, the empty one
        gives the default information, the fields are cut in order (the
        first `Substring` out of range throws), a missing timestamp makes
        `Decode` throw, and the creation time counts the decoded timestamp in
        units of the resolution from the epoch. */
    function ParseAt(id: Option<string>, hashStart: int, randomStart: int): (r: Result<IdTypes.IdInformation>)
      requires Valid()
      ensures id.None? ==> r == Err(Argument(Some("id")))
      ensures id == Some("") ==> r == Ok(IdTypes.Default)
      ensures id.Some? && id.value != "" && numTimestampCharacters == 0 ==>
        r == Err(if numServerCharacters > 0 && hashStart < 0 then ArgumentOutOfRange("startIndex")
                 else if numServerCharacters > 0 && Slice(id.value, hashStart, numServerCharacters).Err?
                 then Slice(id.value, hashStart, numServerCharacters).error
                 else if numRandomCharacters > 0 && Slice(id.value, randomStart, numRandomCharacters).Err?
                 then Slice(id.value, randomStart, numRandomCharacters).error
                 else NullReference)
      ensures r.Ok? && id != Some("") ==>
        && numTimestampCharacters > 0 && |id.value| >= numTimestampCharacters
        && r.value.base == 36
        && r.value.timestampComponent == Some(id.value[..numTimestampCharacters])
        && Slice(id.value, hashStart, numServerCharacters).Ok?
        && r.value.hashComponent == Slice(id.value, hashStart, numServerCharacters).value
        && Slice(id.value, randomStart, numRandomCharacters).Ok?
        && r.value.randomComponent == Slice(id.value, randomStart, numRandomCharacters).value
        && r.value.creationTimestampUtc.Some?
        && 0 <= r.value.creationTimestampUtc.value <= MaxTicks
      ensures id.Some? && numTimestampCharacters > 0 && |id.value| >= numTimestampCharacters
              && Slice(id.value, hashStart, numServerCharacters).Ok?
              && Slice(id.value, randomStart, numRandomCharacters).Ok? ==>
        var c := CreationTicks(DecodeValue(id.value[..numTimestampCharacters]), timestampResolution);
        (r.Ok? <==> c.Ok?) && (r.Ok? ==> r.value.creationTimestampUtc == Some(c.value))
    {
      if id.None? then Err(Argument(Some("id")))
      else if id.value == "" then Ok(IdTypes.Default)
      else
        var s := id.value;
        var timestamp := if numTimestampCharacters > 0 then Field(Substring(s, 0, numTimestampCharacters)) else Ok(None);
        var hash := Slice(s, hashStart, numServerCharacters);
        var random := Slice(s, randomStart, numRandomCharacters);
        if timestamp.Err? then Err(timestamp.error)
        else if hash.Err? then Err(hash.error)
        else if random.Err? then Err(random.error)
        else if timestamp.value.None? then Err(NullReference)
        else
          var created := CreationTicks(DecodeValue(timestamp.value.value), timestampResolution);
          if created.Err? then Err(created.error)
          else Ok(IdTypes.IdInformation(36, timestamp.value, hash.value, random.value, Some(created.value)))
    }

    /** `Parse(id)`, with `None` for a null `id`. The hash and random fields
        are both cut from `index - 1`, one character early; without a
        timestamp field the hash start is -1, and otherwise the missing
        timestamp makes `Decode` throw. */
    function Parse(id: Option<string>): (r: Result<IdTypes.IdInformation>)
      requires Valid()
      ensures id.None? ==> r == Err(Argument(Some("id")))
      ensures id == Some("") ==> r == Ok(IdTypes.Default)
      ensures id.Some? && id.value != "" && numTimestampCharacters == 0 ==>
        r == Err(if numServerCharacters > 0 || numRandomCharacters > 0 then ArgumentOutOfRange("startIndex")
                 else NullReference)
      ensures r.Ok? && id != Some("") ==>
        && numTimestampCharacters > 0 && |id.value| >= numTimestampCharacters
        && r.value.base == 36
        && r.value.timestampComponent == Some(id.value[..numTimestampCharacters])
        && HashSlice(id.value).Ok? && r.value.hashComponent == HashSlice(id.value).value
        && RandomSlice(id.value).Ok? && r.value.randomComponent == RandomSlice(id.value).value
        && r.value.creationTimestampUtc.Some?
        && 0 <= r.value.creationTimestampUtc.value <= MaxTicks
    {
      ParseAt(id, numTimestampCharacters - 1, numTimestampCharacters + numServerCharacters - 1)
    }

    /** `Parse` with the fields cut where `NewId` puts them: the hash right
        after the timestamp, the random digits after the hash and the reserved
        value. */
    function ParseCorrected(id: Option<string>): (r: Result<IdTypes.IdInformation>)
      requires Valid()
      ensures id.None? ==> r == Err(Argument(Some("id")))
      ensures id == Some("") ==> r == Ok(IdTypes.Default)
    {
      ParseAt(id, numTimestampCharacters, numTimestampCharacters + numServerCharacters + |Reserved()|)
    }

    /** The corrected `Parse` of an undelimited identifier `NewId` made gives
        back each of its fields: the timestamp field, the server's part of the
        host hash and the random digits. */
    lemma ParseCorrectedRecoversFields(microseconds: int, randomLong: int)
      requires Valid() && numServerCharacters <= |hostHash| && numTimestampCharacters > 0
      ensures var r := ParseCorrected(Some(Undelimited(microseconds, randomLong)));
        r.Ok? ==>
        && r.value.timestampComponent == Some(TimestampField(microseconds))
        && r.value.hashComponent == (if numServerCharacters > 0 then Some(hostHash[..numServerCharacters]) else None)
        && r.value.randomComponent == (if numRandomCharacters > 0 then Some(RandomComponent(randomLong)) else None)
      ensures ParseCorrected(Some(Undelimited(microseconds, randomLong))).Ok?
          <==> CreationTicks(DecodeValue(TimestampField(microseconds)), timestampResolution).Ok?
    {
      ParseCorrectedLayout(TimestampField(microseconds), hostHash[..numServerCharacters],
                           RandomComponent(randomLong));
    }

    /** The corrected `Parse` of fields of the configured widths, laid out as
        `NewId` lays them out, gives back each field. */
    lemma ParseCorrectedLayout(a: string, b: string, d: string)
      requires Valid() && numTimestampCharacters > 0
      requires |a| == numTimestampCharacters && |b| == numServerCharacters && |d| == numRandomCharacters
      ensures var r := ParseCorrected(Some(a + b + Reserved() + d));
        r.Ok? ==>
        && r.value.timestampComponent == Some(a)
        && r.value.hashComponent == (if numServerCharacters > 0 then Some(b) else None)
        && r.value.randomComponent == (if numRandomCharacters > 0 then Some(d) else None)
      ensures ParseCorrected(Some(a + b + Reserved() + d)).Ok?
          <==> CreationTicks(DecodeValue(a), timestampResolution).Ok?
    {
      var u := a + b + Reserved() + d;
      FieldsInOrder(u, a, b, Reserved(), d);
      ParseCorrectedFields(u);
    }

    /** The corrected `Parse` of text long enough for every field cuts each
        field where `NewId` puts it. */
    lemma ParseCorrectedFields(s: string)
      requires Valid() && numTimestampCharacters > 0
      requires |s| == numTimestampCharacters + numServerCharacters + |Reserved()| + numRandomCharacters
      ensures var r := ParseCorrected(Some(s));
        var T, S := numTimestampCharacters, numServerCharacters;
        r.Ok? ==>
        && r.value.timestampComponent == Some(s[..T])
        && r.value.hashComponent == (if S > 0 then Some(s[T..T + S]) else None)
        && r.value.randomComponent == (if numRandomCharacters > 0
                                       then Some(s[T + S + |Reserved()|..|s|]) else None)
      ensures ParseCorrected(Some(s)).Ok?
          <==> CreationTicks(DecodeValue(s[..numTimestampCharacters]), timestampResolution).Ok?
    {
      ParseAtFields(s, numTimestampCharacters, numTimestampCharacters + numServerCharacters + |Reserved()|);
    }

    /** `ParseAt` on text that holds every field where it is cut. */
    lemma ParseAtFields(s: string, hashStart: int, randomStart: int)
      requires Valid() && numTimestampCharacters > 0 && |s| >= numTimestampCharacters
      requires 0 <= hashStart && hashStart + numServerCharacters <= |s|
      requires 0 <= randomStart && randomStart + numRandomCharacters <= |s|
      ensures var r := ParseAt(Some(s), hashStart, randomStart);
        r.Ok? ==>
        && r.value.timestampComponent == Some(s[..numTimestampCharacters])
        && r.value.hashComponent == (if numServerCharacters > 0
                                     then Some(s[hashStart..hashStart + numServerCharacters]) else None)
        && r.value.randomComponent == (if numRandomCharacters > 0
                                       then Some(s[randomStart..randomStart + numRandomCharacters]) else None)
      ensures ParseAt(Some(s), hashStart, randomStart).Ok?
          <==> CreationTicks(DecodeValue(s[..numTimestampCharacters]), timestampResolution).Ok?
    {
    }

    /** `Parse` of an undelimited identifier `NewId` made from a count that
        fits the timestamp field reads that count back as the number of
        intervals since the epoch, whatever the resolution. */
    lemma ParseReadsTimestamp(microseconds: int, randomLong: int)
      requires Valid() && numServerCharacters <= |hostHash| && numTimestampCharacters > 0
      requires 0 <= microseconds < Pow(36, numTimestampCharacters)
      ensures NewIdResult(microseconds, randomLong, false) == Ok(Undelimited(microseconds, randomLong))
      ensures Parse(Some(Undelimited(microseconds, randomLong))).Ok?
          <==> CreationTicks(microseconds, timestampResolution).Ok?
      ensures Parse(Some(Undelimited(microseconds, randomLong))).Ok? ==>
        Parse(Some(Undelimited(microseconds, randomLong))).value.creationTimestampUtc
        == Some(CreationTicks(microseconds, timestampResolution).value)
    {
      var id := Undelimited(microseconds, randomLong);
      assert id[..numTimestampCharacters] == TimestampField(microseconds);
      ParseWellFormed(id);
    }

    /** `NewId` at a creation time, then `Parse` at microsecond resolution,
        gives back that creation time truncated to the microsecond, as long as
        the microseconds fit the timestamp field. */
    lemma ParseRecoversCreationTime(creationTicks: int, randomLong: int)
      requires Valid() && numServerCharacters <= |hostHash| && timestampResolution.Microsecond?
      requires numTimestampCharacters > 0
      requires ConcurrentStopwatch.EpochTicks <= creationTicks <= MaxTicks
      requires ConcurrentStopwatch.MicrosecondsSince(creationTicks) < Pow(36, numTimestampCharacters)
      ensures NewIdResult(ConcurrentStopwatch.MicrosecondsSince(creationTicks), randomLong, false).Ok?
      ensures Parse(Some(Undelimited(ConcurrentStopwatch.MicrosecondsSince(creationTicks), randomLong))).Ok?
      ensures Parse(Some(Undelimited(ConcurrentStopwatch.MicrosecondsSince(creationTicks), randomLong))).value.creationTimestampUtc
           == Some(TruncatedToMicrosecond(creationTicks))
    {
      CreationOfMicroseconds(creationTicks);
      ParseReadsTimestamp(ConcurrentStopwatch.MicrosecondsSince(creationTicks), randomLong);
    }

    /** On text long enough for every field, `Parse` fails only where the
        creation time leaves the range of `DateTime`. */
    lemma ParseWellFormed(s: string)
      requires Valid() && numTimestampCharacters > 0
      requires |s| >= numTimestampCharacters + numServerCharacters + numRandomCharacters
      ensures
        var c := CreationTicks(DecodeValue(s[..numTimestampCharacters]), timestampResolution);
        Parse(Some(s)).Ok? <==> c.Ok?
      ensures Parse(Some(s)).Ok? ==>
        Parse(Some(s)).value.creationTimestampUtc
        == Some(CreationTicks(DecodeValue(s[..numTimestampCharacters]), timestampResolution).value)
    {
    }

    /** The hash and random fields `Parse` cuts from an identifier `NewId`
        made: the hash field starts with the last timestamp character and drops
        the last hash character, which starts the random field. */
    lemma ParseShiftsFields(microseconds: int, randomLong: int)
      requires Valid() && numServerCharacters <= |hostHash|
      requires numTimestampCharacters > 0 && numServerCharacters > 0 && numRandomCharacters > 0
      ensures HashSlice(Undelimited(microseconds, randomLong))
           == Ok(Some([TimestampField(microseconds)[numTimestampCharacters - 1]]
                      + hostHash[..numServerCharacters - 1]))
      ensures RandomSlice(Undelimited(microseconds, randomLong))
           == Ok(Some([hostHash[numServerCharacters - 1]]
                      + (Reserved() + RandomComponent(randomLong))[..numRandomCharacters - 1]))
    {
      var b := hostHash[..numServerCharacters];
      ConcatAssoc(TimestampField(microseconds) + b, Reserved(), RandomComponent(randomLong));
      ShiftedLayout(TimestampField(microseconds), b, Reserved() + RandomComponent(randomLong));
      assert b[..numServerCharacters - 1] == hostHash[..numServerCharacters - 1];
    }

    /** The fields `Parse` cuts from a timestamp field `a`, a hash field `b`
        and the text `c` after them. */
    lemma ShiftedLayout(a: string, b: string, c: string)
      requires Valid() && |a| == numTimestampCharacters > 0 && |b| == numServerCharacters > 0
      requires 1 <= numRandomCharacters <= |c| + 1
      ensures HashSlice(a + b + c) == Ok(Some([a[|a| - 1]] + b[..|b| - 1]))
      ensures RandomSlice(a + b + c) == Ok(Some([b[|b| - 1]] + c[..numRandomCharacters - 1]))
    {
      FieldsOfLayout(a, b, c, numRandomCharacters);
    }
  }

  /** The instance constructor: the widths are validated first; then the
      fields are set (a null offset array counts as empty, the offsets are
      sorted largest first, `_maxRandom` is 36^numRandomCharacters), the host
      hash is computed or taken from the cache, and the clock is read once.
      `digest` is the SHA-1 digest of the host name and `elapsed` the
      stopwatch readings the first clock read sees. */
  method NewGenerator(numTimestampCharacters: int, numServerCharacters: int, numRandomCharacters: int,
                      reservedValue: string, delimiter: string, delimiterPositions: seq<int>,
                      resolution: IdTypes.TimestampResolution, cache: HostHashCache, digest: seq<int>,
                      clock: ConcurrentStopwatch.Stopwatch, elapsed: seq<int>) returns (r: Result<Generator>)
    requires cache.Valid() && |digest| == 20 && IsDigits(digest, 256)
    requires clock.Valid()
    requires exists k :: 0 <= k < |elapsed| && clock.Reading(elapsed[k]) > clock.lastMicroseconds
    requires forall k :: 0 <= k < |elapsed| ==> IsLong(clock.Reading(elapsed[k]))
    modifies cache, clock
    ensures r.Err? <==> ValidateConstructorArguments(numTimestampCharacters, numServerCharacters,
                                                     numRandomCharacters).Some?
    ensures r.Err? ==>
      r.error == ValidateConstructorArguments(numTimestampCharacters, numServerCharacters, numRandomCharacters).value
      && unchanged(cache) && unchanged(clock)
    ensures r.Ok? ==>
      fresh(r.value) && r.value.Valid()
      && r.value.numTimestampCharacters == numTimestampCharacters
      && r.value.numServerCharacters == numServerCharacters
      && r.value.numRandomCharacters == numRandomCharacters
      && r.value.reservedValue == reservedValue && r.value.delimiter == delimiter
      && r.value.delimiterPositions == SortDescending(delimiterPositions)
      && r.value.timestampResolution == resolution
      && r.value.maxRandom == Pow(36, numRandomCharacters)
      && cache.Valid() && cache.hostHashBase36 == Some(r.value.hostHash)
      && clock.Valid() && clock.lastMicroseconds > old(clock.lastMicroseconds)
    ensures r.Ok? && old(cache.hostHashBase36).Some?
            && |old(cache.hostHashBase36).value| == numServerCharacters ==>
      r.value.hostHash == old(cache.hostHashBase36).value
    ensures r.Ok? && !(old(cache.hostHashBase36).Some?
                       && |old(cache.hostHashBase36).value| == numServerCharacters) ==>
      ValueOf(digest[..5], 256) >= 0 && r.value.hostHash == Base36Of(ValueOf(digest[..5], 256))
  {
    var thrown := ValidateConstructorArguments(numTimestampCharacters, numServerCharacters, numRandomCharacters);
    if thrown.Some? {
      return Err(thrown.value);
    }
    var hostHash := ComputeHostHash(cache, numServerCharacters, digest);
    var g := new Generator(numTimestampCharacters, numServerCharacters, numRandomCharacters,
                           reservedValue, delimiter, delimiterPositions, resolution, hostHash);
    var _ := clock.GetMicroseconds(elapsed);
    return Ok(g);
  }

  /** The parameterless constructor: 11 timestamp, 4 hash and 5 random
      characters, no reserved value, the delimiter "-" and no offsets. */
  method NewDefaultGenerator(cache: HostHashCache, digest: seq<int>, clock: ConcurrentStopwatch.Stopwatch,
                             elapsed: seq<int>) returns (g: Generator)
    requires cache.Valid() && |digest| == 20 && IsDigits(digest, 256)
    requires clock.Valid()
    requires exists k :: 0 <= k < |elapsed| && clock.Reading(elapsed[k]) > clock.lastMicroseconds
    requires forall k :: 0 <= k < |elapsed| ==> IsLong(clock.Reading(elapsed[k]))
    modifies cache, clock
    ensures fresh(g) && IsDefault(g)
    ensures cache.hostHashBase36 == Some(g.hostHash)
    ensures clock.Valid() && clock.lastMicroseconds > old(clock.lastMicroseconds)
  {
    var r := NewGenerator(11, 4, 5, "", "-", [], IdTypes.Microsecond, cache, digest, clock, elapsed);
    g := r.value;
  }

  /** The fields the parameterless constructor gives. */
  predicate IsDefault(g: Generator)
  {
    g.Valid() && g.numTimestampCharacters == 11 && g.numServerCharacters == 4
    && g.numRandomCharacters == 5 && g.reservedValue == "" && g.delimiter == "-"
    && g.delimiterPositions == [] && g.timestampResolution.Microsecond?
  }

  /** With the parameterless constructor's layout an identifier has 20
      characters, asking for a delimited one changes nothing since there are
      no offsets, and the timestamp field is the first 11 characters. */
  lemma DefaultIdentifiers(g: Generator, microseconds: int, randomLong: int)
    requires IsDefault(g) && |g.hostHash| >= 4
    ensures g.NewIdResult(microseconds, randomLong, false).Ok?
    ensures |g.NewIdResult(microseconds, randomLong, false).value| == 20
    ensures g.NewIdResult(microseconds, randomLong, true) == g.NewIdResult(microseconds, randomLong, false)
    ensures g.NewIdResult(microseconds, randomLong, false).value[..11] == g.TimestampField(microseconds)
  {
    var u := g.Undelimited(microseconds, randomLong);
    assert g.Reserved() == "" by {
      assert IsBlank("");
    }
    assert u[..11] == g.TimestampField(microseconds);
  }

  /** Each of `a`, `b` and `d` is where it stands in `u == a + b + c + d`. */
  lemma FieldsInOrder(u: string, a: string, b: string, c: string, d: string)
    requires u == a + b + c + d
    ensures |u| == |a| + |b| + |c| + |d|
    ensures u[..|a|] == a
    ensures u[|a|..|a| + |b|] == b
    ensures u[|a| + |b| + |c|..|u|] == d
  {
    ConcatAssoc(a, b, c + d);
    ConcatAssoc(a + b, c, d);
    assert u == a + (b + (c + d));
  }

  /** In `a + b + c`, the `|b|` characters from the last one of `a` on, and
      the `n` characters from the last one of `b` on. */
  lemma FieldsOfLayout(a: string, b: string, c: string, n: int)
    requires |a| > 0 && |b| > 0 && 1 <= n <= |c| + 1
    ensures (a + b + c)[|a| - 1..|a| - 1 + |b|] == [a[|a| - 1]] + b[..|b| - 1]
    ensures (a + b + c)[|a| + |b| - 1..|a| + |b| - 1 + n] == [b[|b| - 1]] + c[..n - 1]
  {
    ConcatAssoc(a, b, c);
    SliceAcross(a, b + c, |b|);
    assert (b + c)[..|b| - 1] == b[..|b| - 1];
    SliceAcross(a + b, c, n);
  }

  /** The `k` characters from the last one of `a` on, in `a + b`. */
  lemma SliceAcross(a: string, b: string, k: int)
    requires |a| > 0 && 1 <= k <= |b| + 1
    ensures (a + b)[|a| - 1..|a| - 1 + k] == [a[|a| - 1]] + b[..k - 1]
  {
    var s := (a + b)[|a| - 1..|a| - 1 + k];
    forall i | 0 <= i < k ensures s[i] == ([a[|a| - 1]] + b[..k - 1])[i] {
      if i > 0 {
        assert s[i] == b[i - 1];
      }
    }
  }
}
