/** `Base36IdGenerator` of the older library: 16-character identifiers laid
    out as 10 timestamp, 2 host-hash, 1 reserved and 3 random characters, each
    field forced to its width by assigning `StringBuilder.Length`, optionally
    split into four groups of four. The static fields of the class are the
    `Statics` object; the stopwatch readings (in microseconds), the random
    draws, the host name's hash code and its MD5 digest are inputs. */
module LegacyIdGenerator {
  import opened Wrappers
  import opened Clr
  import opened Numerals
  import opened Delimiting
  import Text
  import LegacyBaseConverter
  import LegacyBase36Converter
  import IdGenerator

  /** `_maxRandom`: random draws lie below it. */
  const MaxRandom: int := 46655

  /** The divisor of `checkReserved`, 36^10 - 1. */
  const ReservedDivisor: int := 3656158440062975

  /** The initial `_reserved`, the largest base-36 digit. */
  const InitialReserved: int := 35

  /** The lowest `_reserved` that `checkReserved` can set: 35 minus the whole
      periods in the largest `long`. */
  const ReservedFloor: int := InitialReserved - MaxLong / ReservedDivisor

  /** What the older `Encode` returns for a non-negative number: nothing for
      zero, otherwise its minimal base-36 text. */
  function EncodeText(n: nat): (r: string)
    ensures AllIn(r, Alphabet)
    ensures r == "" <==> n == 0
  {
    if n == 0 then "" else Base36Of(n)
  }

  /** The text reads back as the number, and the alphabet indices of its
      characters are the base-36 digits of the number (none for zero). */
  lemma EncodeTextDigits(n: nat)
    ensures DecodeValue(EncodeText(n)) == n
    ensures Indices(Upper(EncodeText(n)), Alphabet) == Digits(n, 36)
  {
    AlphabetShape();
    if n > 0 {
      DecodeBase36Of(n);
      UpperOfAlphabetText(Base36Of(n));
      SpellIndices(Numeral(n, 36), Alphabet);
    }
  }

  /** `ComputeHostHash().PadLeft(2, '0')` of the static constructor, for the
      hash code of the host name; `Math.Abs(int.MinValue)` throws. */
  function StaticHostHash(hashCode: int): (r: Result<string>)
    requires IsInt(hashCode)
    ensures r.Err? <==> hashCode == MinInt
    ensures r.Err? ==> r.error == Overflow
    ensures r.Ok? ==> 2 <= |r.value| <= 6 && AllIn(r.value, Alphabet)
    ensures r.Ok? ==> DecodeValue(r.value) == Abs(hashCode)
  {
    if hashCode == MinInt then Err(Overflow)
    else
      var h := PadLeft(EncodeText(Abs(hashCode)), 2, '0');
      HostHashTextFacts(Abs(hashCode));
      Ok(h)
  }

  /** The padded text of a magnitude below 2^31 has two to six characters,
      all in the alphabet, and reads back as the magnitude. */
  lemma HostHashTextFacts(n: nat)
    requires n <= MaxInt
    ensures var h := PadLeft(EncodeText(n), 2, '0');
      2 <= |h| <= 6 && AllIn(h, Alphabet) && DecodeValue(h) == n
  {
    var e := EncodeText(n);
    EncodeTextDigits(n);
    IdGenerator.PaddedValue(e, 2);
    PadLeftAllIn(e, 2);
    HostHashTextLength(n);
  }

  lemma HostHashTextLength(n: nat)
    requires n <= MaxInt
    ensures 2 <= |PadLeft(EncodeText(n), 2, '0')| <= 6
  {
    if n > 0 {
      assert Pow(36, 6) == 2176782336;
      Base36OfLength(n, 6);
    }
  }

  /** Padding alphabet text with '0' keeps it alphabet text. */
  lemma PadLeftAllIn(s: string, width: int)
    requires AllIn(s, Alphabet)
    ensures AllIn(PadLeft(s, width, '0'), Alphabet)
  {
    AlphabetShape();
    var p := PadLeft(s, width, '0');
    if |s| < width {
      assert p == p[..width - |s|] + s;
      assert forall i :: 0 <= i < width - |s| ==> p[i] == Alphabet[0];
    }
  }

  /** The random field: `FromHex(Encode(next)).PadLeft(3, '0')`. The base-36
      text of the draw is read as if it were hexadecimal (the older `Convert`
      accepts digits beyond the base) and written again in base 36. */
  function RandomField(next: nat): (r: string)
  {
    AlphabetShape();
    PadLeft(Rebased(Digits(next, 36), 16, 36, Alphabet), 3, '0')
  }

  /** Base-36 digits read in base 16: 3 * value <= 7 * (16^k - 1). */
  lemma {:induction false} HexReadingBound(ds: seq<int>)
    requires IsDigits(ds, 36)
    ensures 0 <= ValueOf(ds, 16) && 3 * ValueOf(ds, 16) <= 7 * Pow(16, |ds|) - 7
    decreases |ds|
  {
    if ds != [] {
      HexReadingBound(ds[..|ds| - 1]);
    }
  }

  /** A draw below 36^3 gives a random field of exactly three characters that
      reads back as the draw's base-36 digits taken as hexadecimal. */
  lemma RandomFieldFacts(next: nat)
    requires next < MaxRandom
    ensures |RandomField(next)| == 3 && AllIn(RandomField(next), Alphabet)
    ensures DecodeValue(RandomField(next)) == ValueOf(Digits(next, 36), 16)
  {
    AlphabetShape();
    var ds := Digits(next, 36);
    if next > 0 {
      assert Pow(36, 3) == 46656;
      NumeralLength(next, 36, 3);
    }
    HexReadingBound(ds);
    assert Pow(16, 3) == 4096;
    PowMonotone(16, |ds|, 3);
    var v := ValueOf(ds, 16);
    var t := Rebased(ds, 16, 36, Alphabet);
    assert t == Base36Of(v);
    Base36OfLength(v, 3);
    DecodeBase36Of(v);
    IdGenerator.PaddedValue(t, 3);
    assert AllIn(t, Alphabet);
    PadLeftAllIn(t, 3);
  }

  /** Two different draws give the same random field: 36 is "10" in base 36,
      read as hexadecimal that is 16, and 16 is "G". */
  lemma RandomFieldCollision()
    ensures RandomField(36) == RandomField(16) == "00G"
  {
    RandomFieldThirtySix();
    RandomFieldSixteen();
  }

  lemma RandomFieldThirtySix()
    ensures RandomField(36) == "00G"
  {
    DigitsStep(36, 36);
    DigitsStep(1, 36);
    assert Digits(36, 36) == [1, 0];
    assert ValueOf([1, 0], 16) == 16;
    RebasedSixteen([1, 0]);
  }

  lemma RandomFieldSixteen()
    ensures RandomField(16) == "00G"
  {
    DigitsStep(16, 36);
    assert Digits(16, 36) == [16];
    assert ValueOf([16], 16) == 16;
    RebasedSixteen([16]);
  }

  /** Digits worth sixteen in base 16 give the random field "00G". */
  lemma RebasedSixteen(ds: seq<int>)
    requires NonNeg(ds) && ValueOf(ds, 16) == 16
    ensures PadLeft(Rebased(ds, 16, 36, Alphabet), 3, '0') == "00G"
  {
    AlphabetShape();
    assert Numeral(16, 36) == [16];
    assert Rebased(ds, 16, 36, Alphabet) == "G";
  }

  /** The sum of the bytes, accumulated from the first. */
  function Sum(bs: seq<int>): int
  {
    if bs == [] then 0 else Sum(bs[..|bs| - 1]) + bs[|bs| - 1]
  }

  /** A sum of bytes lies between 0 and 255 per byte. */
  lemma {:induction false} SumBounds(bs: seq<int>)
    requires IsDigits(bs, 256)
    ensures 0 <= Sum(bs) <= 255 * |bs|
    decreases |bs|
  {
    if bs != [] {
      SumBounds(bs[..|bs| - 1]);
    }
  }

  /** Summing from the front gives the same. */
  lemma {:induction false} SumCons(b: int, bs: seq<int>)
    ensures Sum([b] + bs) == b + Sum(bs)
    decreases |bs|
  {
    if bs != [] {
      var init := bs[..|bs| - 1];
      assert ([b] + bs)[..|bs|] == [b] + init;
      SumCons(b, init);
    }
  }

  /** `BitConverter.GetBytes` of a non-negative `long`: its `k` bytes, least
      significant first. */
  function LittleEndian(t: nat, k: nat): (bs: seq<int>)
    ensures |bs| == k && IsDigits(bs, 256)
  {
    if k == 0 then [] else [t % 256] + LittleEndian(t / 256, k - 1)
  }

  /** The sum of the base-256 digits of `t`. */
  function DigitSum(t: nat): nat
  {
    if t == 0 then 0 else t % 256 + DigitSum(t / 256)
  }

  /** The bytes of a number below 256^k add up to its digit sum. */
  lemma {:induction false} LittleEndianSum(t: nat, k: nat)
    requires t < Pow(256, k)
    ensures Sum(LittleEndian(t, k)) == DigitSum(t)
    decreases k
  {
    if k > 0 {
      DivBound(t, 256, k - 1);
      LittleEndianSum(t / 256, k - 1);
      SumCons(t % 256, LittleEndian(t / 256, k - 1));
    } else {
      assert t == 0;
    }
  }

  /** The digit sum never exceeds the number, and is smaller from 256 on. */
  lemma {:induction false} DigitSumShrinks(t: nat)
    ensures DigitSum(t) <= t
    ensures t >= 256 ==> DigitSum(t) < t
    decreases t
  {
    if t > 0 {
      DigitSumShrinks(t / 256);
      DivModProperties(t, 256);
    }
  }

  /** Casting out 255s: the digit sum leaves the same remainder modulo 255 as
      the number, because 256 leaves 1. */
  lemma {:induction false} DigitSumMod(t: nat)
    ensures DigitSum(t) % 255 == t % 255
    decreases t
  {
    if t > 0 {
      var q, m := t / 256, t % 256;
      DigitSumMod(q);
      DivModProperties(t, 256);
      var d := DigitSum(q);
      DivModProperties(d, 255);
      DivModProperties(q, 255);
      ModShift(d / 255, q % 255 + m);
      ModShift(q + q / 255, q % 255 + m);
    }
  }

  /** Adding a multiple of 255 does not change the remainder. */
  lemma ModShift(k: int, x: int)
    ensures (k * 255 + x) % 255 == x % 255
  {
    DivModProperties(x, 255);
    DivModUnique(k * 255 + x, 255, k + x / 255, x % 255);
  }

  /** The `do { ... } while (tmp > maxVal)` of `getBytesSum` from the first
      sum on: digit sums are taken until the value is at most `maxVal`. */
  function Reduce(t: nat, maxVal: nat): (r: nat)
    requires maxVal >= 255
    decreases t
  {
    if t > maxVal then
      DigitSumShrinks(t);
      Reduce(DigitSum(t), maxVal)
    else t
  }

  /** The checksum fits `maxVal` and keeps the remainder modulo 255. */
  lemma {:induction false} ReduceFacts(t: nat, maxVal: nat)
    requires maxVal >= 255
    ensures Reduce(t, maxVal) <= maxVal && Reduce(t, maxVal) <= t
    ensures Reduce(t, maxVal) % 255 == t % 255
    decreases t
  {
    if t > maxVal {
      DigitSumShrinks(t);
      DigitSumMod(t);
      ReduceFacts(DigitSum(t), maxVal);
    }
  }

  /** The `foreach (var t in arr) tmp += t` of `getBytesSum`. */
  method SumBytes(arr: seq<int>) returns (tmp: int)
    ensures tmp == Sum(arr)
  {
    tmp := 0;
    var i := 0;
    while i < |arr|
      invariant 0 <= i <= |arr| && tmp == Sum(arr[..i])
    {
      assert arr[..i + 1][..i] == arr[..i];
      tmp := tmp + arr[i];
      i := i + 1;
    }
    assert arr[..i] == arr;
  }

  /** `getBytesSum(val, forBase, maxChars)`: the bytes are summed, and the
      eight bytes of the sum summed again, until the sum is at most
      forBase^maxChars. With a bound below 255 a sum in (bound, 255] would
      repeat forever, so the bound is at least 255; the first sum must fit a
      `long`. */
  method GetBytesSum(val: seq<int>, forBase: nat, maxChars: nat) returns (tmp: int)
    requires IsDigits(val, 256) && 255 * |val| <= MaxLong
    requires 255 <= Pow(forBase, maxChars) <= MaxLong
    ensures Sum(val) >= 0 && tmp == Reduce(Sum(val), Pow(forBase, maxChars))
    ensures 0 <= tmp <= Pow(forBase, maxChars) && tmp % 255 == Sum(val) % 255
  {
    var maxVal := Pow(forBase, maxChars);
    SumBounds(val);
    ReduceFacts(Sum(val), maxVal);
    assert Pow(256, 8) == 0x1_0000_0000_0000_0000;
    var arr := val;
    var first := true;
    tmp := 0;
    while first || tmp > maxVal
      invariant first ==> arr == val
      invariant !first ==> 0 <= tmp < Pow(256, 8) && arr == LittleEndian(tmp, 8)
      invariant !first ==> Reduce(tmp, maxVal) == Reduce(Sum(val), maxVal)
      decreases (if first then 1 else 0), tmp
    {
      ghost var previous := tmp;
      tmp := SumBytes(arr);
      if !first {
        LittleEndianSum(previous, 8);
        DigitSumShrinks(previous);
      }
      first := false;
      arr := LittleEndian(tmp, 8);
    }
  }

  /** `ComputeHostHash(host)`: the byte-sum checksum (at most 36^2) of the MD5
      digest of the host name, `md5`, written with the older `Encode`. The
      text has at most three characters, and three only for the checksum
      1296, which is "100" although the documented width is two. */
  method ComputeHostHash(md5: seq<int>) returns (h: string)
    requires |md5| == 16 && IsDigits(md5, 256)
    ensures Sum(md5) >= 0 && h == EncodeText(Reduce(Sum(md5), 1296))
    ensures |h| <= 3 && DecodeValue(h) == Reduce(Sum(md5), 1296)
    ensures h == "100" <==> Reduce(Sum(md5), 1296) == 1296
  {
    assert Pow(36, 2) == 1296;
    var sum := GetBytesSum(md5, 36, 2);
    var r := LegacyBase36Converter.Encode(sum);
    h := r.value;
    EncodeTextDigits(sum);
    ChecksumText(sum);
  }

  /** The text of a checksum up to 36^2: "100" for 36^2 itself, otherwise at
      most two characters. */
  lemma ChecksumText(sum: nat)
    requires sum <= 1296
    ensures |EncodeText(sum)| <= 3
    ensures EncodeText(sum) == "100" <==> sum == 1296
  {
    assert Pow(36, 2) == 1296;
    if sum == 1296 {
      IdGenerator.PowText(2);
      AlphabetShape();
      assert Zeros(2) == [0, 0];
      assert EncodeText(sum) == "100";
    } else if sum > 0 {
      Base36OfLength(sum, 2);
    }
  }

  /** `sb.Length = n` after each append: the fields are cut or padded with
      '\0' to widths 10, 2, 1 and 3, whatever the instance's widths say. */
  function Layout(timestamp: string, hostHash: string, reserved: string, random: string): (u: string)
    ensures |u| == 16
  {
    SetLength(SetLength(SetLength(SetLength(timestamp, 10) + hostHash, 12) + reserved, 13) + random, 16)
  }

  /** Setting the length past a prefix of the right length works on the rest. */
  lemma SetLengthAppend(a: string, b: string, k: nat)
    ensures SetLength(a + b, |a| + k) == a + SetLength(b, k)
  {
    if |b| >= k {
      assert (a + b)[..|a| + k] == a + b[..k];
    } else {
      assert (a + b) + seq(k - |b|, _ => '\0') == a + (b + seq(k - |b|, _ => '\0'));
    }
  }

  /** The identifier before delimiting is the four fields, each forced to
      its width. */
  lemma LayoutFields(timestamp: string, hostHash: string, reserved: string, random: string)
    ensures Layout(timestamp, hostHash, reserved, random)
         == SetLength(timestamp, 10) + SetLength(hostHash, 2) + SetLength(reserved, 1) + SetLength(random, 3)
  {
    var t, h, r := SetLength(timestamp, 10), SetLength(hostHash, 2), SetLength(reserved, 1);
    SetLengthAppend(t, hostHash, 2);
    SetLengthAppend(t + h, reserved, 1);
    SetLengthAppend(t + h + r, random, 3);
  }

  /** The timestamp field as appended: `FromInt64(microseconds).PadLeft(10, '0')`. */
  function TimestampText(microseconds: nat): string
  {
    PadLeft(Base36Of(microseconds), 10, '0')
  }

  /** The reserved field as appended: `Append(null)` appends nothing. */
  function ReservedText(reservedHash: Option<string>): string
  {
    if reservedHash.Some? then reservedHash.value else ""
  }

  /** The identifier `NewBase36String(delimiter)` returns for the microseconds
      and random draw it obtains; a delimiter that is neither null nor empty
      goes in at 12, 8 and 4. */
  function NewIdText(microseconds: nat, hostHash: string, reservedHash: Option<string>, next: nat,
                     delimiter: Option<string>): string
  {
    var u := Layout(TimestampText(microseconds), hostHash, ReservedText(reservedHash), RandomField(next));
    if delimiter.None? || delimiter.value == "" then u
    else
      DelimiterOffsets(|u|);
      Delimited(u, [12, 8, 4], delimiter.value)
  }

  /** The offsets 12, 8 and 4 are in descending order and lie within any text
      of at least 12 characters. */
  lemma DelimiterOffsets(n: int)
    requires n >= 12
    ensures Descending([12, 8, 4]) && Within([12, 8, 4], n)
  {
  }

  /** `NewIdText` as the builder computes it: the four fields laid out,
      then the three insertions when there is a delimiter, all of which
      succeed. */
  lemma NewIdTextSteps(microseconds: nat, hostHash: string, reservedHash: Option<string>, next: nat,
                       delimiter: Option<string>)
    ensures NewIdText(microseconds, hostHash, reservedHash, next, None)
         == Layout(TimestampText(microseconds), hostHash, ReservedText(reservedHash), RandomField(next))
    ensures delimiter.Some? && delimiter.value != "" ==>
      InsertAll(NewIdText(microseconds, hostHash, reservedHash, next, None), [12, 8, 4], delimiter.value)
      == Ok(NewIdText(microseconds, hostHash, reservedHash, next, delimiter))
    ensures delimiter.None? || delimiter.value == "" ==>
      NewIdText(microseconds, hostHash, reservedHash, next, delimiter)
      == NewIdText(microseconds, hostHash, reservedHash, next, None)
  {
    if delimiter.Some? && delimiter.value != "" {
      var u := NewIdText(microseconds, hostHash, reservedHash, next, None);
      DelimiterOffsets(|u|);
      InsertAllDescending(u, [12, 8, 4], delimiter.value);
    }
  }

  /** The fields of an undelimited identifier: the timestamp reads back as the
      microseconds while they fit ten characters (otherwise their first ten
      digits are kept), the host field is the first two characters of the
      host hash, the reserved field is the first character of the reserved
      text or '\0', and the random field is three characters. */
  lemma UndelimitedFields(microseconds: nat, hostHash: string, reservedHash: Option<string>, next: nat)
    requires 2 <= |hostHash| && next < MaxRandom
    ensures var u := NewIdText(microseconds, hostHash, reservedHash, next, None);
      && |u| == 16
      && (microseconds < Pow(36, 10) ==> DecodeValue(u[..10]) == microseconds)
      && (microseconds >= Pow(36, 10) ==>
            10 < |Base36Of(microseconds)| && u[..10] == Base36Of(microseconds)[..10])
      && u[10..12] == hostHash[..2]
      && u[12] == (if ReservedText(reservedHash) == "" then '\0' else ReservedText(reservedHash)[0])
      && u[13..] == RandomField(next)
      && DecodeValue(u[13..]) == ValueOf(Digits(next, 36), 16)
  {
    var rt := ReservedText(reservedHash);
    var t, h, r := SetLength(TimestampText(microseconds), 10), SetLength(hostHash, 2), SetLength(rt, 1);
    var rf := RandomField(next);
    UndelimitedLayout(microseconds, hostHash, reservedHash, next);
    RandomFieldFacts(next);
    FieldSlices(t, h, r, rf);
    TimestampFieldFits(microseconds);
    TimestampFieldOverflows(microseconds);
  }

  /** The undelimited identifier is the four fields, each at its width. */
  lemma UndelimitedLayout(microseconds: nat, hostHash: string, reservedHash: Option<string>, next: nat)
    requires next < MaxRandom
    ensures NewIdText(microseconds, hostHash, reservedHash, next, None)
         == SetLength(TimestampText(microseconds), 10) + SetLength(hostHash, 2)
            + SetLength(ReservedText(reservedHash), 1) + RandomField(next)
  {
    RandomFieldFacts(next);
    LayoutFields(TimestampText(microseconds), hostHash, ReservedText(reservedHash), RandomField(next));
    NewIdTextSteps(microseconds, hostHash, reservedHash, next, None);
  }

  /** Slicing four fields of widths 10, 2, 1 and 3 back out of their concatenation. */
  lemma FieldSlices(t: string, h: string, r: string, rf: string)
    requires |t| == 10 && |h| == 2 && |r| == 1 && |rf| == 3
    ensures var u := t + h + r + rf;
      |u| == 16 && u[..10] == t && u[10..12] == h && u[12] == r[0] && u[13..] == rf
  {
    var u := t + h + r + rf;
    assert u[..10] == t;
    assert u[10..12] == h;
    assert u[13..] == rf;
  }

  /** While the microseconds fit in ten base-36 digits, the timestamp field
      reads back as them. */
  lemma TimestampFieldFits(microseconds: nat)
    ensures microseconds < Pow(36, 10) ==> DecodeValue(SetLength(TimestampText(microseconds), 10)) == microseconds
  {
    if microseconds < Pow(36, 10) {
      Base36OfLength(microseconds, 10);
      assert SetLength(TimestampText(microseconds), 10) == TimestampText(microseconds);
      IdGenerator.PaddedValue(Base36Of(microseconds), 10);
      DecodeBase36Of(microseconds);
    }
  }

  /** Past that, the field holds only the leading ten digits. */
  lemma TimestampFieldOverflows(microseconds: nat)
    ensures microseconds >= Pow(36, 10) ==>
      10 < |Base36Of(microseconds)| && SetLength(TimestampText(microseconds), 10) == Base36Of(microseconds)[..10]
  {
    Base36OfLength(microseconds, 10);
  }

  /** With a delimiter, the identifier is four groups of four characters
      separated by it. */
  lemma DelimitedGroups(microseconds: nat, hostHash: string, reservedHash: Option<string>, next: nat,
                        delimiter: string)
    requires delimiter != ""
    ensures var u := NewIdText(microseconds, hostHash, reservedHash, next, None);
      NewIdText(microseconds, hostHash, reservedHash, next, Some(delimiter))
      == u[..4] + delimiter + u[4..8] + delimiter + u[8..12] + delimiter + u[12..]
    ensures |NewIdText(microseconds, hostHash, reservedHash, next, Some(delimiter))| == 16 + 3 * |delimiter|
  {
    var u := NewIdText(microseconds, hostHash, reservedHash, next, None);
    DelimitedFour(u, delimiter);
  }

  /** Delimiting sixteen characters at 12, 8 and 4. */
  lemma DelimitedFour(u: string, d: string)
    requires |u| == 16
    ensures Descending([12, 8, 4]) && Within([12, 8, 4], |u|)
    ensures Delimited(u, [12, 8, 4], d) == u[..4] + d + u[4..8] + d + u[8..12] + d + u[12..]
  {
    assert [12, 8, 4][1..] == [8, 4] && [8, 4][1..] == [4] && [4][1..] == [];
    assert u[..12][..8] == u[..8] && u[..8][..4] == u[..4];
    assert u[..12][8..] == u[8..12] && u[..8][4..] == u[4..8];
    assert Delimited(u, [12, 8, 4], d) == Delimited(u[..12], [8, 4], d) + d + u[12..];
    assert Delimited(u[..12], [8, 4], d) == Delimited(u[..8], [4], d) + d + u[8..12];
    assert Delimited(u[..8], [4], d) == Delimited(u[..4], [], d) + d + u[4..8];
  }

  /** The number of whole periods in a non-negative `long` is at most the
      number in the largest one, so `35 - periods` is at least `ReservedFloor`
      and far inside the `int` range that `Convert.ToInt32` checks. */
  lemma ReservedPeriods(last: int)
    requires 0 <= last <= MaxLong
    ensures 0 <= last / ReservedDivisor <= MaxLong / ReservedDivisor
    ensures ReservedFloor == -2487
  {
    DivModProperties(last, ReservedDivisor);
    DivModProperties(MaxLong, ReservedDivisor);
  }

  /** `Base36Converter.FromInt32(_reserved)` for a value `checkReserved` can
      set: text for a digit, an `IndexOutOfRangeException` below zero, since
      so few decimal digits cannot make the remainder wrap. */
  method ReservedDigits(conv: LegacyBaseConverter.Converter, reserved: int) returns (r: Result<string>)
    requires ReservedFloor <= reserved <= InitialReserved
    modifies conv
    ensures conv.charList == Alphabet
    ensures reserved >= 0 ==> r == Ok(Base36Of(reserved))
    ensures reserved < 0 ==> r == Err(IndexOutOfRange)
  {
    ReservedPeriods(0);
    r := LegacyBase36Converter.FromInt32(conv, reserved);
  }

  /** The static fields of the class. */
  class Statics {
    /** `_lastMicroseconds`: the last value handed out. */
    var lastMicroseconds: int
    /** `_reserved`, and its cached text `_reservedHash`. */
    var reserved: int
    var reservedHash: Option<string>
    /** `_hostHash`, set once by the static constructor. */
    const hostHash: string
    /** `_oneYearInMicroseconds`, a positive constant (115 Julian years). */
    const oneYearInMicroseconds: int

    ghost predicate Valid()
      reads this
    {
      0 <= lastMicroseconds && IsLong(lastMicroseconds) && ReservedFloor <= reserved <= InitialReserved
      && oneYearInMicroseconds > 0 && 2 <= |hostHash| && AllIn(hostHash, Alphabet)
    }

    constructor (hostHash: string, reservedHash: Option<string>, oneYearInMicroseconds: int)
      requires 2 <= |hostHash| && AllIn(hostHash, Alphabet) && oneYearInMicroseconds > 0
      ensures this.hostHash == hostHash && this.reservedHash == reservedHash
      ensures this.oneYearInMicroseconds == oneYearInMicroseconds
      ensures lastMicroseconds == 0 && reserved == InitialReserved && Valid()
    {
      this.hostHash := hostHash;
      this.reservedHash := reservedHash;
      this.oneYearInMicroseconds := oneYearInMicroseconds;
      lastMicroseconds := 0;
      reserved := InitialReserved;
    }

    /** `GetMicroseconds()`: `do { sample } while (sample <= _lastMicroseconds)`,
        then the sample is recorded. `samples` are the readings of the
        stopwatch plus the time zero, in microseconds, in the order taken. */
    method GetMicroseconds(samples: seq<int>) returns (microseconds: int)
      requires Valid()
      requires exists k :: 0 <= k < |samples| && samples[k] > lastMicroseconds
      requires forall k :: 0 <= k < |samples| ==> IsLong(samples[k])
      modifies this
      ensures Valid() && reserved == old(reserved) && reservedHash == old(reservedHash)
      ensures microseconds > old(lastMicroseconds) && lastMicroseconds == microseconds
      ensures exists k :: 0 <= k < |samples| && microseconds == samples[k] &&
                (forall j :: 0 <= j < k ==> samples[j] <= old(lastMicroseconds))
    {
      microseconds := samples[0];
      var i := 1;
      while microseconds <= lastMicroseconds
        invariant 1 <= i <= |samples| && microseconds == samples[i - 1]
        invariant forall j :: 0 <= j < i - 1 ==> samples[j] <= lastMicroseconds
        decreases |samples| - i
      {
        if i == |samples| {
          assert forall j :: 0 <= j < |samples| ==> samples[j] <= lastMicroseconds;
          assert false;
        }
        microseconds := samples[i];
        i := i + 1;
      }
      lastMicroseconds := microseconds;
    }

    /** `GetMicrosecondsCrossProcess()`: the same loop under a named mutex,
        which sequential calls make irrelevant. */
    method GetMicrosecondsCrossProcess(samples: seq<int>) returns (microseconds: int)
      requires Valid()
      requires exists k :: 0 <= k < |samples| && samples[k] > lastMicroseconds
      requires forall k :: 0 <= k < |samples| ==> IsLong(samples[k])
      modifies this
      ensures Valid() && reserved == old(reserved) && reservedHash == old(reservedHash)
      ensures microseconds > old(lastMicroseconds) && lastMicroseconds == microseconds
      ensures exists k :: 0 <= k < |samples| && microseconds == samples[k] &&
                (forall j :: 0 <= j < k ==> samples[j] <= old(lastMicroseconds))
    {
      microseconds := GetMicroseconds(samples);
    }

    /** The `Reserved` property: the cached text, or `FromInt32(_reserved)`
        stored in the cache (which throws for a negative value). */
    method Reserved(conv: LegacyBaseConverter.Converter) returns (r: Result<string>)
      requires Valid()
      modifies this, conv
      ensures Valid() && lastMicroseconds == old(lastMicroseconds) && reserved == old(reserved)
      ensures old(reservedHash).Some? ==> r == Ok(old(reservedHash).value) && reservedHash == old(reservedHash)
      ensures old(reservedHash).None? && reserved >= 0 ==>
        r == Ok(Base36Of(reserved)) && reservedHash == Some(Base36Of(reserved))
      ensures old(reservedHash).None? && reserved < 0 ==> r == Err(IndexOutOfRange) && reservedHash == None
    {
      if reservedHash.Some? {
        return Ok(reservedHash.value);
      }
      r := ReservedDigits(conv, reserved);
      if r.Ok? {
        reservedHash := Some(r.value);
      }
    }
  }

  /** The static constructor: the host hash from the host name's hash code,
      `_reservedHash = FromInt32(35)`, and `_lastMicroseconds` and `_reserved`
      at their initial values. It throws where `Math.Abs` does. */
  method InitializeStatics(conv: LegacyBaseConverter.Converter, hashCode: int, oneYearInMicroseconds: int)
    returns (r: Result<Statics>)
    requires IsInt(hashCode) && oneYearInMicroseconds > 0
    modifies conv
    ensures r.Err? <==> hashCode == MinInt
    ensures r.Err? ==> r.error == Overflow
    ensures r.Ok? ==>
      fresh(r.value) && r.value.Valid() && Ok(r.value.hostHash) == StaticHostHash(hashCode)
      && r.value.reservedHash == Some("Z") && r.value.reserved == InitialReserved
      && r.value.lastMicroseconds == 0 && r.value.oneYearInMicroseconds == oneYearInMicroseconds
  {
    var hostHash := StaticHostHash(hashCode);
    if hostHash.Err? {
      return Err(hostHash.error);
    }
    var reservedHash := LegacyBase36Converter.FromInt32(conv, InitialReserved);
    assert reservedHash.value == "Z" by {
      AlphabetShape();
      assert Numeral(35, 36) == [35];
    }
    var st := new Statics(hostHash.value, Some(reservedHash.value), oneYearInMicroseconds);
    return Ok(st);
  }

  /** `FromInt64(microseconds).PadLeft(10, '0')`, the first field appended. */
  method TimestampDigits(conv: LegacyBaseConverter.Converter, microseconds: int) returns (t: string)
    requires 0 <= microseconds && IsLong(microseconds)
    modifies conv
    ensures t == TimestampText(microseconds)
  {
    var r := LegacyBase36Converter.FromInt64(conv, microseconds);
    t := PadLeft(r.value, 10, '0');
  }

  /** `FromHex(rndHexStr).PadLeft(3, '0')`, where `rndHexStr` is the base-36
      text `getRandomDigitsLock` made of `next`. */
  method RandomDigits(conv: LegacyBaseConverter.Converter, rndHexStr: string, next: nat) returns (r: string)
    requires rndHexStr == EncodeText(next)
    modifies conv
    ensures r == RandomField(next)
  {
    EncodeTextDigits(next);
    var hex := LegacyBase36Converter.FromHex(conv, rndHexStr);
    r := PadLeft(hex.value, 3, '0');
  }

  /** The appends to the empty builder up to `sb.Length = 13`: timestamp,
      host hash and reserved text, each followed by the cut to its width. */
  method AppendFront(sb: Text.StringBuilder, timestamp: string, hostHash: string, reserved: string)
    requires sb.content == ""
    modifies sb
    ensures sb.content == SetLength(SetLength(SetLength(timestamp, 10) + hostHash, 12) + reserved, 13)
  {
    sb.Append(timestamp);
    sb.SetLength(10);
    sb.Append(hostHash);
    sb.SetLength(12);
    sb.Append(reserved);
    sb.SetLength(13);
  }

  /** An instance: the widths are stored but play no part in the identifier. */
  class Generator {
    const numTimestampCharacters: int
    const numServerCharacters: int
    const numRandomCharacters: int
    const reservedValue: Option<string>
    var shouldCheckReserved: bool

    /** The instance constructor, ending with `initStaticMicroseconds`: the
        clock is read once. */
    constructor (numTimestampCharacters: int, numServerCharacters: int, numRandomCharacters: int,
                 reservedValue: Option<string>, st: Statics, samples: seq<int>)
      requires st.Valid()
      requires exists k :: 0 <= k < |samples| && samples[k] > st.lastMicroseconds
      requires forall k :: 0 <= k < |samples| ==> IsLong(samples[k])
      modifies st
      ensures this.numTimestampCharacters == numTimestampCharacters
      ensures this.numServerCharacters == numServerCharacters
      ensures this.numRandomCharacters == numRandomCharacters
      ensures this.reservedValue == reservedValue && !shouldCheckReserved
      ensures st.Valid() && st.lastMicroseconds > old(st.lastMicroseconds)
      ensures st.reserved == old(st.reserved) && st.reservedHash == old(st.reservedHash)
    {
      this.numTimestampCharacters := numTimestampCharacters;
      this.numServerCharacters := numServerCharacters;
      this.numRandomCharacters := numRandomCharacters;
      this.reservedValue := reservedValue;
      shouldCheckReserved := false;
      new;
      var _ := st.GetMicroseconds(samples);
    }

    /** `checkReserved` (run by the timer): once the last value passes
        `_oneYearInMicroseconds`, `_reserved` becomes 35 minus the number of
        whole 36^10 - 1 periods in it and the value is set back by that
        constant. The cached `_reservedHash` is left as it was. */
    method CheckReserved(st: Statics)
      requires st.Valid()
      modifies this, st
      ensures st.Valid() && st.reservedHash == old(st.reservedHash)
      ensures shouldCheckReserved == (old(st.lastMicroseconds) > st.oneYearInMicroseconds)
      ensures shouldCheckReserved ==>
        st.reserved == InitialReserved - old(st.lastMicroseconds) / ReservedDivisor
        && st.lastMicroseconds == old(st.lastMicroseconds) - st.oneYearInMicroseconds
      ensures !shouldCheckReserved ==>
        st.reserved == old(st.reserved) && st.lastMicroseconds == old(st.lastMicroseconds)
    {
      shouldCheckReserved := st.lastMicroseconds > st.oneYearInMicroseconds;
      if shouldCheckReserved {
        ReservedPeriods(st.lastMicroseconds);
        st.reserved := InitialReserved - st.lastMicroseconds / ReservedDivisor;
        st.lastMicroseconds := st.lastMicroseconds - st.oneYearInMicroseconds;
      }
    }

    /** `NewBase36String(delimiter)`, with `next` the draw of `NextLong` below
        `_maxRandom` and `samples` the clock readings. The random draw is
        written in base 36, that text converted "from hexadecimal", and the
        clock read once; the builder is then filled field by field. */
    method NewBase36String(st: Statics, conv: LegacyBaseConverter.Converter, delimiter: Option<string>,
                           next: int, samples: seq<int>) returns (id: string)
      requires st.Valid() && 0 <= next < MaxRandom
      requires exists k :: 0 <= k < |samples| && samples[k] > st.lastMicroseconds
      requires forall k :: 0 <= k < |samples| ==> IsLong(samples[k])
      modifies st, conv
      ensures st.Valid() && st.lastMicroseconds > old(st.lastMicroseconds)
      ensures st.reserved == old(st.reserved) && st.reservedHash == old(st.reservedHash)
      ensures id == NewIdText(st.lastMicroseconds, st.hostHash, st.reservedHash, next, delimiter)
    {
      var encoded := LegacyBase36Converter.Encode(next);
      var rndHexStr := encoded.value;
      var microseconds := st.GetMicrosecondsCrossProcess(samples);
      var sb := new Text.StringBuilder("");
      var timestamp := TimestampDigits(conv, microseconds);
      AppendFront(sb, timestamp, st.hostHash, ReservedText(st.reservedHash));
      var random := RandomDigits(conv, rndHexStr, next);
      sb.Append(random);
      sb.SetLength(16);
      NewIdTextSteps(microseconds, st.hostHash, st.reservedHash, next, delimiter);
      if delimiter.Some? && delimiter.value != "" {
        var ok := InsertEach(sb, [12, 8, 4], delimiter.value);
      }
      id := sb.content;
    }
  }

  /** A roll of `checkReserved` once 36^10 - 1 microseconds have passed gives
      a reserved value below 35 whose text differs from the cached "Z", so
      identifiers keep the stale reserved character. */
  lemma ReservedRollIsStale(lastMicroseconds: int)
    requires ReservedDivisor <= lastMicroseconds <= MaxLong
    ensures InitialReserved - lastMicroseconds / ReservedDivisor < InitialReserved
    ensures var rolled := InitialReserved - lastMicroseconds / ReservedDivisor;
      IsInt(rolled) && (rolled >= 0 ==> Base36Of(rolled) != "Z")
  {
    var q := lastMicroseconds / ReservedDivisor;
    DivModProperties(lastMicroseconds, ReservedDivisor);
    assert 1 <= q <= 2523;
    var rolled := InitialReserved - q;
    if rolled >= 0 {
      AlphabetShape();
      DecodeBase36Of(rolled);
      assert Numeral(35, 36) == [35];
      assert Base36Of(35) == "Z";
      DecodeBase36Of(35);
    }
  }
}
