/** `Base36Converter` of the older library. Each conversion installs the
    alphabet into the shared `BaseConverter.CharList` and converts the text as it
    is: no separator is removed, so the '-' of a negative decimal number reaches
    the long division as -1. The remainder then stays negative, and indexing the
    character list with it throws, unless the digits after the '-' make the
    `int` remainder wrap. */
module LegacyBase36Converter {
  import opened Wrappers
  import opened Clr
  import opened Numerals
  import LongDivision
  import BaseConverter
  import Base36Converter
  import LegacyBaseConverter

  /** The digit indices of decimal text: the numeral of a non-negative number,
      or -1 for the '-' followed by the numeral of the magnitude. */
  lemma DecimalIndices(n: int)
    ensures n >= 0 ==> Indices(DecimalText(n), Alphabet) == Numeral(n, 10)
    ensures n < 0 ==> Indices(DecimalText(n), Alphabet) == [-1] + Numeral(-n, 10)
    ensures NonNeg(Indices(DecimalText(n), Alphabet)) <==> n >= 0
    ensures n < 0 ==> LongDivision.LeadingUnknown(Indices(DecimalText(n), Alphabet), 10)
  {
    AlphabetShape();
    var ds := Numeral(Abs(n), 10);
    var t := Spell(ds, Alphabet);
    SpellIndices(ds, Alphabet);
    if n < 0 {
      SignIndex(t);
      assert DecimalText(n) == "-" + t;
    } else {
      assert DecimalText(n) == t;
    }
  }

  /** The '-' of a sign is not in the alphabet, so it reads as -1. */
  lemma SignIndex(t: string)
    ensures Indices("-" + t, Alphabet) == [-1] + Indices(t, Alphabet)
  {
    AlphabetShape();
    assert forall k :: 0 <= k < 36 ==> Alphabet[k] != '-';
    assert IndexOf('-', Alphabet) == -1;
  }

  /** Decimal text converted by the long division: the base-36 text of a
      non-negative number, an `IndexOutOfRangeException` for a negative one
      of at most nine digits. Past nine digits the remainder after the '-'
      wraps, and then either outcome can occur: when the first pass emits
      nothing the wrapped value decides (`OnePass`). */
  method ConvertDecimal(conv: LegacyBaseConverter.Converter, n: int) returns (r: Result<string>)
    modifies conv
    ensures conv.charList == Alphabet
    ensures r.Ok? || r == Err(IndexOutOfRange)
    ensures n >= 0 ==> r == Ok(Base36Of(n)) && DecodeValue(r.value) == n
    ensures -1_000_000_000 < n < 0 ==> r == Err(IndexOutOfRange)
    ensures LongDivision.Quiet(Indices(DecimalText(n), Alphabet), |DecimalText(n)|, 10, 36) ==>
      r == LongDivision.OnePass(Indices(DecimalText(n), Alphabet), 10, 36, Alphabet)
  {
    conv.SetCharList(Alphabet);
    AlphabetShape();
    if n >= 0 {
      PositiveDecimal(n);
    } else if -1_000_000_000 < n {
      NegativeDecimal(n);
    }
    r := conv.Convert(DecimalText(n), 10, 36);
  }

  /** The decimal text of a non-negative number converts to its base-36 text. */
  lemma PositiveDecimal(n: nat)
    ensures var ds := Indices(DecimalText(n), Alphabet);
      NonNeg(ds) && Rebased(ds, 10, 36, Alphabet) == Base36Of(n) && DecodeValue(Base36Of(n)) == n
  {
    AlphabetShape();
    DecimalIndices(n);
    NumeralValue(n, 10);
    DecodeBase36Of(n);
  }

  /** A negative number of at most nine decimal digits: its text's first pass
      stays within the `int` range and ends negative. */
  lemma NegativeDecimal(n: int)
    requires -1_000_000_000 < n < 0
    ensures var ds := Indices(DecimalText(n), Alphabet);
      LongDivision.Quiet(ds, |ds|, 10, 36) && Wrap32(ValueOf(ds, 10)) <= -1
  {
    var ds := Indices(DecimalText(n), Alphabet);
    var m := Numeral(-n, 10);
    DecimalIndices(n);
    assert |ds| == |m| + 1 && LongDivision.LeadingUnknown(ds, 10);
    ShortNumeral(-n);
    PowMonotone(10, |m|, 9);
    Pow10Nine();
    assert Pow(10, |ds| - 1) <= 0x8000_0000;
    LongDivision.NegativePass(ds, 10, 36);
  }

  /** A number below 10^9 has at most nine decimal digits. */
  lemma ShortNumeral(x: nat)
    requires x < 1_000_000_000
    ensures |Numeral(x, 10)| <= 9
  {
    Pow10Nine();
    NumeralLength(x, 10, 9);
  }

  lemma Pow10Nine()
    ensures Pow(10, 9) == 1_000_000_000
  {
    assert Pow(10, 3) == 1000;
    PowAdd(10, 3, 3);
    PowAdd(10, 6, 3);
  }

  /** `FromHex`: the upper-cased text read in base 16 and written in base 36.
      Dashes are not removed; a leading one is a character outside the list,
      which throws while at most seven digits follow it. */
  method FromHex(conv: LegacyBaseConverter.Converter, hex: string) returns (r: Result<string>)
    modifies conv
    ensures conv.charList == Alphabet
    ensures r.Ok? || r == Err(IndexOutOfRange)
    ensures NonNeg(Indices(Upper(hex), Alphabet)) ==>
      r == Ok(Rebased(Indices(Upper(hex), Alphabet), 16, 36, Alphabet))
      && DecodeValue(r.value) == ValueOf(Indices(Upper(hex), Alphabet), 16)
    ensures LongDivision.LeadingUnknown(Indices(Upper(hex), Alphabet), 16) && |hex| <= 8 ==>
      r == Err(IndexOutOfRange)
    ensures LongDivision.Quiet(Indices(Upper(hex), Alphabet), |hex|, 16, 36) ==>
      r == LongDivision.OnePass(Indices(Upper(hex), Alphabet), 16, 36, Alphabet)
  {
    conv.SetCharList(Alphabet);
    AlphabetShape();
    r := conv.Convert(Upper(hex), 16, 36);
    var ds := Indices(Upper(hex), Alphabet);
    if NonNeg(ds) {
      FromHexReadsBack(ds);
    } else if LongDivision.LeadingUnknown(ds, 16) && |hex| <= 8 {
      PowMonotone(16, |ds| - 1, 7);
      Pow16Eight();
      LongDivision.NegativePass(ds, 16, 36);
    }
  }

  /** A dash and eight hexadecimal zeros: the value of the whole text,
      -16^8 = -2^32, wraps to 0, and no prefix reaches 36, so `FromHex`
      returns "0" where a shorter run of zeros throws. */
  lemma DashEightZeros()
    ensures var ds := Indices(Upper("-00000000"), Alphabet);
      LongDivision.Quiet(ds, |ds|, 16, 36) && LongDivision.OnePass(ds, 16, 36, Alphabet) == Ok("0")
  {
    var ds := Indices(Upper("-00000000"), Alphabet);
    DashZerosIndices();
    forall j | 1 <= j <= |ds|
      ensures Wrap32(ValueOf(ds[..j], 16)) < 36
    {
      assert ds[..j] == [-1] + Zeros(j - 1);
      DashZerosValue(j - 1, 16);
      PowMonotone(16, j - 1, 8);
      Pow16Eight();
    }
    assert ds[..|ds|] == ds;
    DashZerosValue(8, 16);
    Pow16Eight();
    assert Wrap32(ValueOf(ds, 16)) == 0;
    AlphabetShape();
  }

  lemma DashZerosIndices()
    ensures Indices(Upper("-00000000"), Alphabet) == [-1] + Zeros(8)
  {
    AlphabetShape();
    assert Upper("-00000000") == "-" + "00000000";
    SignIndex("00000000");
    assert IndexOf('0', Alphabet) == 0;
  }

  /** -1 followed by `k` zeros denotes -b^k. */
  lemma DashZerosValue(k: nat, b: nat)
    ensures ValueOf([-1] + Zeros(k), b) == -(Pow(b, k) as int)
  {
    ValueOfCons(-1, Zeros(k), b);
    LeadingZeros(k, [], b);
    assert Zeros(k) + [] == Zeros(k);
  }

  lemma Pow16Eight()
    ensures Pow(16, 7) == 0x1000_0000 && Pow(16, 8) == 0x1_0000_0000
  {
    assert Pow(16, 2) == 0x100;
    assert Pow(16, 4) == 0x1_0000 by { PowAdd(16, 2, 2); }
    assert Pow(16, 8) == 0x1_0000_0000 by { PowAdd(16, 4, 4); }
  }

  /** The base-36 text produced from hexadecimal digits decodes to their value. */
  lemma FromHexReadsBack(ds: seq<int>)
    requires NonNeg(ds)
    ensures DecodeValue(Rebased(ds, 16, 36, Alphabet)) == ValueOf(ds, 16)
  {
    var r := Rebased(ds, 16, 36, Alphabet);
    AlphabetShape();
    ValueOfNonNeg(ds, 16);
    var ns := Numeral(ValueOf(ds, 16), 36);
    assert r == Spell(ns, Alphabet);
    assert AllIn(r, Alphabet) by {
      forall i | 0 <= i < |r| ensures r[i] in Alphabet {
        assert r[i] == Alphabet[ns[i]];
      }
    }
    UpperOfAlphabetText(r);
    SpellIndices(ns, Alphabet);
    NumeralValue(ValueOf(ds, 16), 36);
  }

  /** `FromInt32`: the decimal text of an `int`, converted to base 36. */
  method FromInt32(conv: LegacyBaseConverter.Converter, int32: int) returns (r: Result<string>)
    requires IsInt(int32)
    modifies conv
    ensures conv.charList == Alphabet
    ensures r.Ok? || r == Err(IndexOutOfRange)
    ensures int32 >= 0 ==> r == Ok(Base36Of(int32)) && DecodeValue(r.value) == int32
    ensures -1_000_000_000 < int32 < 0 ==> r == Err(IndexOutOfRange)
    ensures LongDivision.Quiet(Indices(DecimalText(int32), Alphabet), |DecimalText(int32)|, 10, 36) ==>
      r == LongDivision.OnePass(Indices(DecimalText(int32), Alphabet), 10, 36, Alphabet)
  {
    r := ConvertDecimal(conv, int32);
  }

  /** `FromInt64`: the decimal text of a `long`, converted to base 36. */
  method FromInt64(conv: LegacyBaseConverter.Converter, int64: int) returns (r: Result<string>)
    requires IsLong(int64)
    modifies conv
    ensures conv.charList == Alphabet
    ensures r.Ok? || r == Err(IndexOutOfRange)
    ensures int64 >= 0 ==> r == Ok(Base36Of(int64)) && DecodeValue(r.value) == int64
    ensures -1_000_000_000 < int64 < 0 ==> r == Err(IndexOutOfRange)
    ensures LongDivision.Quiet(Indices(DecimalText(int64), Alphabet), |DecimalText(int64)|, 10, 36) ==>
      r == LongDivision.OnePass(Indices(DecimalText(int64), Alphabet), 10, 36, Alphabet)
  {
    r := ConvertDecimal(conv, int64);
  }

  /** `FromLong`: "0" for zero, otherwise the base-36 digits of the magnitude
      with a '-' in front of a negative number; `Math.Abs` throws for
      `long.MinValue`. */
  method FromLong(decimalNumber: int) returns (r: Result<string>)
    requires IsLong(decimalNumber)
    ensures decimalNumber == MinLong ==> r == Err(Overflow)
    ensures decimalNumber != MinLong ==> r == Ok(SignedText(decimalNumber, 36))
  {
    if decimalNumber == 0 {
      AlphabetShape();
      assert SignedText(0, 36) == Base36Of(0);
      return Ok("0");
    }
    if decimalNumber == MinLong {
      return Err(Overflow);
    }
    var buffer := new char[64];
    var index := BaseConverter.WriteDigitsBackwards(buffer, Abs(decimalNumber), 36);
    var result := buffer[index..];
    if decimalNumber < 0 {
      result := "-" + result;
    }
    return Ok(result);
  }

  /** `Encode`: a negative input is an `ArgumentOutOfRangeException` for
      "input"; otherwise the stack of remainders of the current `Encode`. */
  method Encode(input: int) returns (r: Result<string>)
    requires IsLong(input)
    ensures input < 0 ==> r == Err(ArgumentOutOfRange("input"))
    ensures input == 0 ==> r == Ok("")
    ensures input > 0 ==> r == Ok(Base36Of(input)) && DecodeValue(r.value) == input
    ensures r.Ok? ==> |r.value| <= 13 && Wrap64(DecodeValue(r.value)) == input
  {
    if input < 0 {
      return Err(ArgumentOutOfRange("input"));
    }
    r := Base36Converter.Encode(input);
    if input > 0 {
      DecodeBase36Of(input);
    }
  }

  /** `Decode`, which is the current `Decode` line for line, without its
      `unchecked` block; C#'s default context is unchecked as well. */
  method Decode(input: string) returns (r: int)
    requires |input| <= 13
    ensures r == Wrap64(DecodeValue(input)) && IsLong(r)
    ensures |input| <= 12 ==> r == DecodeValue(input)
  {
    r := Base36Converter.Decode(input);
  }
}
