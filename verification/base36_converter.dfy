/** `Base36Converter` of the current library: base-36 text from hexadecimal and
    decimal text, from a `long` (two ways), and back to a `long`. */
module Base36Converter {
  import opened Wrappers
  import opened Clr
  import opened Numerals
  import BaseConverter

  /** `hex.ToUpper().Replace("-", "")`. */
  function HexText(hex: string): string
  {
    Remove(Upper(hex), {'-'})
  }

  /** The digit indices `FromHex` hands to the long division. */
  function HexDigits(hex: string): seq<int>
  {
    Indices(BaseConverter.Strip(HexText(hex)), Alphabet)
  }

  /** `FromHex`: the hexadecimal text, upper-cased and without dashes, read in
      base 16 and written in base 36. Characters of the alphabet beyond 'F' are
      read with their alphabet index as digit value. */
  method FromHex(hex: string) returns (r: string)
    requires AllIn(BaseConverter.Strip(HexText(hex)), Alphabet)
    ensures r == Rebased(HexDigits(hex), 16, 36, Alphabet)
    ensures DecodeValue(r) == ValueOf(HexDigits(hex), 16)
  {
    r := BaseConverter.Convert(HexText(hex), 16, 36);
    ghost var ds := HexDigits(hex);
    BaseConverter.ConvertReadsBack(ds, 16, 36);
    ValueOfNonNeg(ds, 16);
    UpperOfAlphabetText(r);
  }

  /** Removing the separators from decimal text leaves the digits of the
      magnitude, whose indices are its decimal numeral. */
  lemma DecimalDigits(n: int)
    ensures AllIn(BaseConverter.Strip(DecimalText(n)), Alphabet)
    ensures Indices(BaseConverter.Strip(DecimalText(n)), Alphabet) == Numeral(Abs(n), 10)
  {
    AlphabetShape();
    var ds := Numeral(Abs(n), 10);
    var t := Spell(ds, Alphabet);
    SpelledDigitsClean(ds);
    if n < 0 {
      assert DecimalText(n) == "-" + t;
      RemoveConcat("-", t, BaseConverter.Separators);
      assert Remove("-", BaseConverter.Separators) == [];
    }
    SpellIndices(ds, Alphabet);
  }

  /** Spelled digits hold no separator and only alphabet characters. */
  lemma SpelledDigitsClean(ds: seq<int>)
    requires IsDigits(ds, 36)
    ensures |Alphabet| == 36
    ensures BaseConverter.Strip(Spell(ds, Alphabet)) == Spell(ds, Alphabet)
    ensures AllIn(Spell(ds, Alphabet), Alphabet)
  {
    AlphabetShape();
    var t := Spell(ds, Alphabet);
    forall i | 0 <= i < |t| ensures t[i] !in BaseConverter.Separators && t[i] in Alphabet {
      assert t[i] == DigitChar(ds[i]);
    }
    RemoveNone(t, BaseConverter.Separators);
  }

  /** Base 10 to base 36 on the decimal text of `n`: the '-' of a negative
      number is one of the stripped separators, so the magnitude is converted. */
  lemma DecimalToBase36(n: int)
    ensures AllIn(BaseConverter.Strip(DecimalText(n)), Alphabet)
    ensures Rebased(Indices(BaseConverter.Strip(DecimalText(n)), Alphabet), 10, 36, Alphabet) == Base36Of(Abs(n))
  {
    DecimalDigits(n);
    NumeralValue(Abs(n), 10);
  }

  /** `FromInt32`: the base-36 text of the magnitude of `int32`. */
  method FromInt32(int32: int) returns (r: string)
    requires IsInt(int32)
    ensures r == Base36Of(Abs(int32))
  {
    DecimalToBase36(int32);
    r := BaseConverter.Convert(DecimalText(int32), 10, 36);
  }

  /** `FromInt64`: the base-36 text of the magnitude of `int64`; unlike
      `FromLong`, this also succeeds for `long.MinValue`. */
  method FromInt64(int64: int) returns (r: string)
    requires IsLong(int64)
    ensures r == Base36Of(Abs(int64))
  {
    DecimalToBase36(int64);
    r := BaseConverter.Convert(DecimalText(int64), 10, 36);
  }

  /** `FromLong`: "0" for zero, otherwise the base-36 digits of the magnitude,
      without a sign; `Math.Abs` throws for `long.MinValue`. `Decode` reads
      every result back as the magnitude. */
  method FromLong(decimalNumber: int) returns (r: Result<string>)
    requires IsLong(decimalNumber)
    ensures decimalNumber == MinLong ==> r == Err(Overflow)
    ensures decimalNumber != MinLong ==> r == Ok(Base36Of(Abs(decimalNumber)))
    ensures r.Ok? ==> |r.value| <= 13 && Wrap64(DecodeValue(r.value)) == Abs(decimalNumber)
  {
    if decimalNumber != MinLong {
      DecodeInvertsBase36(Abs(decimalNumber));
    }
    if decimalNumber == 0 {
      AlphabetShape();
      assert Base36Of(0) == Spell([0], Alphabet);
      return Ok("0");
    }
    if decimalNumber == MinLong {
      return Err(Overflow);
    }
    var currentNumber := Abs(decimalNumber);
    var buffer := new char[64];
    var index := BaseConverter.WriteDigitsBackwards(buffer, currentNumber, 36);
    return Ok(buffer[index..]);
  }

  /** `Encode`: the characters of the remainders of repeated truncating division
      by 36, pushed on a stack and read back from its top. Zero gives the empty
      text; a negative input soon yields a negative remainder, and indexing the
      digit table with it throws. `Decode` reads every result back as the input. */
  method Encode(input: int) returns (r: Result<string>)
    requires IsLong(input)
    ensures input > 0 ==> r == Ok(Base36Of(input))
    ensures input == 0 ==> r == Ok("")
    ensures input < 0 ==> r == Err(IndexOutOfRange)
    ensures input >= 0 ==> r.Ok? && |r.value| <= 13 && Wrap64(DecodeValue(r.value)) == input
  {
    var n := input;
    var stack: string := [];
    ghost var digits: seq<int> := [];
    while n != 0
      invariant input > 0 ==> n >= 0 && Digits(input, 36) == Digits(n, 36) + digits
      invariant input < 0 ==> n < 0
      invariant input == 0 ==> n == 0 && digits == []
      invariant IsDigits(digits, 36) && stack == Spell(digits, Alphabet)
      decreases Abs(n)
    {
      var remainder := Rem(n, 36);
      if remainder < 0 {
        // _digits[input % 36] with a negative index
        return Err(IndexOutOfRange);
      }
      EncodeStep(input, n, digits);
      stack := [Alphabet[remainder]] + stack;
      digits := [remainder] + digits;
      n := Quot(n, 36);
    }
    if input == 0 {
      assert DecodeValue("") == 0;
      return Ok("");
    }
    assert digits == Numeral(input, 36);
    DecodeInvertsBase36(input);
    return Ok(stack);
  }

  /** One turn of the loop of `Encode` whose remainder is not negative. */
  lemma EncodeStep(input: int, n: int, digits: seq<int>)
    requires n != 0 && Rem(n, 36) >= 0 && IsDigits(digits, 36)
    requires input > 0 ==> n >= 0 && Digits(input, 36) == Digits(n, 36) + digits
    requires input < 0 ==> n < 0
    requires input == 0 ==> n == 0
    ensures Abs(Quot(n, 36)) < Abs(n)
    ensures input > 0 ==> Quot(n, 36) >= 0 && Digits(input, 36) == Digits(Quot(n, 36), 36) + ([Rem(n, 36)] + digits)
    ensures input < 0 ==> Quot(n, 36) < 0
    ensures IsDigits([Rem(n, 36)] + digits, 36)
    ensures Spell([Rem(n, 36)] + digits, Alphabet) == [Alphabet[Rem(n, 36)]] + Spell(digits, Alphabet)
  {
    AlphabetShape();
    DivShrinks(Abs(n), 36);
    if n > 0 {
      DigitsStep(n, 36);
    } else {
      assert Rem(n, 36) == 0;
      assert n == Quot(n, 36) * 36;
    }
  }

  /** `Decode`: the sum, over the upper-cased characters read from the last,
      of each character's alphabet index (-1 when absent) times 36 to the power
      of its position, in `unchecked` 64-bit arithmetic. Up to 13 characters
      `Math.Pow(36, pos)` is exact and its cast to `long` in range, so only the
      products and the sum wrap; up to 12 nothing wraps at all. */
  method Decode(input: string) returns (r: int)
    requires |input| <= 13
    ensures r == Wrap64(DecodeValue(input)) && IsLong(r)
    ensures |input| <= 12 ==> r == DecodeValue(input)
  {
    var u := Upper(input);
    var result := 0;
    var pos := 0;
    while pos < |u|
      invariant 0 <= pos <= |u|
      invariant result == WrappedSuffix(u, pos)
    {
      var next := Wrap64(result + Wrap64(IndexOf(u[|u| - 1 - pos], Alphabet) * Pow(36, pos)));
      WrappedStep(u, pos, result, next);
      result, pos := next, pos + 1;
    }
    DecodeDone(input);
    r := result;
  }

  /** The value of the last `pos` characters of `u`, wrapped to a `long`. */
  function WrappedSuffix(u: string, pos: nat): int
    requires pos <= |u|
  {
    Wrap64(ValueOf(Indices(u[|u| - pos..], Alphabet), 36))
  }

  /** One turn of the loop of `Decode` in 64-bit arithmetic: the wrapped
      product added to the wrapped sum so far gives the wrapped longer sum. */
  lemma WrappedStep(u: string, pos: nat, result: int, next: int)
    requires pos < |u| && result == WrappedSuffix(u, pos)
    requires next == Wrap64(result + Wrap64(IndexOf(u[|u| - 1 - pos], Alphabet) * Pow(36, pos)))
    ensures next == WrappedSuffix(u, pos + 1)
  {
    var a := ValueOf(Indices(u[|u| - pos..], Alphabet), 36);
    var b := IndexOf(u[|u| - 1 - pos], Alphabet) * Pow(36, pos);
    DecodeStep(u, pos);
    assert result == Wrap64(a);
    WrapAdd(a, b);
  }

  /** The loop of `Decode` ends with the wrapped value of the whole text. */
  lemma DecodeDone(input: string)
    ensures WrappedSuffix(Upper(input), |input|) == Wrap64(DecodeValue(input))
    ensures |input| <= 12 ==> WrappedSuffix(Upper(input), |input|) == DecodeValue(input)
  {
    assert Upper(input)[|input| - |input|..] == Upper(input);
    if |input| <= 12 {
      DecodeFits(input);
    }
  }

  /** Adding two numbers in 64-bit arithmetic: wrapping the operands first does
      not change the wrapped sum. */
  lemma WrapAdd(a: int, b: int)
    ensures Wrap64(Wrap64(a) + Wrap64(b)) == Wrap64(a + b)
  {
    var m := 0x1_0000_0000_0000_0000;
    WrapClosedForm(a);
    WrapClosedForm(b);
    DivModProperties(a - MinLong, m);
    DivModProperties(b - MinLong, m);
    assert Wrap64(a) == a - (a - MinLong) / m * m;
    assert Wrap64(b) == b - (b - MinLong) / m * m;
    WrapShift(a + b, -((a - MinLong) / m + (b - MinLong) / m));
  }

  /** Numbers that differ by a multiple of 2^64 wrap to the same `long`. */
  lemma WrapShift(x: int, q: int)
    ensures Wrap64(x + q * 0x1_0000_0000_0000_0000) == Wrap64(x)
  {
    var m := 0x1_0000_0000_0000_0000;
    WrapClosedForm(x);
    WrapClosedForm(x + q * m);
    DivModProperties(x - MinLong, m);
    DivModUnique(x + q * m - MinLong, m, (x - MinLong) / m + q, (x - MinLong) % m);
  }

  /** One turn of the loop of `Decode`: the next character to the left adds its
      index times 36^pos. */
  lemma DecodeStep(u: string, pos: int)
    requires 0 <= pos < |u|
    ensures ValueOf(Indices(u[|u| - (pos + 1)..], Alphabet), 36)
         == ValueOf(Indices(u[|u| - pos..], Alphabet), 36) + IndexOf(u[|u| - 1 - pos], Alphabet) * Pow(36, pos)
  {
    var rest := Indices(u[|u| - pos..], Alphabet);
    assert u[|u| - (pos + 1)..] == [u[|u| - 1 - pos]] + u[|u| - pos..];
    assert Indices(u[|u| - (pos + 1)..], Alphabet) == [IndexOf(u[|u| - 1 - pos], Alphabet)] + rest;
    ValueOfCons(IndexOf(u[|u| - 1 - pos], Alphabet), rest, 36);
  }

  /** Text of at most 12 characters decodes to a value of the `long` range. */
  lemma DecodeFits(s: string)
    requires |s| <= 12
    ensures -(Pow(36, 12) as int) < DecodeValue(s) < Pow(36, 12) && IsLong(DecodeValue(s))
  {
    ValueOfMagnitude(Indices(Upper(s), Alphabet));
    PowMonotone(36, |s|, 12);
    Pow36Twelve();
  }

  /** Every `long` from 0 on has a base-36 text of at most 13 characters,
      which `Decode` accepts and reads back exactly. */
  lemma DecodeInvertsBase36(n: nat)
    requires n <= MaxLong
    ensures |Base36Of(n)| <= 13
    ensures DecodeValue(Base36Of(n)) == n && Wrap64(DecodeValue(Base36Of(n))) == n
  {
    FromLongText(n);
    DecodeBase36Of(n);
  }

  /** `Decode` upper-cases its input first, so the case of the letters does
      not matter. */
  lemma DecodeIgnoresCase(s: string)
    ensures DecodeValue(Upper(s)) == DecodeValue(s)
  {
    UpperIdempotent(s);
  }

  /** The text of the magnitude of any `long`, `long.MinValue` included, has at
      most 13 characters: 36^13 exceeds 2^63. */
  lemma FromLongText(n: int)
    requires IsLong(n)
    ensures |Base36Of(Abs(n))| <= 13
  {
    Pow36Twelve();
    assert Pow(36, 13) == 36 * Pow(36, 12);
    Base36OfLength(Abs(n), 13);
  }
}
