/** `BaseConverter` of the current library: conversion of a numeral text between
    bases by repeated long division, and the rendering of a `long` in a radix. */
module BaseConverter {
  import opened Wrappers
  import opened Clr
  import opened Numerals
  import LongDivision

  /** The separators `Convert` removes before reading the digits. */
  const Separators: set<char> := {' ', '-', ',', '.'}

  function Strip(number: string): string
  {
    Remove(number, Separators)
  }

  /** `Convert`: the separators are removed, each remaining character is replaced
      by its index in the character list (the alphabet, which the static
      constructor of `Base36Converter` installs), and the number those digits
      denote in `fromBase` is written in `toBase`, with no leading zero. */
  method Convert(number: string, fromBase: int, toBase: int) returns (result: string)
    requires 2 <= fromBase <= 36 && 2 <= toBase <= 36
    requires AllIn(Strip(number), Alphabet)
    ensures result == Rebased(Indices(Strip(number), Alphabet), fromBase, toBase, Alphabet)
  {
    var s := Strip(number);
    var nibbles := new int[|s|](i requires 0 <= i < |s| => IndexOf(s[i], Alphabet));
    assert nibbles[..] == Indices(s, Alphabet);
    assert LongDivision.Small(nibbles[..]) by {
      AlphabetShape();
    }
    var r := LongDivision.DivideOut(nibbles, fromBase, toBase, Alphabet);
    result := r.value;
  }

  /** The converted text reads back, in `toBase`, as the number the input denoted. */
  lemma ConvertReadsBack(ds: seq<int>, fromBase: nat, toBase: nat)
    requires NonNeg(ds) && 2 <= toBase <= 36
    ensures ValueOf(Indices(Rebased(ds, fromBase, toBase, Alphabet), Alphabet), toBase) == ValueOf(ds, fromBase)
    ensures var r := Rebased(ds, fromBase, toBase, Alphabet); |r| >= 1 && (r[0] == '0' ==> r == "0")
  {
    AlphabetShape();
    ValueOfNonNeg(ds, fromBase);
    var n := ValueOf(ds, fromBase);
    SpellIndices(Numeral(n, toBase), Alphabet);
    NumeralValue(n, toBase);
    var r := Rebased(ds, fromBase, toBase, Alphabet);
    if r[0] == '0' {
      assert Numeral(n, toBase)[0] == 0;
    }
  }

  /** The `while (currentNumber != 0)` loop shared by `DecimalToArbitrarySystem`
      and `Base36Converter.FromLong`: the remainders of repeated division by
      `radix` are written from the last cell of the 64-character buffer toward
      its start, so the digits end up most significant first in
      `buffer[start..]`. Any `long` magnitude fits, since radix^64 exceeds it. */
  method WriteDigitsBackwards(buffer: array<char>, n: nat, radix: int) returns (start: int)
    requires buffer.Length == 64 && 2 <= radix <= 36 && 0 < n <= MaxLong
    modifies buffer
    ensures 0 <= start < 64 && buffer[start..] == Spell(Numeral(n, radix), Alphabet)
  {
    var index := 63;
    var currentNumber := n;
    ghost var digits: seq<int> := [];
    while currentNumber != 0
      invariant 0 <= currentNumber && -1 <= index <= 63 && index + 1 + |digits| == 64
      invariant Digits(n, radix) == Digits(currentNumber, radix) + digits && IsDigits(digits, 36)
      invariant buffer[index + 1..] == Spell(digits, Alphabet)
      decreases currentNumber
    {
      WriteStep(n, radix, currentNumber, digits, Alphabet);
      var remainder := currentNumber % radix;
      PutBefore(buffer, index, Alphabet[remainder]);
      digits := [remainder] + digits;
      index := index - 1;
      currentNumber := currentNumber / radix;
    }
    WrittenAll(n, radix, digits);
    start := index + 1;
  }

  /** Once the number is used up, the digits written are its numeral. */
  lemma WrittenAll(n: nat, radix: nat, digits: seq<int>)
    requires 2 <= radix && n > 0 && Digits(n, radix) == Digits(0, radix) + digits
    ensures Numeral(n, radix) == digits
  {
  }

  /** `charArray[index] = c`, seen from the text already written after `index`. */
  method PutBefore(buffer: array<char>, index: int, c: char)
    requires 0 <= index < buffer.Length
    modifies buffer
    ensures buffer[index..] == [c] + old(buffer[index + 1..])
  {
    buffer[index] := c;
  }

  /** One turn of the loop in `WriteDigitsBackwards`, on values: the last digit
      of `current` moves to the front of the digits written so far, and its
      character to the front of the text; there was room for it, since a `long`
      magnitude has at most 64 digits in any radix. */
  lemma WriteStep(n: nat, radix: nat, current: nat, digits: seq<int>, list: string)
    requires 2 <= radix <= 36 && n <= MaxLong && current > 0 && |list| == 36
    requires Digits(n, radix) == Digits(current, radix) + digits && IsDigits(digits, 36)
    ensures |digits| < 64 && current / radix < current && 0 <= current % radix < 36
    ensures Digits(n, radix) == Digits(current / radix, radix) + ([current % radix] + digits)
    ensures IsDigits([current % radix] + digits, 36)
    ensures Spell([current % radix] + digits, list) == [list[current % radix]] + Spell(digits, list)
  {
    SpellCons(current % radix, digits, 36, list);
    DigitsFit(n, radix, current, digits);
    DigitsShift(n, radix, current, digits);
    DivShrinks(current, radix);
  }

  /** While digits remain to be written, fewer than 64 have been: a `long`
      magnitude has at most 64 digits in any radix. */
  lemma DigitsFit(n: nat, radix: nat, current: nat, digits: seq<int>)
    requires 2 <= radix && n <= MaxLong && current > 0
    requires Digits(n, radix) == Digits(current, radix) + digits
    ensures |digits| < 64
  {
    RadixPow64(radix);
    NumeralLength(n, radix, 64);
    DigitsStep(current, radix);
  }

  /** Dividing `current` by the radix moves its last digit to the front of the
      digits already written. */
  lemma DigitsShift(n: nat, radix: nat, current: nat, digits: seq<int>)
    requires 2 <= radix && current > 0
    requires Digits(n, radix) == Digits(current, radix) + digits
    ensures Digits(n, radix) == Digits(current / radix, radix) + ([current % radix] + digits)
  {
    DigitsStep(current, radix);
    assert Digits(current / radix, radix) + [current % radix] + digits
        == Digits(current / radix, radix) + ([current % radix] + digits);
  }

  /** `DecimalToArbitrarySystem`: a radix outside [2, 36] is rejected, zero is
      "0", and otherwise the digits of the magnitude are written into a
      64-character buffer, with '-' in front of a negative number. `Math.Abs`
      throws for `long.MinValue`. */
  method DecimalToArbitrarySystem(decimalNumber: int, radix: int) returns (r: Result<string>)
    requires IsLong(decimalNumber)
    ensures !(2 <= radix <= 36) ==> r == Err(Argument(None))
    ensures 2 <= radix <= 36 && decimalNumber == MinLong ==> r == Err(Overflow)
    ensures 2 <= radix <= 36 && decimalNumber != MinLong ==> r == Ok(SignedText(decimalNumber, radix))
  {
    if radix < 2 || radix > 36 {
      return Err(Argument(None));
    }
    if decimalNumber == 0 {
      AlphabetShape();
      assert Spell(Numeral(0, radix), Alphabet) == "0";
      return Ok("0");
    }
    if decimalNumber == MinLong {
      return Err(Overflow);
    }
    var currentNumber := Abs(decimalNumber);
    var charArray := new char[64];
    var index := WriteDigitsBackwards(charArray, currentNumber, radix);
    var result := charArray[index..];
    if decimalNumber < 0 {
      result := "-" + result;
    }
    return Ok(result);
  }
}
