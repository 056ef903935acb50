/** The repeated long division at the heart of `BaseConverter.Convert`. Both
    versions of the converter run the same loop nest over the list of digit
    indices (`nibbles`), rewriting it in place with the quotient digits. The
    running remainder is a C# `int` in an `unchecked` block, so each step
    `value * fromBase + nibbles[i]` wraps modulo 2^32. */
module LongDivision {
  import opened Wrappers
  import opened Clr
  import opened Numerals

  /** The digit list of a number written with a leading character that is not in
      the character list (a '-' sign, which `IndexOf` maps to -1), followed by
      proper digits. */
  predicate LeadingUnknown(ds: seq<int>, fromBase: int)
  {
    |ds| >= 1 && ds[0] == -1 && forall i :: 1 <= i < |ds| ==> 0 <= ds[i] < fromBase
  }

  /** A bound on the digit values: a .NET string has fewer than 2^30
      characters, so no index into a character list reaches it, and a
      remainder below 36 times a base of at most 36 plus such a digit stays in
      the `int` range. */
  const DigitLimit: int := 0x4000_0000

  predicate Small(ds: seq<int>)
  {
    forall i :: 0 <= i < |ds| ==> ds[i] < DigitLimit
  }

  /** No prefix among the first `i` digits of `ds` reaches `toBase` once its
      value is wrapped to an `int`: a pass over them emits no quotient digit. */
  predicate Quiet(ds: seq<int>, i: int, fromBase: nat, toBase: int)
  {
    forall j :: 1 <= j <= i && j <= |ds| ==> Wrap32(ValueOf(ds[..j], fromBase)) < toBase
  }

  /** The outcome of a conversion whose first pass emits nothing: the wrapped
      value is the only remainder, and a negative one makes `CharList[value]`
      throw. */
  function OnePass(ds: seq<int>, fromBase: nat, toBase: int, list: string): (r: Result<string>)
    requires 2 <= toBase <= |list| && Quiet(ds, |ds|, fromBase, toBase)
    ensures Wrap32(ValueOf(ds, fromBase)) < 0 <==> r == Err(IndexOutOfRange)
    ensures r.Ok? ==> 0 <= Wrap32(ValueOf(ds, fromBase)) < toBase && r.value == [list[Wrap32(ValueOf(ds, fromBase))]]
  {
    assert ds != [] ==> ds[..|ds|] == ds;
    var v := Wrap32(ValueOf(ds, fromBase));
    if v < 0 then Err(IndexOutOfRange) else Ok([list[v]])
  }

  /** Numbers that differ by a multiple of 2^32 wrap to the same `int`. */
  lemma Wrap32Shift(x: int, q: int)
    ensures Wrap32(x + q * 0x1_0000_0000) == Wrap32(x)
  {
    var m := 0x1_0000_0000;
    Wrap32ClosedForm(x);
    Wrap32ClosedForm(x + q * m);
    DivModProperties(x - MinInt, m);
    DivModUnique(x + q * m - MinInt, m, (x - MinInt) / m + q, (x - MinInt) % m);
  }

  /** Wrapping the remainder before the next step does not change the wrapped
      result of the step: the `int` arithmetic agrees with the exact value
      modulo 2^32. */
  lemma Wrap32Step(a: int, b: int, c: int)
    ensures Wrap32(Wrap32(a) * b + c) == Wrap32(a * b + c)
  {
    var m := 0x1_0000_0000;
    var k := (a - MinInt) / m;
    Wrap32ClosedForm(a);
    DivModProperties(a - MinInt, m);
    assert Wrap32(a) == a - k * m;
    assert Wrap32(a) * b + c == a * b + c + (-(k * b)) * m;
    Wrap32Shift(a * b + c, -(k * b));
  }

  lemma FoldStep(p: int, q: int, value: int, d: int, fromBase: int, toBase: int)
    requires p == q * toBase + value
    ensures p * fromBase + d == (q * fromBase) * toBase + (value * fromBase + d)
  {
  }

  lemma EmitStep(q: int, v: int, fromBase: int, toBase: int)
    requires toBase >= 1
    ensures (q * fromBase + v / toBase) * toBase + v % toBase == (q * fromBase) * toBase + v
  {
    DivModProperties(v, toBase);
  }

  /** A quotient digit computed from a remainder below `toBase` and a proper digit is itself a proper digit. */
  lemma QuotientDigit(value: int, d: int, fromBase: int, toBase: int)
    requires 0 <= value < toBase && 0 <= d < fromBase
    ensures (value * fromBase + d) / toBase < fromBase
  {
    var v := value * fromBase + d;
    MulMonotone(value, toBase - 1, fromBase);
    DivModProperties(v, toBase);
    if v / toBase >= fromBase {
      MulMonotone(fromBase, v / toBase, toBase);
    }
  }

  lemma QuotientPositive(v: int, b: int)
    requires v >= b >= 1
    ensures v / b >= 1
  {
    DivModProperties(v, b);
    if v / b <= 0 {
      MulMonotone(v / b, 0, b);
    }
  }

  /** What holds after the first `i` digits of `before` have been consumed in one
      pass: `quot` holds the quotient digits emitted so far (never more than were
      read) and `value` the running remainder, an `int` below `toBase`. Nothing
      is emitted for as long as no wrapped prefix value reaches `toBase`, and
      until then the remainder is the wrapped value of the prefix. While every
      digit read has emitted one, the first quotient digit is below the first
      digit. For small non-negative digits nothing wraps (`ExactPass`). */
  ghost predicate PassInvariant(before: seq<int>, i: int, quot: seq<int>, value: int, fromBase: nat, toBase: nat)
  {
    0 <= i <= |before| && |quot| <= i && IsInt(value) && value < toBase
    && (|quot| == 0 <==> Quiet(before, i, fromBase, toBase))
    && (|quot| == 0 ==> value == Wrap32(ValueOf(before[..i], fromBase)))
    && (0 < i == |quot| ==> 1 <= quot[0] < Wrap32(before[0]))
    && (NonNeg(before) && Small(before) ==> ExactPass(before, i, quot, value, fromBase, toBase))
  }

  /** The pass so far is the exact division of the prefix by `toBase`: quotient
      digits with no leading zero, and a remainder in [0, toBase). */
  ghost predicate ExactPass(before: seq<int>, i: int, quot: seq<int>, value: int, fromBase: nat, toBase: nat)
  {
    0 <= i <= |before| && NonNeg(quot) && Small(quot) && (|quot| > 0 ==> quot[0] >= 1) && 0 <= value
    && ValueOf(before[..i], fromBase) == ValueOf(quot, fromBase) * toBase + value
    && (IsDigits(before, fromBase) ==> IsDigits(quot, fromBase))
  }

  /** One step of a pass keeps `PassInvariant`, whichever of its three
      branches it takes to reach `quot'` and `value'`. */
  lemma PassStep(before: seq<int>, i: int, quot: seq<int>, value: int, quot': seq<int>, value': int,
                 fromBase: int, toBase: int)
    requires 2 <= fromBase <= 36 && 2 <= toBase <= 36
    requires PassInvariant(before, i, quot, value, fromBase, toBase) && i < |before|
    requires var v := Wrap32(value * fromBase + before[i]);
      || (v >= toBase && quot' == quot + [v / toBase] && value' == v % toBase)
      || (v < toBase && |quot| > 0 && quot' == quot + [0] && value' == v)
      || (v < toBase && |quot| == 0 && quot' == quot && value' == v)
    ensures PassInvariant(before, i + 1, quot', value', fromBase, toBase)
  {
    QuietStep(before, i, quot, value, quot', value', fromBase, toBase);
    if NonNeg(before) && Small(before) {
      DigitStep(before, i, quot, value, fromBase, toBase);
    }
  }

  /** The part of `PassStep` that holds for any digits: the emptiness of the
      quotient, the wrapped remainder of a quiet prefix, and the first
      quotient digit. */
  lemma QuietStep(before: seq<int>, i: int, quot: seq<int>, value: int, quot': seq<int>, value': int,
                  fromBase: int, toBase: int)
    requires 2 <= fromBase && 2 <= toBase
    requires PassInvariant(before, i, quot, value, fromBase, toBase) && i < |before|
    requires var v := Wrap32(value * fromBase + before[i]);
      || (v >= toBase && quot' == quot + [v / toBase] && value' == v % toBase)
      || (v < toBase && |quot| > 0 && quot' == quot + [0] && value' == v)
      || (v < toBase && |quot| == 0 && quot' == quot && value' == v)
    ensures |quot'| <= i + 1 && IsInt(value') && value' < toBase
    ensures |quot'| == 0 <==> Quiet(before, i + 1, fromBase, toBase)
    ensures |quot'| == 0 ==> value' == Wrap32(ValueOf(before[..i + 1], fromBase))
    ensures i + 1 == |quot'| ==> 1 <= quot'[0] < Wrap32(before[0])
  {
    var v := Wrap32(value * fromBase + before[i]);
    PrefixStep(before, i, fromBase);
    if |quot| == 0 {
      Wrap32Step(ValueOf(before[..i], fromBase), fromBase, before[i]);
      assert v == Wrap32(ValueOf(before[..i + 1], fromBase));
    } else {
      var j :| 1 <= j <= i && j <= |before| && Wrap32(ValueOf(before[..j], fromBase)) >= toBase;
    }
    if v >= toBase {
      DivModProperties(v, toBase);
      QuotientPositive(v, toBase);
      if i == 0 {
        assert before[..0] == [] && v == Wrap32(before[0]);
        MulMonotone(2, toBase, v / toBase);
      }
    }
  }

  /** `PassStep` for small non-negative digits: the step does not wrap, and it
      is a step of the exact division. */
  lemma DigitStep(before: seq<int>, i: int, quot: seq<int>, value: int, fromBase: int, toBase: int)
    requires 2 <= fromBase <= 36 && 2 <= toBase <= 36 && NonNeg(before) && Small(before)
    requires 0 <= i < |before| && value < toBase && ExactPass(before, i, quot, value, fromBase, toBase)
    ensures IsInt(value * fromBase + before[i])
    ensures var v := value * fromBase + before[i];
      v >= toBase ==> ExactPass(before, i + 1, quot + [v / toBase], v % toBase, fromBase, toBase)
    ensures var v := value * fromBase + before[i];
      v < toBase && |quot| > 0 ==> ExactPass(before, i + 1, quot + [0], v, fromBase, toBase)
    ensures var v := value * fromBase + before[i];
      v < toBase && |quot| == 0 ==> ExactPass(before, i + 1, quot, v, fromBase, toBase)
  {
    var v := value * fromBase + before[i];
    MulMonotone(value, 35, fromBase);
    MulMonotone(fromBase, 36, 35);
    PrefixStep(before, i, fromBase);
    FoldArith(ValueOf(before[..i], fromBase), ValueOf(quot, fromBase), value, before[i], fromBase, toBase);
    if v >= toBase {
      DigitStepEmit(before, i, quot, value, fromBase, toBase);
    } else if |quot| > 0 {
      ValueOfSnoc(quot, 0, fromBase);
    }
  }

  /** The value of one more digit of the prefix. */
  lemma PrefixStep(before: seq<int>, i: int, fromBase: nat)
    requires 0 <= i < |before|
    ensures ValueOf(before[..i + 1], fromBase) == ValueOf(before[..i], fromBase) * fromBase + before[i]
  {
    assert before[..i + 1] == before[..i] + [before[i]];
    ValueOfSnoc(before[..i], before[i], fromBase);
  }

  /** The case of `DigitStep` that emits a quotient digit. */
  lemma DigitStepEmit(before: seq<int>, i: int, quot: seq<int>, value: int, fromBase: int, toBase: int)
    requires 2 <= fromBase && 2 <= toBase && NonNeg(before) && 0 <= i < |before|
    requires value < toBase && ExactPass(before, i, quot, value, fromBase, toBase)
    requires toBase <= value * fromBase + before[i] < 2 * DigitLimit
    ensures var v := value * fromBase + before[i];
      ExactPass(before, i + 1, quot + [v / toBase], v % toBase, fromBase, toBase)
  {
    var v := value * fromBase + before[i];
    var q, r := v / toBase, v % toBase;
    PrefixStep(before, i, fromBase);
    FoldArith(ValueOf(before[..i], fromBase), ValueOf(quot, fromBase), value, before[i], fromBase, toBase);
    ValueOfSnoc(quot, q, fromBase);
    QuotientSmall(v, toBase);
    var quot' := quot + [q];
    assert NonNeg(quot') && Small(quot') && quot'[0] >= 1 && 0 <= r < toBase;
    assert ValueOf(before[..i + 1], fromBase) == ValueOf(quot', fromBase) * toBase + r;
    assert IsDigits(before, fromBase) ==> IsDigits(quot', fromBase);
  }

  /** A remainder below twice the digit limit, divided by a base of at least
      two, is a small digit again. */
  lemma QuotientSmall(v: int, b: int)
    requires 0 <= v < 2 * DigitLimit && 2 <= b
    ensures v / b < DigitLimit
  {
    DivModProperties(v, b);
    MulMonotone(2, b, v / b);
  }

  /** The arithmetic of one step of the division, on integers: folding digit `d`
      into the remainder and emitting the quotient digit keeps
      `p` = `q` * `toBase` + `value` true of the longer prefix. */
  lemma FoldArith(p: int, q: int, value: int, d: int, fromBase: int, toBase: int)
    requires 2 <= fromBase && 2 <= toBase && 0 <= value < toBase && 0 <= d
    requires p == q * toBase + value
    ensures value * fromBase + d >= 0
    ensures var v := value * fromBase + d;
      v >= toBase ==> 1 <= v / toBase && 0 <= v % toBase < toBase
                      && p * fromBase + d == (q * fromBase + v / toBase) * toBase + v % toBase
    ensures var v := value * fromBase + d; v < toBase ==> p * fromBase + d == (q * fromBase) * toBase + v
    ensures d < fromBase ==> (value * fromBase + d) / toBase < fromBase
  {
    var v := value * fromBase + d;
    FoldStep(p, q, value, d, fromBase, toBase);
    MulMonotone(0, value, fromBase);
    if d < fromBase {
      QuotientDigit(value, d, fromBase, toBase);
    }
    if v >= toBase {
      EmitStep(q, v, fromBase, toBase);
      DivModProperties(v, toBase);
      QuotientPositive(v, toBase);
    }
  }

  /** One pass of the inner `for` loop of `Convert`: divides the number held in
      `nibbles[..length]` by `toBase`, writing the quotient digits back into
      `nibbles` at `newlen`, which never overtakes the read index `i`. So only
      digits already consumed are overwritten and the list never needs to grow
      (the `nibbles.Add(0)` branches are dead). The remainder is an `int`:
      `value * fromBase + nibbles[i]` wraps, and a remainder that wraps to
      `toBase` or more emits a quotient digit like any other. */
  method DividePass(nibbles: array<int>, length: int, fromBase: int, toBase: int) returns (newlen: int, value: int)
    requires 2 <= fromBase <= 36 && 2 <= toBase <= 36 && 0 <= length <= nibbles.Length
    modifies nibbles
    ensures 0 <= newlen <= length
    ensures PassInvariant(old(nibbles[..length]), length, nibbles[..newlen], value, fromBase, toBase)
  {
    ghost var before := nibbles[..length];
    value := 0;
    newlen := 0;
    var i := 0;
    assert before[..0] == [];
    while i < length
      invariant 0 <= newlen <= i <= length
      invariant nibbles[i..length] == before[i..] && PassInvariant(before, i, nibbles[..newlen], value, fromBase, toBase)
    {
      newlen, value := DivideDigit(nibbles, before, i, length, newlen, value, fromBase, toBase);
      i := i + 1;
    }
  }

  /** The body of the inner loop for digit `i`: `value = value * fromBase +
      nibbles[i]` in `int` arithmetic, then a quotient digit is written at
      `newlen` when the remainder reaches `toBase`, or a zero once the
      quotient has begun. */
  method DivideDigit(nibbles: array<int>, ghost before: seq<int>, i: int, length: int, newlen: int, value: int,
                     fromBase: int, toBase: int) returns (newlen': int, value': int)
    requires 2 <= fromBase <= 36 && 2 <= toBase <= 36
    requires 0 <= newlen <= i < length <= nibbles.Length && |before| == length
    requires nibbles[i..length] == before[i..] && PassInvariant(before, i, nibbles[..newlen], value, fromBase, toBase)
    modifies nibbles
    ensures 0 <= newlen' <= i + 1
    ensures nibbles[i + 1..length] == before[i + 1..]
    ensures PassInvariant(before, i + 1, nibbles[..newlen'], value', fromBase, toBase)
  {
    ghost var quot := nibbles[..newlen];
    var d := nibbles[i];
    assert d == before[i];
    value' := Wrap32(value * fromBase + d);
    newlen' := newlen;
    if value' >= toBase {
      Emit(nibbles, newlen, i, length, value' / toBase);
      newlen' := newlen + 1;
      value' := value' % toBase;
    } else if newlen > 0 {
      Emit(nibbles, newlen, i, length, 0);
      newlen' := newlen + 1;
    }
    PassStep(before, i, quot, value, nibbles[..newlen'], value', fromBase, toBase);
    assert nibbles[i + 1..length] == before[i + 1..];
  }

  /** `nibbles[newlen] = x` during a pass, where `newlen` has not overtaken the
      read index `i`: the written prefix grows by `x` and the unread digits
      after `i` stay as they were. */
  method Emit(nibbles: array<int>, newlen: int, i: int, length: int, x: int)
    requires 0 <= newlen <= i < length <= nibbles.Length
    modifies nibbles
    ensures nibbles[..newlen + 1] == old(nibbles[..newlen]) + [x]
    ensures nibbles[i + 1..length] == old(nibbles[i + 1..length])
  {
    nibbles[newlen] := x;
  }

  /** After a pass that leaves quotient `quot` and remainder `value`, the base
      `toBase` numeral of the number is that of the quotient followed by `value`,
      or `value` alone when the quotient is empty; a non-empty quotient is smaller
      than the number. */
  lemma OuterStep(whole: int, quot: seq<int>, value: int, fromBase: nat, toBase: nat)
    requires 2 <= fromBase && 2 <= toBase && NonNeg(quot) && (|quot| > 0 ==> quot[0] >= 1)
    requires 0 <= value < toBase && whole == ValueOf(quot, fromBase) * toBase + value
    ensures 0 <= ValueOf(quot, fromBase) && 0 <= whole
    ensures |quot| == 0 ==> Numeral(whole, toBase) == [value]
    ensures |quot| > 0 ==>
      (ValueOf(quot, fromBase) < whole
       && Numeral(whole, toBase) == Numeral(ValueOf(quot, fromBase), toBase) + [value])
  {
    ValueOfNonNeg(quot, fromBase);
    NumeralSplit(whole, ValueOf(quot, fromBase), value, toBase);
  }

  /** `whole` = `q` * `b` + `value`: the numeral of `whole` is that of `q` followed
      by the digit `value`, or `value` alone when `q` is zero. */
  lemma NumeralSplit(whole: int, q: int, value: int, b: nat)
    requires 2 <= b && 0 <= q && 0 <= value < b && whole == q * b + value
    ensures 0 <= whole
    ensures q == 0 ==> Numeral(whole, b) == [value]
    ensures q > 0 ==> q < whole && Numeral(whole, b) == Numeral(q, b) + [value]
  {
    MulMonotone(0, q, b);
    if q > 0 {
      MulMonotone(1, q, b);
      MulMonotone(2, b, q);
      DivModUnique(whole, b, q, value);
    }
  }

  /** One turn of the loop of `DivideOut` over small non-negative digits: the
      remainder goes in front of the digits already produced, with the
      quotient's numeral (if any) before it. */
  lemma OuterAdvance(n: int, current: seq<int>, quot: seq<int>, value: int,
                     digits: seq<int>, fromBase: nat, toBase: nat)
    requires 2 <= fromBase && 2 <= toBase && NonNeg(current) && Small(current)
    requires n >= 0 && ValueOf(current, fromBase) >= 0
    requires Numeral(n, toBase) == Numeral(ValueOf(current, fromBase), toBase) + digits
    requires IsDigits(digits, toBase)
    requires PassInvariant(current, |current|, quot, value, fromBase, toBase)
    ensures NonNeg(quot) && Small(quot) && 0 <= ValueOf(quot, fromBase) && 0 <= value < toBase
    ensures |quot| == 0 ==> Numeral(n, toBase) == [value] + digits
    ensures |quot| > 0 ==>
              (ValueOf(quot, fromBase) < ValueOf(current, fromBase)
               && Numeral(n, toBase) == Numeral(ValueOf(quot, fromBase), toBase) + ([value] + digits))
  {
    assert current[..|current|] == current;
    var v, q := ValueOf(current, fromBase), ValueOf(quot, fromBase);
    assert NonNeg(quot) && (|quot| > 0 ==> quot[0] >= 1) && 0 <= value < toBase && v == q * toBase + value;
    OuterStep(v, quot, value, fromBase, toBase);
    if |quot| > 0 {
      ConcatAssoc(Numeral(q, toBase), [value], digits);
    }
  }

  /** Behind a leading -1, every prefix of the digits denotes a negative number
      of at least -fromBase^(|ds|-1). While that bound fits an `int`, nothing
      wraps: the pass emits nothing and leaves a negative remainder, so
      `CharList[value]` throws. */
  lemma NegativePass(ds: seq<int>, fromBase: nat, toBase: int)
    requires 2 <= fromBase && 2 <= toBase && LeadingUnknown(ds, fromBase)
    requires Pow(fromBase, |ds| - 1) <= 0x8000_0000
    ensures Quiet(ds, |ds|, fromBase, toBase) && Wrap32(ValueOf(ds, fromBase)) <= -1
  {
    forall j | 1 <= j <= |ds|
      ensures MinInt <= ValueOf(ds[..j], fromBase) <= -1
    {
      NegativePrefix(ds, j, fromBase);
    }
    assert ds[..|ds|] == ds;
  }

  lemma NegativePrefix(ds: seq<int>, j: int, fromBase: nat)
    requires 2 <= fromBase && LeadingUnknown(ds, fromBase) && 1 <= j <= |ds|
    requires Pow(fromBase, |ds| - 1) <= 0x8000_0000
    ensures MinInt <= ValueOf(ds[..j], fromBase) <= -1
  {
    var t := ds[1..j];
    assert ds[..j] == [-1] + t;
    ValueOfCons(-1, t, fromBase);
    assert IsDigits(t, fromBase);
    ValueOfBounds(t, fromBase);
    PowMonotone(fromBase, |t|, |ds| - 1);
  }

  /** The `do { … } while (newlen != 0)` loop of `Convert`: divides by `toBase`
      until the quotient is zero, prepending each remainder's character from
      `list` to the result; a negative remainder makes `CharList[value]` throw.
      Small non-negative digits give the numeral of their value in `toBase`.
      When the first pass emits nothing (a leading -1 and few enough digits,
      or a prefix that wraps to a small value) the wrapped remainder decides
      alone. Each pass shortens the digit list or, when every digit emitted a
      quotient digit, lowers the first digit, so the loop ends for any
      digits. */
  method DivideOut(nibbles: array<int>, fromBase: int, toBase: int, list: string) returns (r: Result<string>)
    requires 2 <= fromBase <= 36 && 2 <= toBase <= |list| && toBase <= 36
    modifies nibbles
    ensures r.Ok? || r == Err(IndexOutOfRange)
    ensures NonNeg(old(nibbles[..])) && Small(old(nibbles[..])) ==>
      r == Ok(Rebased(old(nibbles[..]), fromBase, toBase, list))
    ensures Quiet(old(nibbles[..]), nibbles.Length, fromBase, toBase) ==>
      r == OnePass(old(nibbles[..]), fromBase, toBase, list)
  {
    ghost var input := nibbles[..];
    ghost var exact := NonNeg(input) && Small(input);
    ghost var n := ValueOf(input, fromBase);
    ghost var digits: seq<int> := [];
    ghost var first := true;
    if exact {
      ValueOfNonNeg(input, fromBase);
    }
    var length := nibbles.Length;
    var result: string := "";
    ghost var current := input;
    assert nibbles[..length] == input;
    while true
      invariant 0 <= length <= nibbles.Length && nibbles[..length] == current
      invariant first ==> current == input && digits == [] && result == ""
      invariant !first ==> !Quiet(input, |input|, fromBase, toBase)
      invariant exact ==> NonNeg(current) && Small(current) && n >= 0 && ValueOf(current, fromBase) >= 0
      invariant exact ==> Numeral(n, toBase) == Numeral(ValueOf(current, fromBase), toBase) + digits
      invariant IsDigits(digits, toBase) && result == Spell(digits, list)
      decreases length, if 0 < length then Wrap32(nibbles[0]) else 0
    {
      ghost var head := if 0 < length then Wrap32(nibbles[0]) else 0;
      var newlen, value := DividePass(nibbles, length, fromBase, toBase);
      assert current[..length] == current;
      if first && Quiet(input, |input|, fromBase, toBase) {
        assert |nibbles[..newlen]| == 0 && value == Wrap32(ValueOf(input, fromBase));
      }
      if value < 0 {
        // CharList[value] with a negative index
        return Err(IndexOutOfRange);
      }
      if exact {
        OuterAdvance(n, current, nibbles[..newlen], value, digits, fromBase, toBase);
      }
      SpellCons(value, digits, toBase, list);
      result := [list[value]] + result;
      digits := [value] + digits;
      if newlen == 0 {
        if first && Quiet(input, |input|, fromBase, toBase) {
          assert result == [list[Wrap32(ValueOf(input, fromBase))]];
        }
        break;
      }
      current := nibbles[..newlen];
      length := newlen;
      first := false;
    }
    r := Ok(result);
  }
}
