/** Positional numerals: the value of a digit sequence, the canonical digits of
    a number, and spelling digits with a character list. Every converter of
    the identifier library is specified with these. */
module Numerals {
  import opened Clr

  /** The base-36 alphabet shared by every converter, "0123456789ABCDEFGHIJKLMNOPQRSTUVWXYZ"
      (see `AlphabetText`), written as the digit characters in order. */
  const Alphabet: string := DigitTable()

  function DigitTable(): (r: string)
    ensures |r| == 36 && forall k :: 0 <= k < 36 ==> r[k] == DigitChar(k)
  {
    seq(36, k requires 0 <= k < 36 => DigitChar(k))
  }

  function Pow(b: nat, k: nat): (p: nat)
    ensures b >= 1 ==> p >= 1
  {
    if k == 0 then 1 else b * Pow(b, k - 1)
  }

  /** The value of the big-endian digit sequence `ds` read in base `b`. The
      digits need not lie below `b`: long division produces intermediate
      sequences whose "digits" exceed the base, and their value is still this. */
  function ValueOf(ds: seq<int>, b: nat): int
  {
    if ds == [] then 0 else ValueOf(ds[..|ds| - 1], b) * b + ds[|ds| - 1]
  }

  /** Every element of `ds` is a digit of base `b`. */
  predicate IsDigits(ds: seq<int>, b: nat)
  {
    forall i :: 0 <= i < |ds| ==> 0 <= ds[i] < b
  }

  /** The canonical digits of `n` in base `b`: most significant first, no
      leading zero, and the single digit 0 for zero. */
  function Numeral(n: nat, b: nat): (ds: seq<int>)
    requires b >= 2
    ensures |ds| >= 1 && IsDigits(ds, b)
    ensures ds[0] == 0 <==> n == 0
    decreases n
  {
    if n < b then [n]
    else
      DivFacts(n, b);
      Numeral(n / b, b) + [n % b]
  }

  /** Quotient and remainder of a number at least the base. */
  lemma DivFacts(n: nat, b: nat)
    requires b >= 2 && n >= b
    ensures 1 <= n / b < n && 0 <= n % b < b && n == (n / b) * b + n % b
  {
    DivModProperties(n, b);
    var q := n / b;
    if q < 1 {
      MulMonotone(q, 0, b);
    }
    if q >= n {
      MulMonotone(n, q, b);
      MulMonotone(2, b, n);
    }
  }

  lemma ValueOfSnoc(ds: seq<int>, d: int, b: nat)
    ensures ValueOf(ds + [d], b) == ValueOf(ds, b) * b + d
  {
    assert (ds + [d])[..|ds|] == ds;
  }

  /** Reading the canonical numeral gives the number back. */
  lemma {:induction false} NumeralValue(n: nat, b: nat)
    requires b >= 2
    ensures ValueOf(Numeral(n, b), b) == n
    decreases n
  {
    if n >= b {
      var q, r := n / b, n % b;
      DivFacts(n, b);
      NumeralValue(q, b);
      assert Numeral(n, b) == Numeral(q, b) + [r];
      ValueOfSnoc(Numeral(q, b), r, b);
    }
  }

  lemma DivModUnique(n: int, b: nat, q: int, r: int)
    requires b >= 1 && n == q * b + r && 0 <= r < b
    ensures n / b == q && n % b == r
  {
    DivModProperties(n, b);
    var q', r' := n / b, n % b;
    if q' > q {
      MulMonotone(q + 1, q', b);
    } else if q' < q {
      MulMonotone(q' + 1, q, b);
    }
  }

  lemma DivModProperties(n: int, b: nat)
    requires b >= 1
    ensures n == (n / b) * b + n % b && 0 <= n % b < b
  {
  }

  lemma MulAssoc(a: int, b: int, c: int)
    ensures a * (b * c) == (a * b) * c
  {
  }

  lemma MulMonotone(v: int, w: int, b: nat)
    requires v <= w
    ensures v * b <= w * b
  {
  }

  lemma {:induction false} PowMonotone(b: nat, j: nat, k: nat)
    requires b >= 1 && j <= k
    ensures Pow(b, j) <= Pow(b, k)
    decreases k
  {
    if j < k {
      PowMonotone(b, j, k - 1);
      MulMonotone(1, b, Pow(b, k - 1));
    }
  }

  lemma {:induction false} PowAdd(b: nat, j: nat, k: nat)
    ensures Pow(b, j + k) == Pow(b, j) * Pow(b, k)
    decreases j
  {
    if j > 0 {
      PowAdd(b, j - 1, k);
      MulAssoc(b, Pow(b, j - 1), Pow(b, k));
    }
  }

  lemma {:induction false} PowBaseMonotone(a: nat, b: nat, k: nat)
    requires a <= b
    ensures Pow(a, k) <= Pow(b, k)
    decreases k
  {
    if k > 0 {
      PowBaseMonotone(a, b, k - 1);
      MulMonotone(Pow(a, k - 1), Pow(b, k - 1), a);
      MulMonotone(a, b, Pow(b, k - 1));
    }
  }

  /** 36^12 is the largest power of 36 below 2^63. */
  lemma Pow36Twelve()
    ensures Pow(36, 12) == 4738381338321616896 < MaxLong
  {
    assert Pow(36, 6) == 2176782336;
    PowAdd(36, 6, 6);
  }

  /** 2^63 < r^64 for any radix r >= 2: a `long` magnitude has at most 64 digits. */
  lemma RadixPow64(r: nat)
    requires 2 <= r
    ensures Pow(r, 64) > MaxLong
  {
    assert Pow(2, 8) == 256;
    PowAdd(2, 8, 8);
    assert Pow(2, 16) == 65536;
    PowAdd(2, 16, 16);
    assert Pow(2, 32) == 4294967296;
    PowAdd(2, 32, 32);
    assert Pow(2, 64) == 18446744073709551616;
    PowBaseMonotone(2, r, 64);
  }

  /** Every element of `ds` is non-negative (a character that was found in the list). */
  predicate NonNeg(ds: seq<int>)
  {
    forall i :: 0 <= i < |ds| ==> ds[i] >= 0
  }

  lemma {:induction false} ValueOfNonNeg(ds: seq<int>, b: nat)
    requires NonNeg(ds)
    ensures ValueOf(ds, b) >= 0
    ensures |ds| >= 1 && ds[0] >= 1 && b >= 1 ==> ValueOf(ds, b) >= 1
    decreases |ds|
  {
    if ds != [] {
      var p := ds[..|ds| - 1];
      ValueOfNonNeg(p, b);
      if |ds| >= 2 && b >= 1 && ds[0] >= 1 {
        MulMonotone(1, ValueOf(p, b), b);
      }
    }
  }

  /** A digit sequence of length k denotes a value below b^k. */
  lemma {:induction false} ValueOfBounds(ds: seq<int>, b: nat)
    requires b >= 1 && IsDigits(ds, b)
    ensures 0 <= ValueOf(ds, b) < Pow(b, |ds|)
    decreases |ds|
  {
    if ds != [] {
      var p := ds[..|ds| - 1];
      ValueOfBounds(p, b);
      BoundStep(ValueOf(p, b), Pow(b, |p|), ds[|ds| - 1], b);
    }
  }

  /** Appending a digit to a number below m gives a number below m * b. */
  lemma BoundStep(v: int, m: int, d: int, b: int)
    requires 0 <= v < m && 0 <= d < b
    ensures 0 <= v * b + d < b * m
  {
    MulMonotone(v, m - 1, b);
    MulMonotone(0, v, b);
  }

  /** A digit sequence whose first digit is not zero denotes at least b^(k-1). */
  lemma {:induction false} ValueOfLeading(ds: seq<int>, b: nat)
    requires b >= 1 && IsDigits(ds, b) && |ds| >= 1 && ds[0] >= 1
    ensures ValueOf(ds, b) >= Pow(b, |ds| - 1)
    decreases |ds|
  {
    if |ds| > 1 {
      var p := ds[..|ds| - 1];
      ValueOfLeading(p, b);
      var v := ValueOf(p, b);
      var m := Pow(b, |p| - 1);
      assert ValueOf(ds, b) == v * b + ds[|ds| - 1];
      MulMonotone(m, v, b);
      assert Pow(b, |ds| - 1) == b * m;
    }
  }

  /** The value of a sequence read from its most significant digit. */
  lemma {:induction false} ValueOfCons(d: int, t: seq<int>, b: nat)
    ensures ValueOf([d] + t, b) == d * Pow(b, |t|) + ValueOf(t, b)
    decreases |t|
  {
    if t != [] {
      var p := t[..|t| - 1];
      assert ([d] + t)[..|t|] == [d] + p;
      ValueOfCons(d, p, b);
      ConsStep(d, Pow(b, |p|), ValueOf(p, b), t[|t| - 1], b);
    }
  }

  lemma ConsStep(d: int, m: int, v: int, last: int, b: int)
    ensures (d * m + v) * b + last == d * (b * m) + (v * b + last)
  {
  }

  /** Of two digit sequences of the same length, the one with the smaller
      value has the smaller digit where they first differ. */
  lemma {:induction false} ValueOrder(xs: seq<int>, ys: seq<int>, b: nat)
    requires b >= 1 && IsDigits(xs, b) && IsDigits(ys, b) && |xs| == |ys|
    requires ValueOf(xs, b) < ValueOf(ys, b)
    ensures exists k :: 0 <= k < |xs| && xs[..k] == ys[..k] && xs[k] < ys[k]
    decreases |xs|
  {
    if xs != [] {
      var xt, yt := xs[1..], ys[1..];
      assert xs == [xs[0]] + xt && ys == [ys[0]] + yt;
      ValueOfCons(xs[0], xt, b);
      ValueOfCons(ys[0], yt, b);
      ValueOfBounds(xt, b);
      ValueOfBounds(yt, b);
      if xs[0] < ys[0] {
        assert xs[..0] == ys[..0];
      } else if xs[0] == ys[0] {
        ValueOrder(xt, yt, b);
        var k :| 0 <= k < |xt| && xt[..k] == yt[..k] && xt[k] < yt[k];
        assert xs[..k + 1] == [xs[0]] + xt[..k] && ys[..k + 1] == [ys[0]] + yt[..k];
        assert xs[k + 1] == xt[k] && ys[k + 1] == yt[k];
      } else {
        LeadingDigitDominates(xs[0], ys[0], ValueOf(xt, b), ValueOf(yt, b), Pow(b, |xt|));
        assert false;
      }
    }
  }

  /** A larger leading digit outweighs everything after it. */
  lemma LeadingDigitDominates(x: int, y: int, vx: int, vy: int, p: int)
    requires x > y && 0 <= vx && 0 <= vy < p
    ensures x * p + vx > y * p + vy
  {
    MulMonotone(y + 1, x, p);
  }

  /** `k` zero digits. */
  function Zeros(k: nat): (z: seq<int>)
    ensures |z| == k && forall i :: 0 <= i < k ==> z[i] == 0
  {
    if k == 0 then [] else [0] + Zeros(k - 1)
  }

  /** Leading zeros do not change the value. */
  lemma {:induction false} LeadingZeros(k: nat, t: seq<int>, b: nat)
    ensures ValueOf(Zeros(k) + t, b) == ValueOf(t, b)
    decreases k
  {
    if k > 0 {
      var rest := Zeros(k - 1) + t;
      assert Zeros(k) + t == [0] + rest;
      ValueOfCons(0, rest, b);
      LeadingZeros(k - 1, t, b);
    } else {
      assert Zeros(k) + t == t;
    }
  }

  /** The canonical numeral is the only digit sequence without a leading zero
      that denotes `n`. */
  lemma {:induction false} NumeralUnique(ds: seq<int>, n: nat, b: nat)
    requires b >= 2 && IsDigits(ds, b) && |ds| >= 1 && (ds[0] != 0 || |ds| == 1)
    requires ValueOf(ds, b) == n
    ensures ds == Numeral(n, b)
    decreases |ds|
  {
    if |ds| == 1 {
      assert ds[..0] == [];
    } else {
      var p := ds[..|ds| - 1];
      var last := ds[|ds| - 1];
      ValueOfLeading(p, b);
      ValueOfBounds(p, b);
      var v := ValueOf(p, b);
      assert n == v * b + last;
      MulMonotone(1, v, b);
      DivModUnique(n, b, v, last);
      NumeralUnique(p, v, b);
      assert ds == p + [last];
    }
  }

  /** The canonical numeral of n has at most k digits exactly when n < b^k. */
  lemma NumeralLength(n: nat, b: nat, k: nat)
    requires b >= 2 && k >= 1
    ensures |Numeral(n, b)| <= k <==> n < Pow(b, k)
  {
    var ds := Numeral(n, b);
    NumeralValue(n, b);
    ValueOfBounds(ds, b);
    if |ds| <= k {
      PowMonotone(b, |ds|, k);
    } else {
      ValueOfLeading(ds, b);
      PowMonotone(b, k, |ds| - 1);
    }
  }

  /** `list.IndexOf(c)`: the first position of `c`, or -1. */
  function IndexOf(c: char, list: string): (r: int)
    ensures -1 <= r < |list|
    ensures r >= 0 ==> list[r] == c && forall j :: 0 <= j < r ==> list[j] != c
    ensures r == -1 <==> c !in list
  {
    if list == [] then -1
    else if list[0] == c then 0
    else var k := IndexOf(c, list[1..]); if k < 0 then -1 else k + 1
  }

  /** Each character mapped through `IndexOf`, as `number.Select(c => CharList.IndexOf(c))` does. */
  function Indices(s: string, list: string): (r: seq<int>)
    ensures |r| == |s| && forall i :: 0 <= i < |s| ==> r[i] == IndexOf(s[i], list)
  {
    seq(|s|, i requires 0 <= i < |s| => IndexOf(s[i], list))
  }

  /** Every character of `s` is found in `list`. */
  predicate AllIn(s: string, list: string)
  {
    forall i :: 0 <= i < |s| ==> s[i] in list
  }

  /** Digits written with the characters of `list`. */
  function Spell(ds: seq<int>, list: string): (r: string)
    requires IsDigits(ds, |list|)
    ensures |r| == |ds| && forall i :: 0 <= i < |ds| ==> r[i] == list[ds[i]]
  {
    seq(|ds|, i requires 0 <= i < |ds| => list[ds[i]])
  }

  /** No character occurs twice in `list`. */
  predicate Distinct(list: string)
  {
    forall i, j :: 0 <= i < j < |list| ==> list[i] != list[j]
  }

  /** Spelling with a list of distinct characters loses nothing. */
  lemma SpellIndices(ds: seq<int>, list: string)
    requires Distinct(list) && IsDigits(ds, |list|)
    ensures Indices(Spell(ds, list), list) == ds
  {
    var s := Spell(ds, list);
    forall i | 0 <= i < |ds| ensures IndexOf(s[i], list) == ds[i] {
      var r := IndexOf(s[i], list);
      assert list[ds[i]] == s[i];
    }
  }

  function DigitChar(k: int): char
    requires 0 <= k < 36
  {
    if k < 10 then (48 + k) as char else (55 + k) as char
  }

  /** The alphabet is 0-9 followed by A-Z. */
  lemma AlphabetShape()
    ensures |Alphabet| == 36
    ensures forall k :: 0 <= k < 36 ==> Alphabet[k] == DigitChar(k)
    ensures Distinct(Alphabet)
  {
  }

  lemma AlphabetText()
    ensures Alphabet == "0123456789ABCDEFGHIJKLMNOPQRSTUVWXYZ"
  {
  }

  /** Prepending a digit prepends its character. */
  lemma SpellCons(d: int, ds: seq<int>, b: nat, list: string)
    requires 0 <= d < b <= |list| && IsDigits(ds, b)
    ensures IsDigits(ds, |list|) && IsDigits([d] + ds, b)
    ensures Spell([d] + ds, list) == [list[d]] + Spell(ds, list)
  {
    var ds' := [d] + ds;
    var lhs := Spell(ds', list);
    var rhs := [list[d]] + Spell(ds, list);
    forall i | 0 <= i < |lhs| ensures lhs[i] == rhs[i] {
      if i > 0 {
        assert ds'[i] == ds[i - 1];
      }
    }
  }

  /** Upper-casing leaves every alphabet character alone. */
  lemma UpperOfAlphabetText(s: string)
    requires AllIn(s, Alphabet)
    ensures Upper(s) == s
  {
    AlphabetShape();
    forall i | 0 <= i < |s| ensures UpperChar(s[i]) == s[i] {
      var k :| 0 <= k < 36 && Alphabet[k] == s[i];
    }
  }

  /** The text of `n` in base `radix`: a '-' for a negative number, then the
      canonical digits of its magnitude. */
  function SignedText(n: int, radix: nat): (r: string)
    requires 2 <= radix <= 36
    ensures n < 0 ==> |r| >= 2 && r[0] == '-' && r[1..] == Spell(Numeral(-n, radix), Alphabet)
    ensures n >= 0 ==> r == Spell(Numeral(n, radix), Alphabet)
  {
    AlphabetShape();
    (if n < 0 then "-" else "") + Spell(Numeral(Abs(n), radix), Alphabet)
  }

  /** `long.ToString(CultureInfo.InvariantCulture)`. */
  function DecimalText(n: int): string
  {
    SignedText(n, 10)
  }

  /** The canonical digits of `n`, except that zero has none: what repeated
      division by `b` until nothing is left produces. */
  function Digits(n: nat, b: nat): seq<int>
    requires b >= 2
  {
    if n == 0 then [] else Numeral(n, b)
  }

  lemma ConcatAssoc<T>(a: seq<T>, b: seq<T>, c: seq<T>)
    ensures (a + b) + c == a + (b + c)
  {
  }

  /** Peeling off the last digit of a positive number. */
  lemma DigitsStep(n: nat, b: nat)
    requires b >= 2 && n > 0
    ensures Digits(n, b) == Digits(n / b, b) + [n % b]
  {
    if n < b {
      DivModUnique(n, b, 0, n);
    }
  }

  /** A sequence of alphabet indices, each a digit of base 36 or the -1 that
      `IndexOf` gives for a character outside the alphabet, denotes a number of
      magnitude below 36^length. */
  lemma {:induction false} ValueOfMagnitude(ds: seq<int>)
    requires forall i :: 0 <= i < |ds| ==> -1 <= ds[i] < 36
    ensures -(Pow(36, |ds|) as int) < ValueOf(ds, 36) < Pow(36, |ds|)
    decreases |ds|
  {
    if ds != [] {
      var init := ds[..|ds| - 1];
      var v := ValueOf(init, 36);
      var p: int := Pow(36, |init|);
      ValueOfMagnitude(init);
      MulMonotone(v, p - 1, 36);
      MulMonotone(1 - p, v, 36);
      assert Pow(36, |ds|) == 36 * p;
    }
  }

  /** Dividing a positive number by a base of at least 2 makes it smaller. */
  lemma DivShrinks(n: nat, b: nat)
    requires b >= 2 && n > 0
    ensures n / b < n
  {
    var q := n / b;
    DivModProperties(n, b);
    if q >= n {
      MulMonotone(n, q, b);
      MulMonotone(2, b, n);
      assert false;
    }
  }

  /** Dividing by the base drops one power of the base from an upper bound. */
  lemma DivBound(n: nat, b: nat, k: nat)
    requires b >= 2 && n < Pow(b, k + 1)
    ensures n / b < Pow(b, k)
  {
    DivModProperties(n, b);
    if n / b >= Pow(b, k) {
      MulMonotone(Pow(b, k), n / b, b);
    }
  }

  /** The text of the canonical base-`toBase` numeral of the number that the
      digits `ds` denote in base `fromBase`: what a base conversion must return. */
  function Rebased(ds: seq<int>, fromBase: nat, toBase: nat, list: string): (r: string)
    requires NonNeg(ds) && 2 <= toBase <= |list|
  {
    ValueOfNonNeg(ds, fromBase);
    var ns := Numeral(ValueOf(ds, fromBase), toBase);
    assert IsDigits(ns, |list|);
    Spell(ns, list)
  }

  /** The minimal base-36 text of `n`: "0" for zero, otherwise no leading '0'. */
  function Base36Of(n: nat): (r: string)
    ensures |r| >= 1 && AllIn(r, Alphabet)
    ensures r == "0" <==> n == 0
    ensures |r| > 1 ==> r[0] != '0'
  {
    AlphabetShape();
    var ds := Numeral(n, 36);
    var r := Spell(ds, Alphabet);
    assert forall i :: 0 <= i < |r| ==> r[i] in Alphabet;
    assert r[0] == '0' <==> ds[0] == 0;
    assert n == 0 ==> r == "0";
    r
  }

  /** The base-36 value of `s` as `Base36Converter.Decode` reads it: upper-cased,
      each character replaced by its index in the alphabet (-1 when absent). */
  function DecodeValue(s: string): int
  {
    ValueOf(Indices(Upper(s), Alphabet), 36)
  }

  /** Decoding the minimal base-36 text of n gives n. */
  lemma DecodeBase36Of(n: nat)
    ensures DecodeValue(Base36Of(n)) == n
  {
    AlphabetShape();
    UpperOfAlphabetText(Base36Of(n));
    SpellIndices(Numeral(n, 36), Alphabet);
    NumeralValue(n, 36);
  }

  /** The minimal base-36 text of n has at most k characters exactly when n < 36^k. */
  lemma Base36OfLength(n: nat, k: nat)
    requires k >= 1
    ensures |Base36Of(n)| <= k <==> n < Pow(36, k)
  {
    NumeralLength(n, 36, k);
  }
}
