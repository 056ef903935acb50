/** The few pieces of .NET integer and string behaviour the identifier code
    relies on, written out over mathematical integers and `seq<char>`. */
module Clr {
  import opened Wrappers

  const MinLong: int := -0x8000_0000_0000_0000
  const MaxLong: int := 0x7FFF_FFFF_FFFF_FFFF
  const MinInt: int := -0x8000_0000
  const MaxInt: int := 0x7FFF_FFFF

  /** A value of C#'s `long`. */
  predicate IsLong(n: int) { MinLong <= n <= MaxLong }

  /** A value of C#'s `int`. */
  predicate IsInt(n: int) { MinInt <= n <= MaxInt }

  function Abs(n: int): (r: nat)
    ensures r == n || r == -n
  {
    if n < 0 then -n else n
  }

  /** C#'s integer `/`, which truncates toward zero (Dafny's `/` is Euclidean). */
  function Quot(a: int, b: int): (q: int)
    requires b > 0
    ensures a >= 0 ==> q == a / b
    ensures Abs(q) == Abs(a) / b
  {
    DivOfNat(Abs(a), b);
    if a >= 0 then a / b else -((-a) / b)
  }

  lemma DivOfNat(a: nat, b: int)
    requires b > 0
    ensures a / b >= 0
  {
  }

  /** C#'s integer `%`: the remainder takes the sign of the dividend. */
  function Rem(a: int, b: int): (r: int)
    requires b > 0
    ensures a == Quot(a, b) * b + r
    ensures -b < r < b
    ensures a >= 0 ==> r == a % b
    ensures a < 0 ==> r <= 0
  {
    a - Quot(a, b) * b
  }

  /** `char.IsWhiteSpace`: the Unicode space separators, the line and paragraph
      separators, and U+0009 to U+000D, U+0085 and U+00A0. */
  predicate IsWhiteSpace(c: char)
  {
    c == ' ' || '\t' <= c <= '\r' || c == '\U{0085}' || c == '\U{00A0}' || c == '\U{1680}'
    || '\U{2000}' <= c <= '\U{200A}' || c == '\U{2028}' || c == '\U{2029}' || c == '\U{202F}'
    || c == '\U{205F}' || c == '\U{3000}'
  }

  /** `string.IsNullOrWhiteSpace` of a non-null string. */
  predicate IsBlank(s: string)
  {
    forall i :: 0 <= i < |s| ==> IsWhiteSpace(s[i])
  }

  /** `string.Contains`: `t` occurs in `s` (the empty string occurs everywhere). */
  predicate Contains(s: string, t: string)
  {
    exists i :: 0 <= i <= |s| - |t| && OccursAt(s, t, i)
  }

  /** `t` is found in `s` starting at index `i`. */
  predicate OccursAt(s: string, t: string, i: int)
  {
    0 <= i <= |s| - |t| && s[i..i + |t|] == t
  }

  /** `s.PadLeft(n, c)`. */
  function PadLeft(s: string, n: int, c: char): (r: string)
    ensures |s| >= n ==> r == s
    ensures |s| < n ==> |r| == n && r[n - |s|..] == s
    ensures |s| < n ==> forall i :: 0 <= i < n - |s| ==> r[i] == c
  {
    if |s| >= n then s else seq(n - |s|, _ => c) + s
  }

  /** `String.Compare(a, b, StringComparison.Ordinal) < 0`: where the texts
      first differ `a` has the smaller character code, or `a` is a proper
      prefix of `b`. */
  predicate OrdinalBelow(a: string, b: string)
  {
    (exists k :: 0 <= k < |a| && k < |b| && a[..k] == b[..k] && a[k] < b[k])
    || (|a| < |b| && a == b[..|a|])
  }

  /** `char.ToUpperInvariant` restricted to ASCII letters. */
  function UpperChar(c: char): (u: char)
    ensures 'a' <= c <= 'z' ==> u as int == c as int - 32
    ensures !('a' <= c <= 'z') ==> u == c
  {
    if 'a' <= c <= 'z' then (c as int - 32) as char else c
  }

  /** `s.ToUpper()` on ASCII text. */
  function Upper(s: string): (r: string)
    ensures |r| == |s|
    ensures forall i :: 0 <= i < |s| ==> r[i] == UpperChar(s[i])
  {
    seq(|s|, i requires 0 <= i < |s| => UpperChar(s[i]))
  }

  lemma UpperIdempotent(s: string)
    ensures Upper(Upper(s)) == Upper(s)
  {
    assert forall i :: 0 <= i < |s| ==> Upper(Upper(s))[i] == Upper(s)[i];
  }

  /** `s` with every character of `drop` removed, in order; this is what
      `string.Join("", s.Split(separators, RemoveEmptyEntries))` computes for
      single-character separators. */
  function Remove(s: string, drop: set<char>): (r: string)
    ensures |r| <= |s|
    ensures forall i :: 0 <= i < |r| ==> r[i] !in drop && r[i] in s
  {
    if s == [] then []
    else if s[0] in drop then Remove(s[1..], drop)
    else [s[0]] + Remove(s[1..], drop)
  }

  lemma {:induction false} RemoveConcat(a: string, b: string, drop: set<char>)
    ensures Remove(a + b, drop) == Remove(a, drop) + Remove(b, drop)
    decreases |a|
  {
    if a == [] {
      assert a + b == b;
    } else {
      assert (a + b)[0] == a[0];
      assert (a + b)[1..] == a[1..] + b;
      RemoveConcat(a[1..], b, drop);
    }
  }

  /** Removing characters that do not occur changes nothing. */
  lemma {:induction false} RemoveNone(s: string, drop: set<char>)
    requires forall i :: 0 <= i < |s| ==> s[i] !in drop
    ensures Remove(s, drop) == s
    decreases |s|
  {
    if s != [] {
      RemoveNone(s[1..], drop);
    }
  }

  /** `s.Substring(start, len)`, which throws ArgumentOutOfRangeException naming
      the first argument found out of range. */
  function Substring(s: string, start: int, len: int): (r: Result<string>)
    ensures r.Ok? <==> 0 <= start && 0 <= len && start + len <= |s|
    ensures r.Ok? ==> r.value == s[start..start + len]
    ensures (start < 0 || start > |s|) ==> r == Err(ArgumentOutOfRange("startIndex"))
    ensures 0 <= start <= |s| && r.Err? ==> r == Err(ArgumentOutOfRange("length"))
  {
    if start < 0 || start > |s| then Err(ArgumentOutOfRange("startIndex"))
    else if len < 0 || start > |s| - len then Err(ArgumentOutOfRange("length"))
    else Ok(s[start..start + len])
  }

  /** Two's-complement wrap-around of an unchecked `long` operation: 2^64 is
      added or taken away until the value is in the `long` range. */
  function Wrap64(x: int): (r: int)
    ensures IsLong(r)
    ensures IsLong(x) ==> r == x
    decreases if x < MinLong then MinLong - x else x - MaxLong
  {
    if x < MinLong then Wrap64(x + 0x1_0000_0000_0000_0000)
    else if x > MaxLong then Wrap64(x - 0x1_0000_0000_0000_0000)
    else x
  }

  /** The wrapped value is the residue of `x` modulo 2^64 shifted into the
      `long` range. */
  lemma WrapClosedForm(x: int)
    ensures Wrap64(x) == (x - MinLong) % 0x1_0000_0000_0000_0000 + MinLong
    decreases if x < MinLong then MinLong - x else x - MaxLong
  {
    var m := 0x1_0000_0000_0000_0000;
    if x < MinLong {
      WrapClosedForm(x + m);
      assert (x + m - MinLong) % m == (x - MinLong) % m;
    } else if x > MaxLong {
      WrapClosedForm(x - m);
      assert (x - m - MinLong) % m == (x - MinLong) % m;
    }
  }

  /** Two's-complement wrap-around of an unchecked `int` operation: 2^32 is
      added or taken away until the value is in the `int` range. */
  function Wrap32(x: int): (r: int)
    ensures IsInt(r)
    ensures IsInt(x) ==> r == x
    decreases if x < MinInt then MinInt - x else x - MaxInt
  {
    if x < MinInt then Wrap32(x + 0x1_0000_0000)
    else if x > MaxInt then Wrap32(x - 0x1_0000_0000)
    else x
  }

  /** The wrapped value is the residue of `x` modulo 2^32 shifted into the
      `int` range. */
  lemma Wrap32ClosedForm(x: int)
    ensures Wrap32(x) == (x - MinInt) % 0x1_0000_0000 + MinInt
    decreases if x < MinInt then MinInt - x else x - MaxInt
  {
    var m := 0x1_0000_0000;
    if x < MinInt {
      Wrap32ClosedForm(x + m);
      assert (x + m - MinInt) % m == (x - MinInt) % m;
    } else if x > MaxInt {
      Wrap32ClosedForm(x - m);
      assert (x - m - MinInt) % m == (x - MinInt) % m;
    }
  }

  /** `StringBuilder.Length = n`: truncate, or extend with '\0'. */
  function SetLength(s: string, n: nat): (r: string)
    ensures |r| == n
    ensures forall i :: 0 <= i < n && i < |s| ==> r[i] == s[i]
    ensures forall i :: |s| <= i < n ==> r[i] == '\0'
  {
    if |s| >= n then s[..n] else s + seq(n - |s|, _ => '\0')
  }

  /** `StringBuilder.Insert(pos, t)`, which throws when `pos` lies outside [0, |s|]. */
  predicate CanInsert(s: string, pos: int) { 0 <= pos <= |s| }

  function InsertAt(s: string, pos: int, t: string): (r: string)
    requires CanInsert(s, pos)
    ensures |r| == |s| + |t|
    ensures r[..pos] == s[..pos] && r[pos..pos + |t|] == t && r[pos + |t|..] == s[pos..]
  {
    s[..pos] + t + s[pos..]
  }
}
