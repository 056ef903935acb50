/** Splicing a delimiter into an identifier at a list of offsets, as `NewId`,
    `Format` and `NewBase36String` do with `StringBuilder.Insert`, and the
    descending order the current generator keeps its offsets in. */
module Delimiting {
  import opened Wrappers
  import opened Clr
  import Text

  /** `foreach (var pos in positions) sb.Insert(pos, d)` on the text `s`: each
      insertion works on the text the previous ones produced, and the first
      offset outside the current text throws. */
  function InsertAll(s: string, positions: seq<int>, d: string): (r: Result<string>)
    ensures r.Ok? ==> |r.value| == |s| + |positions| * |d|
    ensures r.Err? ==> r.error == ArgumentOutOfRange("index")
    decreases |positions|
  {
    if positions == [] then Ok(s)
    else if !CanInsert(s, positions[0]) then Err(ArgumentOutOfRange("index"))
    else
      var r := InsertAll(InsertAt(s, positions[0], d), positions[1..], d);
      assert r.Ok? ==> |r.value| == |s| + |d| + (|positions| - 1) * |d|;
      r
  }

  /** The `foreach (var pos in positions) sb.Insert(pos, d)` loop; `ok` is
      false where an insertion throws, leaving the builder as it then is. */
  method InsertEach(sb: Text.StringBuilder, positions: seq<int>, d: string) returns (ok: bool)
    modifies sb
    ensures ok <==> InsertAll(old(sb.content), positions, d).Ok?
    ensures ok ==> sb.content == InsertAll(old(sb.content), positions, d).value
  {
    var i := 0;
    while i < |positions|
      invariant 0 <= i <= |positions|
      invariant InsertAll(sb.content, positions[i..], d) == InsertAll(old(sb.content), positions, d)
    {
      ok := sb.Insert(positions[i], d);
      if !ok {
        return;
      }
      i := i + 1;
    }
    return true;
  }

  predicate Descending(ps: seq<int>)
  {
    forall i, j :: 0 <= i < j < |ps| ==> ps[i] >= ps[j]
  }

  /** Every offset lies within a text of length n. */
  predicate Within(ps: seq<int>, n: int)
  {
    forall i :: 0 <= i < |ps| ==> 0 <= ps[i] <= n
  }

  /** The delimited text when the offsets are taken in descending order: the
      delimiter goes in front of `s[p..]` for each offset `p` of the
      undelimited text, so every offset keeps its meaning. */
  function Delimited(s: string, ps: seq<int>, d: string): string
    requires Descending(ps) && Within(ps, |s|)
    decreases |ps|
  {
    if ps == [] then s
    else Delimited(s[..ps[0]], ps[1..], d) + d + s[ps[0]..]
  }

  /** Insertions that all fall within `x` are not affected by text after it. */
  lemma {:induction false} InsertAllAppend(x: string, t: string, ps: seq<int>, d: string)
    requires Within(ps, |x|)
    ensures InsertAll(x, ps, d).Ok?
    ensures InsertAll(x + t, ps, d) == Ok(InsertAll(x, ps, d).value + t)
    decreases |ps|
  {
    if ps != [] {
      var p := ps[0];
      var x' := InsertAt(x, p, d);
      assert InsertAt(x + t, p, d) == x' + t by {
        assert (x + t)[..p] == x[..p];
        assert (x + t)[p..] == x[p..] + t;
      }
      InsertAllAppend(x', t, ps[1..], d);
    }
  }

  /** With offsets in descending order, all within the text, every insertion
      succeeds and the result is `Delimited`. */
  lemma {:induction false} InsertAllDescending(s: string, ps: seq<int>, d: string)
    requires Descending(ps) && Within(ps, |s|)
    ensures InsertAll(s, ps, d) == Ok(Delimited(s, ps, d))
    decreases |ps|
  {
    if ps != [] {
      var p := ps[0];
      var rest := ps[1..];
      assert Within(rest, p);
      assert InsertAt(s, p, d) == s[..p] + (d + s[p..]);
      assert InsertAll(s, ps, d) == InsertAll(s[..p] + (d + s[p..]), rest, d);
      InsertAllAppend(s[..p], d + s[p..], rest, d);
      InsertAllDescending(s[..p], rest, d);
      assert Delimited(s, ps, d) == Delimited(s[..p], rest, d) + (d + s[p..]);
    }
  }

  /** After at least one successful insertion the text contains the delimiter:
      the last insertion leaves it in place. */
  lemma {:induction false} InsertAllContains(s: string, ps: seq<int>, d: string)
    ensures |ps| > 0 && InsertAll(s, ps, d).Ok? ==> Contains(InsertAll(s, ps, d).value, d)
    decreases |ps|
  {
    if |ps| > 0 && CanInsert(s, ps[0]) {
      var s' := InsertAt(s, ps[0], d);
      if |ps| == 1 {
        assert InsertAll(s, ps, d) == Ok(s');
        assert OccursAt(s', d, ps[0]);
      } else {
        InsertAllContains(s', ps[1..], d);
      }
    }
  }

  /** `x` inserted into the descending sequence `ps` at the first place where it
      is not smaller than what follows. */
  function InsertDescending(x: int, ps: seq<int>): (r: seq<int>)
    requires Descending(ps)
    ensures Descending(r) && multiset(r) == multiset(ps) + multiset{x}
    ensures |r| == |ps| + 1 && (r[0] == x || (|ps| > 0 && r[0] == ps[0]))
    decreases |ps|
  {
    if ps == [] || x >= ps[0] then
      DescendingCons(x, ps);
      [x] + ps
    else
      var tail := InsertDescending(x, ps[1..]);
      assert ps == [ps[0]] + ps[1..];
      assert multiset(ps) == multiset{ps[0]} + multiset(ps[1..]);
      DescendingCons(ps[0], tail);
      var r := [ps[0]] + tail;
      assert r[0] == ps[0] && multiset(r) == multiset{ps[0]} + multiset(tail);
      r
  }

  /** A head no smaller than the first element keeps a descending sequence
      descending. */
  lemma DescendingCons(h: int, t: seq<int>)
    requires Descending(t) && (|t| > 0 ==> h >= t[0])
    ensures Descending([h] + t)
  {
    var s := [h] + t;
    forall i, j | 0 <= i < j < |s| ensures s[i] >= s[j] {
      if i == 0 {
        assert s[j] == t[j - 1] && t[0] >= t[j - 1];
      } else {
        assert s[i] == t[i - 1] && s[j] == t[j - 1];
      }
    }
  }

  /** `OrderByDescending(x => x)`: the same offsets, largest first. */
  function SortDescending(ps: seq<int>): (r: seq<int>)
    ensures Descending(r) && multiset(r) == multiset(ps) && |r| == |ps|
    decreases |ps|
  {
    if ps == [] then []
    else
      assert ps == [ps[0]] + ps[1..];
      InsertDescending(ps[0], SortDescending(ps[1..]))
  }

  /** Offsets already in descending order come out of the sort unchanged. */
  lemma {:induction false} SortDescendingSorted(ps: seq<int>)
    requires Descending(ps)
    ensures SortDescending(ps) == ps
    decreases |ps|
  {
    if ps != [] {
      SortDescendingSorted(ps[1..]);
      assert ps == [ps[0]] + ps[1..];
      if |ps| > 1 {
        assert ps[0] >= ps[1];
      }
    }
  }
}
