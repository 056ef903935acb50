/** The text the current generator makes of the SHA-1 digest of the host name:
    `BitConverter.ToString` of the digest bytes ("4F-0A-..."), cut to its first
    14 characters, which `Base36Converter.FromHex` then reads. */
module DigestText {
  import opened Clr
  import opened Numerals
  import BaseConverter
  import Base36Converter

  /** A byte as two upper-case hexadecimal digits. */
  function HexPair(b: int): (r: string)
    requires 0 <= b < 256
    ensures |r| == 2 && r[0] in Alphabet && r[1] in Alphabet
  {
    [Alphabet[b / 16], Alphabet[b % 16]]
  }

  /** `BitConverter.ToString(bytes)`: the bytes as hexadecimal pairs, separated by '-'. */
  function ByteText(bs: seq<int>): (r: string)
    requires IsDigits(bs, 256)
    ensures bs != [] ==> |r| == 3 * |bs| - 1
    ensures forall i :: 0 <= i < |r| ==> r[i] == '-' || r[i] in Alphabet
  {
    if bs == [] then ""
    else if |bs| == 1 then HexPair(bs[0])
    else ByteText(bs[..|bs| - 1]) + "-" + HexPair(bs[|bs| - 1])
  }

  /** The hexadecimal digits of the bytes, high digit of each byte first. */
  function Nibbles(bs: seq<int>): (ns: seq<int>)
    requires IsDigits(bs, 256)
    ensures |ns| == 2 * |bs| && IsDigits(ns, 16)
  {
    if bs == [] then []
    else
      var b := bs[|bs| - 1];
      Nibbles(bs[..|bs| - 1]) + [b / 16, b % 16]
  }

  /** The hexadecimal digits denote the same number as the bytes in base 256. */
  lemma {:induction false} NibblesValue(bs: seq<int>)
    requires IsDigits(bs, 256)
    ensures ValueOf(Nibbles(bs), 16) == ValueOf(bs, 256)
    decreases |bs|
  {
    if bs != [] {
      var init, b := bs[..|bs| - 1], bs[|bs| - 1];
      var ni := Nibbles(init);
      NibblesValue(init);
      assert Nibbles(bs) == (ni + [b / 16]) + [b % 16];
      ValueOfSnoc(ni + [b / 16], b % 16, 16);
      ValueOfSnoc(ni, b / 16, 16);
      DivModProperties(b, 16);
      assert ValueOf(bs, 256) == ValueOf(init, 256) * 256 + b;
    }
  }

  /** The first 3k-1 characters of the text are the text of the first k bytes. */
  lemma {:induction false} ByteTextPrefix(bs: seq<int>, k: nat)
    requires IsDigits(bs, 256) && 1 <= k <= |bs|
    ensures ByteText(bs)[..3 * k - 1] == ByteText(bs[..k])
    decreases |bs|
  {
    if k < |bs| {
      var init := bs[..|bs| - 1];
      ByteTextPrefix(init, k);
      assert init[..k] == bs[..k];
      if |bs| > 1 {
        assert ByteText(bs)[..3 * k - 1] == ByteText(init)[..3 * k - 1];
      }
    } else {
      assert bs[..k] == bs;
    }
  }

  /** Dropping the dashes leaves the hexadecimal digits, spelled with the alphabet. */
  lemma {:induction false} ByteTextDigits(bs: seq<int>)
    requires IsDigits(bs, 256)
    ensures Remove(ByteText(bs), {'-'}) == Spell(Nibbles(bs), Alphabet)
    decreases |bs|
  {
    if bs != [] {
      var init, b := bs[..|bs| - 1], bs[|bs| - 1];
      PairDigits(b);
      if |bs| == 1 {
        assert Nibbles(bs) == [b / 16, b % 16];
      } else {
        ByteTextDigits(init);
        RemoveConcat(ByteText(init) + "-", HexPair(b), {'-'});
        RemoveConcat(ByteText(init), "-", {'-'});
        assert Remove("-", {'-'}) == [];
        SpellAppend(Nibbles(init), [b / 16, b % 16], Alphabet);
      }
    }
  }

  /** One byte's pair has no dash and spells its two hexadecimal digits. */
  lemma PairDigits(b: int)
    requires 0 <= b < 256
    ensures Remove(HexPair(b), {'-'}) == Spell([b / 16, b % 16], Alphabet)
  {
    AlphabetShape();
    RemoveNone(HexPair(b), {'-'});
  }

  lemma SpellAppend(xs: seq<int>, ys: seq<int>, list: string)
    requires IsDigits(xs, |list|) && IsDigits(ys, |list|)
    ensures IsDigits(xs + ys, |list|)
    ensures Spell(xs + ys, list) == Spell(xs, list) + Spell(ys, list)
  {
    assert forall i :: 0 <= i < |xs + ys| ==> (xs + ys)[i] == if i < |xs| then xs[i] else ys[i - |xs|];
  }

  /** Upper-casing leaves the text alone. */
  lemma ByteTextUpper(bs: seq<int>)
    requires IsDigits(bs, 256)
    ensures Upper(ByteText(bs)) == ByteText(bs)
  {
    AlphabetShape();
    var t := ByteText(bs);
    forall i | 0 <= i < |t| ensures UpperChar(t[i]) == t[i] {
      if t[i] != '-' {
        var k :| 0 <= k < 36 && Alphabet[k] == t[i];
      }
    }
  }

  /** The `hashHex` of `ComputeHostHash`: the digest text, cut to 14 characters
      (five bytes) when longer. */
  function HashHex(digest: seq<int>): (r: string)
    requires IsDigits(digest, 256)
    ensures |digest| >= 5 ==> r == ByteText(digest[..5])
  {
    var t := ByteText(digest);
    if |t| > 14 then
      ByteTextPrefix(digest, 5);
      t[..14]
    else
      assert |digest| >= 5 ==> digest[..5] == digest;
      t
  }

  /** What `FromHex` reads from such text: the digits of the bytes, no character
      outside the alphabet. */
  lemma HexDigitsOfByteText(bs: seq<int>)
    requires IsDigits(bs, 256)
    ensures AllIn(BaseConverter.Strip(Base36Converter.HexText(ByteText(bs))), Alphabet)
    ensures Base36Converter.HexDigits(ByteText(bs)) == Nibbles(bs)
  {
    AlphabetShape();
    ByteTextUpper(bs);
    ByteTextDigits(bs);
    var s := Spell(Nibbles(bs), Alphabet);
    assert forall i :: 0 <= i < |s| ==> s[i] !in BaseConverter.Separators by {
      forall i | 0 <= i < |s| ensures s[i] !in BaseConverter.Separators {
        assert s[i] == DigitChar(Nibbles(bs)[i]);
      }
    }
    RemoveNone(s, BaseConverter.Separators);
    assert AllIn(s, Alphabet) by {
      forall i | 0 <= i < |s| ensures s[i] in Alphabet {
        assert s[i] == Alphabet[Nibbles(bs)[i]];
      }
    }
    SpellIndices(Nibbles(bs), Alphabet);
  }

  /** The host hash is the base-36 text of the first five digest bytes read as
      a big-endian number, so it has at most eight characters. */
  lemma HostHashValue(digest: seq<int>)
    requires IsDigits(digest, 256) && |digest| >= 5
    ensures 0 <= ValueOf(digest[..5], 256) < 0x100_0000_0000
    ensures AllIn(BaseConverter.Strip(Base36Converter.HexText(HashHex(digest))), Alphabet)
    ensures Rebased(Base36Converter.HexDigits(HashHex(digest)), 16, 36, Alphabet)
         == Base36Of(ValueOf(digest[..5], 256))
    ensures |Base36Of(ValueOf(digest[..5], 256))| <= 8
  {
    var d5 := digest[..5];
    HexDigitsOfByteText(d5);
    NibblesValue(d5);
    ValueOfBounds(d5, 256);
    assert Pow(256, 5) == 1099511627776;
    assert Pow(36, 8) == 2821109907456;
    Base36OfLength(ValueOf(d5, 256), 8);
  }
}
