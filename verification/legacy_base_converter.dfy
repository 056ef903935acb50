/** `BaseConverter` of the older library (at the repository root): the same long
    division as the current one, but over a character list that callers must
    install first, and without removing separators, so a '-' reaches the
    division as the index -1. */
module LegacyBaseConverter {
  import opened Wrappers
  import opened Numerals
  import LongDivision

  /** The static state of the class: `CharList`. A null list is modelled as the
      empty text, since `Convert` treats both alike. */
  class Converter {
    var charList: string

    constructor ()
      ensures charList == []
    {
      charList := [];
    }

    /** The `CharList` setter. */
    method SetCharList(list: string)
      modifies this
      ensures charList == list
    {
      charList := list;
    }

    /** `Convert`: every character is replaced by its index in the character
        list and the number is rewritten in `toBase`. An empty list is a
        `FormatException`. A negative remainder (from a leading character
        outside the list, such as the '-' of a negative number) makes indexing
        the list throw; a list no longer than a .NET string can be gives the
        exact conversion of text made of its characters; and when the first
        pass emits nothing, the wrapped remainder alone decides. */
    method Convert(number: string, fromBase: int, toBase: int) returns (r: Result<string>)
      requires 2 <= fromBase <= 36 && 2 <= toBase <= 36
      requires charList != [] ==> toBase <= |charList|
      ensures charList == [] ==> r == Err(FormatError)
      ensures charList != [] ==> r.Ok? || r == Err(IndexOutOfRange)
      ensures charList != [] && NonNeg(Indices(number, charList)) && |charList| <= LongDivision.DigitLimit ==>
        r == Ok(Rebased(Indices(number, charList), fromBase, toBase, charList))
      ensures charList != [] && LongDivision.Quiet(Indices(number, charList), |number|, fromBase, toBase) ==>
        r == LongDivision.OnePass(Indices(number, charList), fromBase, toBase, charList)
    {
      if charList == [] {
        return Err(FormatError);
      }
      var list := charList;
      var nibbles := new int[|number|](i requires 0 <= i < |number| => IndexOf(number[i], list));
      assert nibbles[..] == Indices(number, list);
      assert |list| <= LongDivision.DigitLimit ==> LongDivision.Small(nibbles[..]);
      r := LongDivision.DivideOut(nibbles, fromBase, toBase, list);
    }
  }
}
