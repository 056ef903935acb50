/** `System.Text.StringBuilder`, as far as the identifier code uses it. */
module Text {
  import opened Clr

  class StringBuilder {
    var content: string

    constructor (s: string)
      ensures content == s
    {
      content := s;
    }

    method Clear()
      modifies this
      ensures content == []
    {
      content := [];
    }

    method Append(s: string)
      modifies this
      ensures content == old(content) + s
    {
      content := content + s;
    }

    /** Assigning `Length`: cuts the text, or extends it with '\0'. */
    method SetLength(n: nat)
      modifies this
      ensures content == Clr.SetLength(old(content), n)
    {
      content := Clr.SetLength(content, n);
    }

    /** `Insert(pos, s)`; `ok` is false where .NET throws ArgumentOutOfRangeException. */
    method Insert(pos: int, s: string) returns (ok: bool)
      modifies this
      ensures ok == CanInsert(old(content), pos)
      ensures content == if ok then InsertAt(old(content), pos, s) else old(content)
    {
      ok := CanInsert(content, pos);
      if ok {
        content := InsertAt(content, pos, s);
      }
    }
  }
}
