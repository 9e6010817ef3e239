/**
  The one piece of System.String behaviour both core files rely on:
  `string.Replace(char oldChar, char newChar)`, which returns a copy of the
  string with every occurrence of `oldChar` replaced by `newChar`.
*/
module DotNetStrings {

  /**
    Character-by-character replacement, as `s.Replace(oldChar, newChar)`.
    What happens at each position is stated by `ReplaceCharacters`.
  */
  function Replace(s: string, oldChar: char, newChar: char): (r: string)
    ensures |r| == |s|
  {
    if s == [] then []
    else [if s[0] == oldChar then newChar else s[0]] + Replace(s[1..], oldChar, newChar)
  }

  /** Each position holds `newChar` where `s` held `oldChar`, and the same character elsewhere. */
  lemma {:induction false} ReplaceCharacters(s: string, oldChar: char, newChar: char)
    ensures forall i :: 0 <= i < |s| ==>
              Replace(s, oldChar, newChar)[i] == (if s[i] == oldChar then newChar else s[i])
  {
    if s != [] {
      ReplaceCharacters(s[1..], oldChar, newChar);
    }
  }

  /** After replacing `oldChar` by a different character, no `oldChar` is left. */
  lemma ReplaceRemoves(s: string, oldChar: char, newChar: char)
    requires oldChar != newChar
    ensures oldChar !in Replace(s, oldChar, newChar)
  {
    ReplaceCharacters(s, oldChar, newChar);
  }

  /** A string that does not contain `oldChar` is left exactly as it is. */
  lemma ReplaceAbsentIsIdentity(s: string, oldChar: char, newChar: char)
    requires oldChar !in s
    ensures Replace(s, oldChar, newChar) == s
  {
    ReplaceCharacters(s, oldChar, newChar);
    forall i | 0 <= i < |s| ensures Replace(s, oldChar, newChar)[i] == s[i] {
      assert s[i] in s;
    }
  }

  /** Replacement works piecewise: it distributes over concatenation. */
  lemma {:induction false} ReplaceAppend(a: string, b: string, oldChar: char, newChar: char)
    ensures Replace(a + b, oldChar, newChar) == Replace(a, oldChar, newChar) + Replace(b, oldChar, newChar)
  {
    if a == [] {
      assert a + b == b;
    } else {
      assert (a + b)[1..] == a[1..] + b;
      ReplaceAppend(a[1..], b, oldChar, newChar);
    }
  }
}
