// The letters of the "C" locale, named one by one.
module Letters {

  const SMALL := "abcdefghijklmnopqrstuvwxyz"
  const CAPITAL := "ABCDEFGHIJKLMNOPQRSTUVWXYZ"

  /** The same character, or the small and the capital form of one letter. */
  predicate SameLetter(c: char, d: char) {
    || c == d
    || exists i :: 0 <= i < 26 && ((c == SMALL[i] && d == CAPITAL[i]) || (c == CAPITAL[i] && d == SMALL[i]))
  }

  lemma LetterAt(i: nat)
    requires i < 26
    ensures SMALL[i] as int == 'a' as int + i && CAPITAL[i] as int == 'A' as int + i
  {}

  lemma LettersInOrder()
    ensures forall i :: 0 <= i < 26 ==> SMALL[i] as int == 'a' as int + i && CAPITAL[i] as int == 'A' as int + i
  {
    forall i | 0 <= i < 26
      ensures SMALL[i] as int == 'a' as int + i && CAPITAL[i] as int == 'A' as int + i
    {
      LetterAt(i);
    }
  }

  /** Their codes lie side by side. */
  lemma LetterCodes(c: char)
    ensures c in SMALL <==> 'a' <= c <= 'z'
    ensures c in CAPITAL <==> 'A' <= c <= 'Z'
  {
    LettersInOrder();
    if 'a' <= c <= 'z' {
      assert SMALL[c as int - 'a' as int] == c;
    }
    if 'A' <= c <= 'Z' {
      assert CAPITAL[c as int - 'A' as int] == c;
    }
  }
}
