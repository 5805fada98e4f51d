// The wildcard matcher of the IE helper (IEHelper/StringHelper.cpp): one pass
// over pattern and text that remembers only the last '*' it met.
module Wildcard {
  import opened Letters

  /** The glob relation: '?' stands for one character, '*' for any run of them. */
  ghost predicate Glob(wild: string, text: string)
    decreases |wild|
  {
    if wild == "" then text == ""
    else if wild[0] == '*' then exists k :: 0 <= k <= |text| && Glob(wild[1..], text[k..])
    else text != "" && (wild[0] == '?' || wild[0] == text[0]) && Glob(wild[1..], text[1..])
  }

  /** What the matcher decides: the pattern matches some prefix of the text. */
  ghost predicate MatchesPrefix(wild: string, text: string) {
    exists n :: 0 <= n <= |text| && Glob(wild, text[..n])
  }

  // ---- A direct recursion for the same relation, which the loops follow ----

  ghost predicate Prefix(wild: string, text: string)
    decreases |wild|
  {
    if wild == "" then true
    else if wild[0] == '*' then exists k :: 0 <= k <= |text| && Prefix(wild[1..], text[k..])
    else text != "" && Fits(wild[0], text[0]) && Prefix(wild[1..], text[1..])
  }

  predicate Fits(w: char, t: char) {
    w == '?' || w == t
  }

  lemma {:induction false} PrefixIsMatchesPrefix(wild: string, text: string)
    ensures Prefix(wild, text) <==> MatchesPrefix(wild, text)
    decreases |wild|
  {
    if wild == "" {
      assert text[..0] == "" && Glob(wild, text[..0]);
    } else if wild[0] == '*' {
      if Prefix(wild, text) {
        var k :| 0 <= k <= |text| && Prefix(wild[1..], text[k..]);
        PrefixIsMatchesPrefix(wild[1..], text[k..]);
        var n :| 0 <= n <= |text[k..]| && Glob(wild[1..], text[k..][..n]);
        assert text[..k + n][k..] == text[k..][..n];
        assert Glob(wild, text[..k + n]);
      }
      if MatchesPrefix(wild, text) {
        var n :| 0 <= n <= |text| && Glob(wild, text[..n]);
        var k :| 0 <= k <= n && Glob(wild[1..], text[..n][k..]);
        assert text[..n][k..] == text[k..][..n - k];
        PrefixIsMatchesPrefix(wild[1..], text[k..]);
      }
    } else if text != "" {
      PrefixIsMatchesPrefix(wild[1..], text[1..]);
      if Prefix(wild, text) {
        var n :| 0 <= n <= |text[1..]| && Glob(wild[1..], text[1..][..n]);
        assert text[..n + 1][1..] == text[1..][..n];
        assert Glob(wild, text[..n + 1]);
      }
      if MatchesPrefix(wild, text) {
        var n :| 0 <= n <= |text| && Glob(wild, text[..n]);
        assert text[..n][1..] == text[1..][..n - 1];
      }
    }
  }

  /** A star-free stretch of the pattern uses up exactly its own length of text. */
  lemma {:induction false} SkipStretch(wild: string, text: string, n: nat)
    requires n <= |wild| && '*' !in wild[..n]
    requires Prefix(wild, text)
    ensures n <= |text| && Prefix(wild[n..], text[n..])
  {
    if n > 0 {
      assert wild[0] == wild[..n][0];
      assert wild[1..][..n - 1] == wild[..n][1..];
      SkipStretch(wild[1..], text[1..], n - 1);
      assert wild[1..][n - 1..] == wild[n..] && text[1..][n - 1..] == text[n..];
    }
  }

  /** Some start at or after position `from` lets the pattern rest match. */
  ghost predicate LaterStart(rest: string, text: string, from: nat) {
    exists k :: from <= k <= |text| && Prefix(rest, text[k..])
  }

  /** The search state of both loops: the answer is decided by the current
      pair of positions or by a later start after the last star. */
  ghost predicate Decides(wild: string, text: string, iw: nat, it: nat, star: bool, mp: nat, cp: nat) {
    && iw <= |wild| && it <= |text|
    && (star ==> 1 <= mp <= iw && 1 <= cp <= |text| + 1 && it - (cp - 1) == iw - mp && '*' !in wild[mp..iw])
    && (Prefix(wild, text) <==>
        Prefix(wild[iw..], text[it..]) || (star && LaterStart(wild[mp..], text, cp)))
  }

  lemma DecidesAtStar(wild: string, text: string, iw: nat, it: nat, star: bool, mp: nat, cp: nat)
    requires Decides(wild, text, iw, it, star, mp, cp)
    requires iw < |wild| && wild[iw] == '*' && it < |text|
    ensures Decides(wild, text, iw + 1, it, true, iw + 1, it + 1)
  {
    var rest := wild[iw + 1..];
    assert wild[iw..][1..] == rest;
    forall k | 0 <= k <= |text| - it
      ensures text[it..][k..] == text[it + k..]
    {}
    // The star reaches every start at or after it, and nothing earlier counts.
    assert Prefix(wild[iw..], text[it..]) <==> LaterStart(rest, text, it) by {
      if Prefix(wild[iw..], text[it..]) {
        var k :| 0 <= k <= |text[it..]| && Prefix(rest, text[it..][k..]);
        assert Prefix(rest, text[it + k..]);
      }
      if LaterStart(rest, text, it) {
        var k :| it <= k <= |text| && Prefix(rest, text[k..]);
        assert Prefix(rest, text[it..][k - it..]);
      }
    }
    if star && LaterStart(wild[mp..], text, cp) {
      var k :| cp <= k <= |text| && Prefix(wild[mp..], text[k..]);
      var n := iw - mp;
      assert wild[mp..][..n] == wild[mp..iw];
      SkipStretch(wild[mp..], text[k..], n);
      assert wild[mp..][n..] == wild[iw..] && text[k..][n..] == text[k + n..];
      var j :| 0 <= j <= |text[k + n..]| && Prefix(rest, text[k + n..][j..]);
      assert text[k + n..][j..] == text[k + n + j..];
      assert LaterStart(rest, text, it);
    }
    assert LaterStart(rest, text, it) <==> Prefix(rest, text[it..]) || LaterStart(rest, text, it + 1);
  }

  lemma DecidesAtMatch(wild: string, text: string, iw: nat, it: nat, star: bool, mp: nat, cp: nat)
    requires Decides(wild, text, iw, it, star, mp, cp)
    requires iw < |wild| && wild[iw] != '*' && it < |text| && Fits(wild[iw], text[it])
    ensures Decides(wild, text, iw + 1, it + 1, star, mp, cp)
  {
    assert wild[iw..][1..] == wild[iw + 1..] && text[it..][1..] == text[it + 1..];
    if star {
      assert wild[mp..iw + 1] == wild[mp..iw] + [wild[iw]];
    }
  }

  lemma DecidesAtMismatch(wild: string, text: string, iw: nat, it: nat, mp: nat, cp: nat)
    requires Decides(wild, text, iw, it, true, mp, cp)
    requires iw < |wild| && wild[iw] != '*' && it < |text| && !Fits(wild[iw], text[it])
    ensures Decides(wild, text, mp, cp, true, mp, cp + 1)
  {
    assert LaterStart(wild[mp..], text, cp) <==>
      Prefix(wild[mp..], text[cp..]) || LaterStart(wild[mp..], text, cp + 1);
  }

  predicate AllStars(wild: string) {
    forall i :: 0 <= i < |wild| ==> wild[i] == '*'
  }

  lemma {:induction false} PrefixOfNothing(wild: string)
    ensures Prefix(wild, "") <==> AllStars(wild)
  {
    if wild != "" {
      PrefixOfNothing(wild[1..]);
      assert wild == [wild[0]] + wild[1..];
      assert ""[0..] == "";
      if wild[0] == '*' && AllStars(wild[1..]) {
        assert Prefix(wild[1..], ""[0..]);
      }
    }
  }

  /** When the text is used up only trailing stars can still be matched. */
  lemma DecidesAtEnd(wild: string, text: string, iw: nat, it: nat, star: bool, mp: nat, cp: nat)
    requires Decides(wild, text, iw, it, star, mp, cp)
    requires iw == |wild| || it == |text|
    ensures Prefix(wild, text) <==> AllStars(wild[iw..])
  {
    if it == |text| {
      assert text[it..] == "";
      PrefixOfNothing(wild[iw..]);
      if star && LaterStart(wild[mp..], text, cp) {
        var k :| cp <= k <= |text| && Prefix(wild[mp..], text[k..]);
        assert wild[mp..][..iw - mp] == wild[mp..iw];
        SkipStretch(wild[mp..], text[k..], iw - mp);
        assert false;
      }
    } else {
      assert wild[iw..] == "";
    }
  }

  lemma DecidesAtOnce(wild: string, text: string, iw: nat, it: nat, star: bool, mp: nat, cp: nat)
    requires Decides(wild, text, iw, it, star, mp, cp)
    ensures iw == |wild| ==> Prefix(wild, text)
    ensures !star && iw < |wild| && it < |text| && wild[iw] != '*' && !Fits(wild[iw], text[it]) ==> !Prefix(wild, text)
  {}

  /** Drops the stars at the front of what is left of the pattern. */
  method SkipTrailingStars(wild: string, start: nat) returns (r: bool)
    requires start <= |wild|
    ensures r <==> AllStars(wild[start..])
  {
    var idxWild := start;
    while idxWild < |wild|
      invariant start <= idxWild <= |wild|
      invariant AllStars(wild[start..]) <==> AllStars(wild[idxWild..])
    {
      assert wild[idxWild..] == [wild[idxWild]] + wild[idxWild + 1..];
      if wild[idxWild] != '*' {
        break;
      }
      idxWild := idxWild + 1;
    }
    r := !(idxWild < |wild|);
  }

  /** Sound and complete: true exactly when the pattern matches a prefix of the text. */
  method WildcardCompare(strWild: string, strText: string) returns (r: bool)
    ensures r <==> MatchesPrefix(strWild, strText)
  {
    hide Prefix, LaterStart, MatchesPrefix;
    PrefixIsMatchesPrefix(strWild, strText);
    var cp, mp, idxWild, idxString := 0, 0, 0, 0;
    assert strWild[0..] == strWild && strText[0..] == strText;
    while idxString < |strText|
      invariant Decides(strWild, strText, idxWild, idxString, false, mp, cp)
    {
      if idxWild >= |strWild| || strWild[idxWild] == '*' {
        break;
      }
      if strWild[idxWild] != strText[idxString] && strWild[idxWild] != '?' {
        DecidesAtOnce(strWild, strText, idxWild, idxString, false, mp, cp);
        return false;
      }
      DecidesAtMatch(strWild, strText, idxWild, idxString, false, mp, cp);
      idxWild, idxString := idxWild + 1, idxString + 1;
    }
    ghost var star := false;
    while idxString < |strText|
      invariant Decides(strWild, strText, idxWild, idxString, star, mp, cp)
      invariant !star ==> mp == cp == 0 && (idxString == |strText| || idxWild == |strWild| || strWild[idxWild] == '*')
      decreases |strWild| - mp, |strText| + 1 - cp, |strText| - idxString
    {
      if idxWild >= |strWild| {
        break;
      }
      if strWild[idxWild] == '*' {
        DecidesAtStar(strWild, strText, idxWild, idxString, star, mp, cp);
        idxWild := idxWild + 1;
        if idxWild >= |strWild| {
          DecidesAtOnce(strWild, strText, idxWild, idxString, true, idxWild, idxString + 1);
          return true;
        }
        mp, cp, star := idxWild, idxString + 1, true;
      } else if strWild[idxWild] == strText[idxString] || strWild[idxWild] == '?' {
        DecidesAtMatch(strWild, strText, idxWild, idxString, star, mp, cp);
        idxWild, idxString := idxWild + 1, idxString + 1;
      } else {
        DecidesAtMismatch(strWild, strText, idxWild, idxString, mp, cp);
        idxWild := mp;
        idxString, cp := cp, cp + 1;
      }
    }
    DecidesAtEnd(strWild, strText, idxWild, idxString, star, mp, cp);
    r := SkipTrailingStars(strWild, idxWild);
  }

  // ---- The form that ignores case ----

  /** toupper of the "C" locale. */
  function ToUpper(c: char): (r: char) {
    if 'a' <= c <= 'z' then (c as int - 32) as char else c
  }

  function Upper(s: string): (r: string)
    ensures |r| == |s|
    ensures forall i :: 0 <= i < |s| ==> r[i] == ToUpper(s[i])
  {
    seq(|s|, i requires 0 <= i < |s| => ToUpper(s[i]))
  }

  /** The glob relation where a letter stands for both of its forms. */
  ghost predicate GlobNoCase(wild: string, text: string)
    decreases |wild|
  {
    if wild == "" then text == ""
    else if wild[0] == '*' then exists k :: 0 <= k <= |text| && GlobNoCase(wild[1..], text[k..])
    else text != "" && (wild[0] == '?' || SameLetter(wild[0], text[0])) && GlobNoCase(wild[1..], text[1..])
  }

  ghost predicate MatchesPrefixNoCase(wild: string, text: string) {
    exists n :: 0 <= n <= |text| && GlobNoCase(wild, text[..n])
  }

  /** Upper-casing makes two characters equal exactly when they are forms of one letter. */
  lemma UpperIsSameLetter(c: char, d: char)
    ensures ToUpper(c) == ToUpper(d) <==> SameLetter(c, d)
  {
    LettersInOrder();
    if ToUpper(c) == ToUpper(d) && c != d {
      var i := ToUpper(c) as int - 'A' as int;
      assert (c == SMALL[i] && d == CAPITAL[i]) || (c == CAPITAL[i] && d == SMALL[i]);
    }
  }

  /** The text `t` is `s` with each small letter in its capital form. */
  predicate Capitals(s: string, t: string) {
    && |s| == |t|
    && forall i :: 0 <= i < |s| ==>
         if s[i] in SMALL then exists j :: 0 <= j < 26 && s[i] == SMALL[j] && t[i] == CAPITAL[j] else t[i] == s[i]
  }

  /** Upper gives that text, and there is no other. */
  lemma CapitalsAreUpper(s: string)
    ensures forall t :: Capitals(s, t) <==> t == Upper(s)
  {
    LettersInOrder();
    var u := Upper(s);
    forall i | 0 <= i < |s|
      ensures if s[i] in SMALL then exists j :: 0 <= j < 26 && s[i] == SMALL[j] && u[i] == CAPITAL[j] else u[i] == s[i]
    {
      if 'a' <= s[i] <= 'z' {
        var j := s[i] as int - 'a' as int;
        assert s[i] == SMALL[j] && u[i] == CAPITAL[j];
      }
    }
    forall t | Capitals(s, t)
      ensures t == u
    {}
  }

  lemma {:induction false} GlobOfUpper(wild: string, text: string)
    ensures Glob(Upper(wild), Upper(text)) <==> GlobNoCase(wild, text)
    decreases |wild|
  {
    if wild != "" {
      var w, t := Upper(wild), Upper(text);
      assert w[1..] == Upper(wild[1..]);
      assert w[0] == '*' <==> wild[0] == '*';
      forall k | 0 <= k <= |text|
        ensures Glob(w[1..], t[k..]) <==> GlobNoCase(wild[1..], text[k..])
      {
        assert t[k..] == Upper(text[k..]);
        GlobOfUpper(wild[1..], text[k..]);
      }
      if text != "" {
        UpperIsSameLetter(wild[0], text[0]);
      }
    }
  }

  lemma PrefixOfUpper(wild: string, text: string)
    ensures MatchesPrefix(Upper(wild), Upper(text)) <==> MatchesPrefixNoCase(wild, text)
  {
    hide Glob, GlobNoCase;
    forall n | 0 <= n <= |text|
      ensures Glob(Upper(wild), Upper(text)[..n]) <==> GlobNoCase(wild, text[..n])
    {
      assert Upper(text)[..n] == Upper(text[..n]);
      GlobOfUpper(wild, text[..n]);
    }
  }

  /** Two texts that differ only in the forms of their letters. */
  predicate SameLetters(s: string, t: string) {
    |s| == |t| && forall i :: 0 <= i < |s| ==> SameLetter(s[i], t[i])
  }

  lemma UpperOfSame(s: string, t: string)
    requires SameLetters(s, t)
    ensures Upper(s) == Upper(t)
  {
    hide SameLetter;
    forall i | 0 <= i < |s|
      ensures ToUpper(s[i]) == ToUpper(t[i])
    {
      UpperIsSameLetter(s[i], t[i]);
    }
  }

  /** Writing any letters of the pattern and of the text in their other forms does not change the answer. */
  lemma CaseDoesNotMatter(wild: string, text: string, wild': string, text': string)
    requires SameLetters(wild, wild') && SameLetters(text, text')
    ensures MatchesPrefixNoCase(wild, text) <==> MatchesPrefixNoCase(wild', text')
  {
    hide *;
    UpperOfSame(wild, wild');
    UpperOfSame(text, text');
    PrefixOfUpper(wild, text);
    PrefixOfUpper(wild', text');
  }

  /** A pattern of one character fits the start of a text exactly when it is the
      question mark, or the same character, or the other form of the same letter. */
  lemma OneCharacter(c: char, d: char, rest: string)
    requires c != '*'
    ensures MatchesPrefixNoCase([c], [d] + rest) <==> c == '?' || SameLetter(c, d)
  {
    var text := [d] + rest;
    assert [c][1..] == "";
    forall n | 0 <= n <= |text|
      ensures GlobNoCase([c], text[..n]) <==> n == 1 && (c == '?' || SameLetter(c, d))
    {
      if n > 0 {
        assert text[..n][1..] == "" <==> n == 1;
      }
    }
    hide GlobNoCase, SameLetter;
    assert 1 <= |text| && (GlobNoCase([c], text[..1]) <==> c == '?' || SameLetter(c, d));
  }

  /** What a pattern means, by its first character. */
  lemma PatternMeaning(wild: string, text: string)
    requires wild != ""
    ensures wild[0] == '*' ==>
              (MatchesPrefix(wild, text) <==> exists k :: 0 <= k <= |text| && MatchesPrefix(wild[1..], text[k..]))
    ensures wild[0] == '?' ==> (MatchesPrefix(wild, text) <==> text != "" && MatchesPrefix(wild[1..], text[1..]))
    ensures wild[0] !in {'*', '?'} ==>
              (MatchesPrefix(wild, text) <==> text != "" && wild[0] == text[0] && MatchesPrefix(wild[1..], text[1..]))
  {
    hide MatchesPrefix;
    PrefixIsMatchesPrefix(wild, text);
    forall k | 0 <= k <= |text|
      ensures Prefix(wild[1..], text[k..]) <==> MatchesPrefix(wild[1..], text[k..])
    {
      PrefixIsMatchesPrefix(wild[1..], text[k..]);
    }
  }

  /** A pattern without wildcards matches exactly the texts that start with it. */
  lemma {:induction false} PlainPattern(wild: string, text: string)
    requires '*' !in wild && '?' !in wild
    ensures MatchesPrefix(wild, text) <==> wild <= text
    decreases |wild|
  {
    hide MatchesPrefix, Prefix;
    if wild == "" {
      EmptyPattern(text);
    } else {
      PatternMeaning(wild, text);
      if text != "" {
        PlainPattern(wild[1..], text[1..]);
        assert wild == [wild[0]] + wild[1..] && text == [text[0]] + text[1..];
      }
    }
  }

  lemma EmptyPattern(text: string)
    ensures MatchesPrefix("", text)
  {
    assert Glob("", text[..0]);
  }

  lemma StarsOfUpper(wild: string, n: nat)
    requires n <= |wild|
    ensures AllStars(wild[n..]) <==> AllStars(Upper(wild)[n..])
  {
    var w, u := wild[n..], Upper(wild)[n..];
    assert forall i :: 0 <= i < |w| ==> (w[i] == '*' <==> u[i] == '*');
  }

  /** The form without case: some start of the text matches, a letter standing for both of its forms. */
  method WildcardCompareNoCase(strWild: string, strText: string) returns (r: bool)
    ensures r <==> MatchesPrefixNoCase(strWild, strText)
  {
    hide Prefix, Glob, GlobNoCase, SameLetter, LaterStart, MatchesPrefix, MatchesPrefixNoCase;
    ghost var wild, text := Upper(strWild), Upper(strText);
    PrefixOfUpper(strWild, strText);
    PrefixIsMatchesPrefix(wild, text);
    var cp, mp, idxWild, idxString := 0, 0, 0, 0;
    assert wild[0..] == wild && text[0..] == text;
    while idxString < |strText|
      invariant Decides(wild, text, idxWild, idxString, false, mp, cp)
    {
      if idxWild >= |strWild| || strWild[idxWild] == '*' {
        break;
      }
      if ToUpper(strWild[idxWild]) != ToUpper(strText[idxString]) && strWild[idxWild] != '?' {
        DecidesAtOnce(wild, text, idxWild, idxString, false, mp, cp);
        return false;
      }
      DecidesAtMatch(wild, text, idxWild, idxString, false, mp, cp);
      idxWild, idxString := idxWild + 1, idxString + 1;
    }
    ghost var star := false;
    while idxString < |strText|
      invariant Decides(wild, text, idxWild, idxString, star, mp, cp)
      invariant !star ==> mp == cp == 0 && (idxString == |strText| || idxWild == |strWild| || strWild[idxWild] == '*')
      decreases |strWild| - mp, |strText| + 1 - cp, |strText| - idxString
    {
      if idxWild >= |strWild| {
        break;
      }
      if strWild[idxWild] == '*' {
        DecidesAtStar(wild, text, idxWild, idxString, star, mp, cp);
        idxWild := idxWild + 1;
        if idxWild >= |strWild| {
          DecidesAtOnce(wild, text, idxWild, idxString, true, idxWild, idxString + 1);
          return true;
        }
        mp, cp, star := idxWild, idxString + 1, true;
      } else if ToUpper(strWild[idxWild]) == ToUpper(strText[idxString]) || strWild[idxWild] == '?' {
        DecidesAtMatch(wild, text, idxWild, idxString, star, mp, cp);
        idxWild, idxString := idxWild + 1, idxString + 1;
      } else {
        DecidesAtMismatch(wild, text, idxWild, idxString, mp, cp);
        idxWild := mp;
        idxString, cp := cp, cp + 1;
      }
    }
    DecidesAtEnd(wild, text, idxWild, idxString, star, mp, cp);
    var rest := SkipTrailingStars(strWild, idxWild);
    StarsOfUpper(strWild, idxWild);
    r := rest;
  }
}
