// Replacing a substring everywhere (dbrecord.c): the occurrences are counted,
// a buffer of exactly the right size is allocated, and then it is filled.
module StringsReplace {
  import opened Options
  import opened Sequences
  import opened Substrings

  /** The text between the occurrences, found from left to right without overlap. */
  function Parts(s: string, needle: string): (ps: seq<string>)
    requires needle != ""
    ensures |ps| > 0
    decreases |s|
  {
    var point := StrStr(s, needle);
    if point.None? then [s] else [s[..point.value]] + Parts(s[point.value + |needle|..], needle)
  }

  function Join(ps: seq<string>, glue: string): string
    requires |ps| > 0
  {
    if |ps| == 1 then ps[0] else ps[0] + glue + Join(ps[1..], glue)
  }

  /** The text with every occurrence of `needle` replaced. */
  function Replace(s: string, needle: string, with: string): string
    requires needle != ""
  {
    Join(Parts(s, needle), with)
  }

  lemma PartsStep(s: string, needle: string, with: string)
    requires needle != "" && StrStr(s, needle).Some?
    ensures var k := StrStr(s, needle).value;
            && Replace(s, needle, with) == s[..k] + with + Replace(s[k + |needle|..], needle, with)
            && |Parts(s, needle)| == 1 + |Parts(s[k + |needle|..], needle)|
  {
    hide StrStr;
    var k := StrStr(s, needle).value;
    var ps, rest := Parts(s, needle), Parts(s[k + |needle|..], needle);
    assert ps[1..] == rest;
  }

  lemma PartsEnd(s: string, needle: string, with: string)
    requires needle != "" && StrStr(s, needle).None?
    ensures Parts(s, needle) == [s] && Replace(s, needle, with) == s
  {}

  /** The parts are what the occurrences leave over: glued with the needle they are the text again. */
  lemma {:induction false} PartsAreWhole(s: string, needle: string)
    requires needle != ""
    ensures Replace(s, needle, needle) == s
    decreases |s|
  {
    hide StrStr, Replace;
    if StrStr(s, needle).None? {
      PartsEnd(s, needle, needle);
    } else {
      var k := StrStr(s, needle).value;
      PartsStep(s, needle, needle);
      PartsAreWhole(s[k + |needle|..], needle);
      assert OccursAt(s, needle, k);
      assert s == s[..k] + needle + s[k + |needle|..];
    }
  }

  /** The needle does not occur before place `n` or reaching into it. */
  lemma NotInFront(s: string, needle: string)
    requires needle != "" && StrStr(s, needle).Some?
    ensures !Contains(s[..StrStr(s, needle).value], needle)
  {
    var k := StrStr(s, needle).value;
    hide StrStr, OccursAt;
    forall i: nat
      ensures !OccursAt(s[..k], needle, i)
    {
      assert s[0..k] == s[..k];
      OccursInPart(s, needle, 0, k, i);
      assert i + |needle| <= k ==> i < k;
    }
  }

  /** In no part the needle occurs. */
  lemma {:induction false} PartsLackNeedle(s: string, needle: string)
    requires needle != ""
    ensures forall p :: p in Parts(s, needle) ==> !Contains(p, needle)
    decreases |s|
  {
    hide StrStr, Contains;
    if StrStr(s, needle).None? {
      NoOccurrence(s, needle);
    } else {
      NotInFront(s, needle);
      PartsLackNeedle(s[StrStr(s, needle).value + |needle|..], needle);
    }
  }

  lemma NoOccurrence(s: string, needle: string)
    requires StrStr(s, needle).None?
    ensures !Contains(s, needle)
  {}

  /** A way to cut the text at occurrences of the needle, each of them the first one from where the last one ended. */
  ghost predicate IsSplit(ps: seq<string>, s: string, needle: string) {
    && |ps| > 0 && Join(ps, needle) == s && !Contains(ps[|ps| - 1], needle)
    && forall k, i: nat :: 0 <= k < |ps| - 1 && i < |ps[k]| ==> !OccursAt(ps[k] + needle, needle, i)
  }

  lemma FirstSplit(ps: seq<string>, s: string, needle: string)
    requires needle != "" && IsSplit(ps, s, needle) && |ps| > 1
    ensures StrStr(s, needle) == Some(|ps[0]|) && IsSplit(ps[1..], s[|ps[0]| + |needle|..], needle)
    ensures s[..|ps[0]|] == ps[0]
  {
    hide StrStr, Contains;
    var head, rest := ps[0], Join(ps[1..], needle);
    assert s == head + needle + rest;
    assert s[|head|..|head| + |needle|] == needle && s[|head| + |needle|..] == rest;
    assert OccursAt(s, needle, |head|);
    assert s[0..|head| + |needle|] == head + needle;
    forall i: nat | i < |head|
      ensures !OccursAt(s, needle, i)
    {
      OccursInPart(s, needle, 0, |head| + |needle|, i);
    }
    forall k, i: nat | 0 <= k < |ps[1..]| - 1 && i < |ps[1..][k]|
      ensures !OccursAt(ps[1..][k] + needle, needle, i)
    {
      assert ps[1..][k] == ps[k + 1];
    }
  }

  /** The parts are such a cut, and the only one. */
  lemma {:induction false} PartsAreTheSplit(s: string, needle: string, ps: seq<string>)
    requires needle != ""
    ensures IsSplit(ps, s, needle) <==> ps == Parts(s, needle)
    decreases |s|
  {
    hide StrStr, IsSplit, Contains, OccursAt;
    if IsSplit(ps, s, needle) {
      SplitIsParts(s, needle, ps);
    }
    PartsAreSplit(s, needle);
  }

  lemma {:induction false} SplitIsParts(s: string, needle: string, ps: seq<string>)
    requires needle != "" && IsSplit(ps, s, needle)
    ensures ps == Parts(s, needle)
    decreases |s|
  {
    hide StrStr, OccursAt;
    if |ps| == 1 {
      assert ps == [s];
      PartsEnd(s, needle, needle);
    } else {
      FirstSplit(ps, s, needle);
      SplitIsParts(s[|ps[0]| + |needle|..], needle, ps[1..]);
      hide IsSplit;
      assert ps == [ps[0]] + ps[1..];
    }
  }

  lemma {:induction false} PartsAreSplit(s: string, needle: string)
    requires needle != ""
    ensures IsSplit(Parts(s, needle), s, needle)
    decreases |s|
  {
    hide StrStr;
    if StrStr(s, needle).None? {
      PartsEnd(s, needle, needle);
      NoOccurrence(s, needle);
    } else {
      var k := StrStr(s, needle).value;
      var rest := s[k + |needle|..];
      PartsAreSplit(rest, needle);
      PartsAreWhole(s, needle);
      FirstOfAll(s, needle);
      hide Join, Contains;
      var ps, qs := Parts(s, needle), Parts(rest, needle);
      assert ps == [s[..k]] + qs && ps[|ps| - 1] == qs[|qs| - 1];
      forall j, i: nat | 0 <= j < |ps| - 1 && i < |ps[j]|
        ensures !OccursAt(ps[j] + needle, needle, i)
      {
        if j > 0 {
          assert ps[j] == qs[j - 1];
        }
      }
    }
  }

  lemma FirstOfAll(s: string, needle: string)
    requires needle != "" && StrStr(s, needle).Some?
    ensures var k := StrStr(s, needle).value;
            forall i: nat :: i < k ==> !OccursAt(s[..k] + needle, needle, i)
  {
    hide StrStr;
    var k := StrStr(s, needle).value;
    assert s[0..k + |needle|] == s[..k] + needle;
    forall i: nat | i < k
      ensures !OccursAt(s[..k] + needle, needle, i)
    {
      OccursInPart(s, needle, 0, k + |needle|, i);
    }
  }

  /** The length of the result, from the number of occurrences. */
  lemma {:induction false} ReplaceLength(s: string, needle: string, with: string)
    requires needle != ""
    ensures |Replace(s, needle, with)| == |s| + (|Parts(s, needle)| - 1) * (|with| - |needle|)
    decreases |s|
  {
    hide StrStr, Replace, Parts;
    if StrStr(s, needle).None? {
      PartsEnd(s, needle, with);
    } else {
      var rest := s[StrStr(s, needle).value + |needle|..];
      PartsStep(s, needle, with);
      ReplaceLength(rest, needle, with);
      var n, d := |Parts(rest, needle)|, |with| - |needle|;
      assert n * d == (n - 1) * d + d;
    }
  }

  /** find_strings_count. */
  method FindStringsCount(strings: string, find: string) returns (counts: nat)
    requires find != ""
    ensures counts == |Parts(strings, find)| - 1
  {
    hide StrStr, Parts;
    counts := 0;
    var head := strings;
    while true
      invariant counts + |Parts(head, find)| == |Parts(strings, find)|
      decreases |head|
    {
      var point := StrStr(head, find);
      if point.None? {
        PartsEnd(head, find, find);
        return;
      }
      PartsStep(head, find, find);
      counts := counts + 1;
      head := head[point.value + |find|..];
    }
  }

  /** strings_replace: the buffer is filled with the result and not touched behind it. */
  method StringsReplace(input: string, output: array<char>, src: string, dst: string)
    requires src != "" && output.Length >= |Replace(input, src, dst)|
    modifies output
    ensures output[..|Replace(input, src, dst)|] == Replace(input, src, dst)
    ensures forall k :: |Replace(input, src, dst)| <= k < output.Length ==> output[k] == old(output[k])
  {
    hide StrStr, Replace;
    ghost var result := Replace(input, src, dst);
    ghost var done := "";
    var inputHead, outputHead := input, 0;
    assert "" + result == result;
    while true
      invariant outputHead == |done| <= output.Length && output[..outputHead] == done
      invariant done + Replace(inputHead, src, dst) == result
      invariant forall k :: |result| <= k < output.Length ==> output[k] == old(output[k])
      decreases |inputHead|
    {
      var point := StrStr(inputHead, src);
      if point.None? {
        PartsEnd(inputHead, src, dst);
        MemCpy(output, outputHead, inputHead);
        Grow(output, outputHead, outputHead + |inputHead|, done, inputHead);
        return;
      }
      var lens := point.value;
      PartsStep(inputHead, src, dst);
      ghost var rest := Replace(inputHead[lens + |src|..], src, dst);
      Regroup(done, inputHead[..lens], dst, rest);
      MemCpy(output, outputHead, inputHead[..lens]);
      Grow(output, outputHead, outputHead + lens, done, inputHead[..lens]);
      inputHead := inputHead[lens + |src|..];
      outputHead := outputHead + lens;
      done := output[..outputHead];
      MemCpy(output, outputHead, dst);
      Grow(output, outputHead, outputHead + |dst|, done, dst);
      outputHead := outputHead + |dst|;
      done := done + dst;
    }
  }

  lemma Regroup(a: string, b: string, c: string, d: string)
    ensures a + (b + c + d) == a + b + c + d
  {}

  /** strings_replace_free: the buffer has exactly the size of the result and its NUL. */
  method StringsReplaceFree(strings: string, needle: string, with: string) returns (back: array<char>)
    requires needle != ""
    ensures fresh(back) && back.Length == |Replace(strings, needle, with)| + 1
    ensures back[..back.Length - 1] == Replace(strings, needle, with) && back[back.Length - 1] == '\0'
  {
    hide StrStr, Replace, Parts;
    ReplaceLength(strings, needle, with);
    if StrStr(strings, needle).Some? {
      var counts := FindStringsCount(strings, needle);
      var mallocLen := |strings| + counts * (|with| - |needle|) + 1;
      back := new char[mallocLen];
      back[mallocLen - 1] := '\0';
      StringsReplace(strings, back, needle, with);
    } else {
      PartsEnd(strings, needle, with);
      back := new char[|strings| + 1];
      back[|strings|] := '\0';
      MemCpy(back, 0, strings);
      Grow(back, 0, |strings|, "", strings);
      assert "" + strings == strings;
    }
  }
}
