// Taking SQL text apart (DBoperate.c): splitting at separators, the search for
// a command with its table, and the list of forbidden or allowed commands.
module SqlText {
  import opened Options
  import opened Sequences
  import opened Substrings
  import opened Wildcard

  // ---- strsplit ----

  /** Where the front separator starts and how long it is; at the end of the text if there is none. */
  datatype Front = Front(start: nat, length: nat, found: bool)

  /** The search loop of strsplit, over the first `n` separators. */
  function FrontOf(s: string, separators: seq<string>, n: nat): (f: Front)
    requires n <= |separators|
    ensures f.start + f.length <= |s|
  {
    if n == 0 then Front(|s|, 0, false)
    else
      var f := FrontOf(s, separators, n - 1);
      var at := StrStr(s, separators[n - 1]);
      if at.None? then f
      else if at.value < f.start then Front(at.value, |separators[n - 1]|, true)
      else f.(found := true)
  }

  predicate NonEmpty(separators: seq<string>) {
    forall k :: 0 <= k < |separators| ==> separators[k] != ""
  }

  /** The front separator is one that starts before all others; among those that start
      together it is the first of the list. */
  ghost predicate IsFront(s: string, separators: seq<string>, n: nat, k: nat)
    requires n <= |separators|
  {
    && k < n && StrStr(s, separators[k]).Some?
    && (forall j :: 0 <= j < n && StrStr(s, separators[j]).Some? ==>
          StrStr(s, separators[k]).value <= StrStr(s, separators[j]).value)
    && (forall j :: 0 <= j < k && StrStr(s, separators[j]).Some? ==>
          StrStr(s, separators[k]).value < StrStr(s, separators[j]).value)
  }

  lemma {:induction false} FrontIsFirst(s: string, separators: seq<string>, n: nat) returns (k: nat)
    requires n <= |separators| && NonEmpty(separators)
    ensures var f := FrontOf(s, separators, n);
            if f.found then
              && IsFront(s, separators, n, k)
              && f.start == StrStr(s, separators[k]).value && f.length == |separators[k]| > 0
            else f == Front(|s|, 0, false) && forall j :: 0 <= j < n ==> StrStr(s, separators[j]).None?
  {
    hide StrStr;
    k := 0;
    if n > 0 {
      var before := FrontIsFirst(s, separators, n - 1);
      var f, g := FrontOf(s, separators, n - 1), FrontOf(s, separators, n);
      var at := StrStr(s, separators[n - 1]);
      k := if at.Some? && at.value < f.start then n - 1 else before;
    }
  }

  /** A stretch of text and the separator behind it, which is empty only at the end of the text. */
  datatype Cut = Cut(text: string, separator: string)

  function CutAt(s: string, f: Front): Cut
    requires f.start + f.length <= |s|
  {
    Cut(s[..f.start], s[f.start..f.start + f.length])
  }

  lemma CutIsWhole(s: string, f: Front)
    requires f.start + f.length <= |s|
    ensures CutAt(s, f).text + CutAt(s, f).separator + s[f.start + f.length..] == s
  {}

  function Cuts(s: string, separators: seq<string>): (cs: seq<Cut>)
    requires NonEmpty(separators)
    decreases |s|
  {
    if s == "" then []
    else
      var f := FrontOf(s, separators, |separators|);
      FrontMoves(s, separators);
      [CutAt(s, f)] + Cuts(s[f.start + f.length..], separators)
  }

  lemma FrontMoves(s: string, separators: seq<string>)
    requires s != "" && NonEmpty(separators)
    ensures var f := FrontOf(s, separators, |separators|); f.start + f.length > 0
  {
    hide StrStr, FrontOf;
    var k := FrontIsFirst(s, separators, |separators|);
  }

  /** The pieces that one cut leaves in the result. */
  function Pieces(c: Cut, compress: bool, keep: bool): seq<string> {
    (if c.text == "" && compress then [] else [c.text]) + (if keep then [c.separator] else [])
  }

  function AllPieces(cs: seq<Cut>, compress: bool, keep: bool): seq<string> {
    if cs == [] then [] else Pieces(cs[0], compress, keep) + AllPieces(cs[1..], compress, keep)
  }

  /** The text that the cuts were made from. */
  function Joined(cs: seq<Cut>): string {
    if cs == [] then "" else cs[0].text + cs[0].separator + Joined(cs[1..])
  }

  lemma {:induction false} CutsAreWhole(s: string, separators: seq<string>)
    requires NonEmpty(separators)
    ensures Joined(Cuts(s, separators)) == s
    decreases |s|
  {
    if s != "" {
      hide FrontOf, CutAt;
      var f := FrontOf(s, separators, |separators|);
      FrontMoves(s, separators);
      CutIsWhole(s, f);
      CutsAreWhole(s[f.start + f.length..], separators);
    }
  }

  lemma OneCutKept(c: Cut, compress: bool)
    ensures Concat(Pieces(c, compress, true)) == c.text + c.separator
  {
    assert ["a"][1..] == [];
    assert Concat([c.separator]) == c.separator by { assert [c.separator][1..] == []; }
    assert [c.text, c.separator][1..] == [c.separator];
  }

  lemma {:induction false} KeptPieces(cs: seq<Cut>, compress: bool)
    ensures Concat(AllPieces(cs, compress, true)) == Joined(cs)
  {
    if cs != [] {
      hide Pieces;
      KeptPieces(cs[1..], compress);
      OneCutKept(cs[0], compress);
      ConcatSum(Pieces(cs[0], compress, true), AllPieces(cs[1..], compress, true));
    }
  }

  /** With the separators kept, splitting loses nothing. */
  lemma {:induction false} SplitLosesNothing(s: string, separators: seq<string>, compress: bool)
    requires NonEmpty(separators)
    ensures Concat(AllPieces(Cuts(s, separators), compress, true)) == s
  {
    CutsAreWhole(s, separators);
    KeptPieces(Cuts(s, separators), compress);
  }

  /** What a cut may look like: no separator occurs in its text, and what follows is a separator or the end. */
  ghost predicate GoodCut(c: Cut, separators: seq<string>) {
    && (forall k :: 0 <= k < |separators| ==> !Contains(c.text, separators[k]))
    && (c.separator in separators || c.separator == "")
  }

  lemma NoneBefore(s: string, separator: string, n: nat)
    requires n <= |s| && forall i: nat :: i < n ==> !OccursAt(s, separator, i)
    requires separator != ""
    ensures !Contains(s[..n], separator)
  {
    hide StrStr, OccursAt;
    forall i: nat
      ensures !OccursAt(s[..n], separator, i)
    {
      assert s[0..n] == s[..n];
      OccursInPart(s, separator, 0, n, i);
      Inside(separator, n, i);
    }
  }

  lemma Inside(separator: string, n: nat, i: nat)
    requires separator != ""
    ensures i + |separator| <= n ==> i < n
  {}

  lemma NothingInFront(s: string, separators: seq<string>, j: nat)
    requires NonEmpty(separators) && j < |separators|
    ensures forall i: nat :: i < FrontOf(s, separators, |separators|).start ==> !OccursAt(s, separators[j], i)
  {
    hide FrontOf, OccursAt;
    var k := FrontIsFirst(s, separators, |separators|);
  }

  lemma FrontOccurs(s: string, separators: seq<string>) returns (k: nat)
    requires NonEmpty(separators)
    ensures var f := FrontOf(s, separators, |separators|);
            if f.found then
              k < |separators| && OccursAt(s, separators[k], f.start) && f.length == |separators[k]| > 0
            else f.start == |s| && f.length == 0
  {
    hide FrontOf, OccursAt;
    k := FrontIsFirst(s, separators, |separators|);
  }

  lemma FrontSeparator(s: string, separators: seq<string>)
    requires NonEmpty(separators)
    ensures var f := FrontOf(s, separators, |separators|);
            && (f.found ==> s[f.start..f.start + f.length] in separators && f.length > 0)
            && (!f.found ==> f.start == |s| && f.length == 0)
  {
    hide FrontOf, StrStr, NonEmpty;
    var k := FrontOccurs(s, separators);
  }

  lemma GoodIf(c: Cut, separators: seq<string>)
    requires forall k :: 0 <= k < |separators| ==> !Contains(c.text, separators[k])
    requires c.separator in separators || c.separator == ""
    ensures GoodCut(c, separators)
  {}

  lemma FirstCutIsGood(s: string, separators: seq<string>)
    requires s != "" && NonEmpty(separators)
    ensures var f := FrontOf(s, separators, |separators|);
            GoodCut(CutAt(s, f), separators) && (f.length == 0 ==> f.start == |s|)
  {
    hide *;
    var f := FrontOf(s, separators, |separators|);
    FrontSeparator(s, separators);
    CutParts(s, f);
    forall j | 0 <= j < |separators|
      ensures !Contains(s[..f.start], separators[j])
    {
      NothingInFront(s, separators, j);
      SeparatorAt(separators, j);
      NoneBefore(s, separators[j], f.start);
    }
    GoodIf(CutAt(s, f), separators);
  }

  lemma CutParts(s: string, f: Front)
    requires f.start + f.length <= |s|
    ensures CutAt(s, f).text == s[..f.start]
    ensures CutAt(s, f).separator == s[f.start..f.start + f.length]
    ensures f.length == 0 ==> CutAt(s, f).separator == ""
  {}

  lemma SeparatorAt(separators: seq<string>, j: nat)
    requires NonEmpty(separators) && j < |separators|
    ensures separators[j] != ""
  {}

  /** Only the last cut can be without a separator. */
  ghost predicate Separated(cs: seq<Cut>) {
    forall i :: 0 <= i < |cs| - 1 ==> cs[i].separator != ""
  }

  lemma SeparatedStep(c: Cut, cs: seq<Cut>)
    requires Separated(cs) && (cs != [] ==> c.separator != "")
    ensures Separated([c] + cs)
  {
    var all := [c] + cs;
    forall i | 0 <= i < |all| - 1
      ensures all[i].separator != ""
    {
      if i > 0 {
        assert all[i] == cs[i - 1];
      }
    }
  }

  /** Every cut is good, and only the last one can be without a separator. */
  lemma {:induction false} CutsAreGood(s: string, separators: seq<string>)
    requires NonEmpty(separators)
    ensures forall c :: c in Cuts(s, separators) ==> GoodCut(c, separators)
    ensures Separated(Cuts(s, separators))
    decreases |s|
  {
    if s != "" {
      hide FrontOf, GoodCut, CutAt, Separated, NonEmpty;
      var f := FrontOf(s, separators, |separators|);
      FrontMoves(s, separators);
      FirstCutIsGood(s, separators);
      var rest := s[f.start + f.length..];
      CutsAreGood(rest, separators);
      CutLength(s, f);
      assert f.length == 0 ==> rest == "";
      SeparatedStep(CutAt(s, f), Cuts(rest, separators));
    } else {
      hide GoodCut;
    }
  }

  lemma CutLength(s: string, f: Front)
    requires f.start + f.length <= |s|
    ensures |CutAt(s, f).separator| == f.length
  {}

  datatype Split = Split(code: int, pieces: seq<string>)

  /** What strsplit returns, allocation failures aside. */
  function StrSplitResult(s: Option<string>, separators: Option<seq<Option<string>>>, compress: int, keep: int): Split {
    if s.None? || s.value == "" || separators.None? || separators.value == [] || compress < 0 || keep < 0
       || (exists k :: 0 <= k < |separators.value| && (separators.value[k].None? || separators.value[k].value == ""))
    then Split(-1, [])
    else
      var seps := seq(|separators.value|, k requires 0 <= k < |separators.value| => separators.value[k].value);
      Split(if FrontOf(s.value, seps, |seps|).found then 1 else 0,
            AllPieces(Cuts(s.value, seps), compress > 0, keep > 0))
  }

  /** The inner loop of strsplit. */
  method FindFront(s: string, separators: seq<string>) returns (f: Front)
    requires NonEmpty(separators)
    ensures f == FrontOf(s, separators, |separators|)
  {
    hide StrStr;
    f := Front(|s|, 0, false);
    var i := 0;
    while i < |separators|
      invariant 0 <= i <= |separators| && f == FrontOf(s, separators, i)
    {
      var separatorStart := StrStr(s, separators[i]);
      if separatorStart.Some? {
        f := f.(found := true);
        if separatorStart.value < f.start {
          f := Front(separatorStart.value, |separators[i]|, true);
        }
      }
      i := i + 1;
    }
  }

  /** Something is found exactly when one of the separators occurs. */
  lemma FoundIfContained(s: string, separators: seq<string>)
    requires NonEmpty(separators)
    ensures FrontOf(s, separators, |separators|).found <==>
            exists k :: 0 <= k < |separators| && Contains(s, separators[k])
  {
    hide FrontOf;
    var k := FrontIsFirst(s, separators, |separators|);
    if FrontOf(s, separators, |separators|).found {
      assert Contains(s, separators[k]);
    }
  }

  /** The codes: -1 and nothing for a missing or empty text, a missing or empty list, a missing or empty separator or a
      negative flag, 1 when some separator occurs, and 0 otherwise. */
  lemma SplitCodes(s: Option<string>, separators: Option<seq<Option<string>>>, compress: int, keep: int)
    ensures var r := StrSplitResult(s, separators, compress, keep);
            var bad := s in {None, Some("")} || separators in {None, Some([])} || compress < 0 || keep < 0 ||
                       None in separators.value || Some("") in separators.value;
            && (bad ==> r == Split(-1, []))
            && (!bad ==> r.code == if exists t :: Some(t) in separators.value && Contains(s.value, t) then 1 else 0)
  {
    hide FrontOf, Cuts, AllPieces, Contains;
    var r := StrSplitResult(s, separators, compress, keep);
    if r.code != -1 {
      var seps := seq(|separators.value|, k requires 0 <= k < |separators.value| => separators.value[k].value);
      FoundIfContained(s.value, seps);
      if k :| 0 <= k < |seps| && Contains(s.value, seps[k]) {
        assert Some(seps[k]) == separators.value[k];
      }
      if t :| Some(t) in separators.value && Contains(s.value, t) {
        var k :| 0 <= k < |separators.value| && separators.value[k] == Some(t);
        assert seps[k] == t;
      }
    }
  }

  lemma PiecesStep(done: seq<string>, s: string, separators: seq<string>, compress: bool, keep: bool)
    requires s != "" && NonEmpty(separators)
    ensures var f := FrontOf(s, separators, |separators|);
            && f.start + f.length > 0 && (!f.found ==> s[f.start + f.length..] == "")
            && done + AllPieces(Cuts(s, separators), compress, keep) ==
               done + Pieces(CutAt(s, f), compress, keep) +
                 AllPieces(Cuts(s[f.start + f.length..], separators), compress, keep)
  {
    hide FrontOf, Pieces, CutAt;
    FrontMoves(s, separators);
    FrontSeparator(s, separators);
  }

  lemma NoCutsLeft(done: seq<string>, separators: seq<string>, compress: bool, keep: bool)
    requires NonEmpty(separators)
    ensures done + AllPieces(Cuts("", separators), compress, keep) == done
  {}

  /** strsplit. */
  method StrSplit(s: Option<string>, separators: Option<seq<Option<string>>>, compress: int, keep: int)
    returns (dest: seq<string>, code: int)
    ensures Split(code, dest) == StrSplitResult(s, separators, compress, keep)
  {
    hide FrontOf, AllPieces, Cuts;
    dest, code := [], 0;
    if s.None? || s.value == "" || separators.None? || |separators.value| <= 0 || compress < 0 || keep < 0 {
      return [], -1;
    }
    var i := 0;
    while i < |separators.value|
      invariant 0 <= i <= |separators.value|
      invariant forall k :: 0 <= k < i ==> separators.value[k].Some? && separators.value[k].value != ""
    {
      if separators.value[i].None? || separators.value[i].value == "" {
        return [], -1;
      }
      i := i + 1;
    }
    var seps := seq(|separators.value|, k requires 0 <= k < |separators.value| => separators.value[k].value);
    ghost var all := AllPieces(Cuts(s.value, seps), compress > 0, keep > 0);
    ghost var found := FrontOf(s.value, seps, |seps|).found;
    var lookAhead := s.value;
    assert [] + all == all;
    while lookAhead != ""
      invariant dest + AllPieces(Cuts(lookAhead, seps), compress > 0, keep > 0) == all
      invariant
        || (lookAhead == s.value && code == 0)
        || (code == (if found then 1 else 0) && (!found ==> lookAhead == ""))
      decreases |lookAhead|
    {
      PiecesStep(dest, lookAhead, seps, compress > 0, keep > 0);
      var front := FindFront(lookAhead, seps);
      if front.found {
        code := 1;
      }
      var text, separator := lookAhead[..front.start], lookAhead[front.start..front.start + front.length];
      ghost var was := dest;
      if text != "" || compress == 0 {
        dest := dest + [text];
      }
      if keep > 0 {
        dest := dest + [separator];
      }
      assert dest == was + Pieces(CutAt(lookAhead, front), compress > 0, keep > 0);
      lookAhead := lookAhead[front.start + front.length..];
    }
    NoCutsLeft(dest, seps, compress > 0, keep > 0);
  }

  /** Without compressing, every cut leaves its text, and its separator behind it where separators are kept. */
  lemma {:induction false} PlainPieces(cs: seq<Cut>)
    ensures var p, q := AllPieces(cs, false, false), AllPieces(cs, false, true);
            && |p| == |cs| && |q| == 2 * |cs|
            && forall i :: 0 <= i < |cs| ==>
                 p[i] == cs[i].text && q[2 * i] == cs[i].text && q[2 * i + 1] == cs[i].separator
  {
    if cs != [] {
      PlainPieces(cs[1..]);
      var p, q := AllPieces(cs, false, false), AllPieces(cs, false, true);
      assert p == [cs[0].text] + AllPieces(cs[1..], false, false);
      assert q == [cs[0].text, cs[0].separator] + AllPieces(cs[1..], false, true);
      forall i | 0 < i < |cs|
        ensures p[i] == cs[i].text && q[2 * i] == cs[i].text && q[2 * i + 1] == cs[i].separator
      {
        assert cs[i] == cs[1..][i - 1] && q[2 * i] == AllPieces(cs[1..], false, true)[2 * (i - 1)];
      }
    }
  }

  /** A list without its empty texts. */
  function Filled(ps: seq<string>): seq<string> {
    if ps == [] then [] else (if ps[0] == "" then [] else [ps[0]]) + Filled(ps[1..])
  }

  /** Compressing drops the empty texts and nothing else. */
  lemma {:induction false} CompressedPieces(cs: seq<Cut>)
    ensures AllPieces(cs, true, false) == Filled(AllPieces(cs, false, false))
  {
    if cs != [] {
      CompressedPieces(cs[1..]);
      var d := AllPieces(cs[1..], false, false);
      assert AllPieces(cs, false, false) == [cs[0].text] + d && ([cs[0].text] + d)[1..] == d;
    }
  }

  // ---- FindDBTable ----

  const KEYWORDS: seq<string> := ["SELECT", "INSERT", "UPDATE", "DELETE"]

  lemma Keywords()
    ensures NonEmpty(KEYWORDS) && forall k :: 0 <= k < |KEYWORDS| ==> |KEYWORDS[k]| == 6
  {}

  /** The text, cut at the four keywords, with the keywords among the pieces. */
  function Statement(sql: string): seq<string> {
    Keywords();
    AllPieces(Cuts(sql, KEYWORDS), true, true)
  }

  predicate HasKeyword(sql: string) {
    exists k :: 0 <= k < |KEYWORDS| && Contains(sql, KEYWORDS[k])
  }

  /** The command in one piece and the table in the next; in text without keywords, both anywhere. */
  predicate FindsTable(sql: string, cmd: string, table: string) {
    if HasKeyword(sql) then
      var p := Statement(sql);
      exists i :: 0 <= i < |p| - 1 && Contains(p[i], cmd) && Contains(p[i + 1], table)
    else Contains(sql, cmd) && Contains(sql, table)
  }

  lemma SplitAtKeywords(sql: string)
    ensures var keywords := Some([Some("SELECT"), Some("INSERT"), Some("UPDATE"), Some("DELETE")]);
            var r := StrSplitResult(Some(sql), keywords, 1, 1);
            && (r.code == 1 <==> HasKeyword(sql))
            && (r.code == 1 ==> r.pieces == Statement(sql))
  {
    hide FrontOf, AllPieces, Cuts, Contains;
    Keywords();
    FoundIfContained(sql, KEYWORDS);
    var opts := [Some("SELECT"), Some("INSERT"), Some("UPDATE"), Some("DELETE")];
    assert seq(4, k requires 0 <= k < 4 => opts[k].value) == KEYWORDS;
    if sql == "" {
      NothingContained();
    }
  }

  lemma FourKeywords(sql: string)
    ensures HasKeyword(sql) <==> Contains(sql, "SELECT") || Contains(sql, "INSERT") || Contains(sql, "UPDATE") ||
                                 Contains(sql, "DELETE")
  {
    hide Contains;
    assert KEYWORDS[0] == "SELECT" && KEYWORDS[1] == "INSERT" && KEYWORDS[2] == "UPDATE" && KEYWORDS[3] == "DELETE";
  }

  lemma NothingContained()
    ensures !HasKeyword("")
  {
    hide StrStr;
    Keywords();
  }

  /** In text without any of the four keywords the command and the table may stand anywhere. */
  method FindDBTable(sql: string, cmd: string, table: string) returns (rtn: int)
    ensures rtn == if FindsTable(sql, cmd, table) then 1 else 0
    ensures !(Contains(sql, "SELECT") || Contains(sql, "INSERT") || Contains(sql, "UPDATE") ||
              Contains(sql, "DELETE")) ==>
              rtn == if Contains(sql, cmd) && Contains(sql, table) then 1 else 0
  {
    FourKeywords(sql);
    hide StrSplitResult, Statement, HasKeyword, StrStr;
    rtn := 0;
    SplitAtKeywords(sql);
    var result, code :=
      StrSplit(Some(sql), Some([Some("SELECT"), Some("INSERT"), Some("UPDATE"), Some("DELETE")]), 1, 1);
    if code == 1 {
      var i := 0;
      while i < |result| - 1
        invariant 0 <= i && rtn == 0
        invariant forall j :: 0 <= j < i && j < |result| - 1 ==>
                    !(Contains(result[j], cmd) && Contains(result[j + 1], table))
      {
        if |result[i]| == |cmd| && Contains(result[i], cmd) {
          if Contains(result[i + 1], table) {
            return 1;
          }
        } else {
          if Contains(result[i], cmd) && Contains(result[i + 1], table) {
            return 1;
          }
        }
        i := i + 1;
      }
    } else if Contains(sql, cmd) && Contains(sql, table) {
      rtn := 1;
    }
  }

  /** A piece of a statement that contains a keyword is that keyword. */
  lemma KeywordPieces(sql: string, k: nat)
    requires k < |KEYWORDS|
    ensures forall p :: p in Statement(sql) ==> (Contains(p, KEYWORDS[k]) <==> p == KEYWORDS[k])
  {
    hide Contains, Cuts, AllPieces, GoodCut;
    Keywords();
    CutsAreGood(sql, KEYWORDS);
    var cs := Cuts(sql, KEYWORDS);
    forall p | p in AllPieces(cs, true, true)
      ensures Contains(p, KEYWORDS[k]) <==> p == KEYWORDS[k]
    {
      var c := CutOfPiece(cs, true, true, p);
      KeywordPiece(c, p, k);
    }
  }

  lemma {:induction false} CutOfPiece(cs: seq<Cut>, compress: bool, keep: bool, p: string) returns (c: Cut)
    requires p in AllPieces(cs, compress, keep)
    ensures c in cs && (p == c.text || p == c.separator)
  {
    if p in Pieces(cs[0], compress, keep) {
      c := cs[0];
    } else {
      c := CutOfPiece(cs[1..], compress, keep, p);
    }
  }

  lemma SameLength(p: string, t: string)
    requires |p| == |t|
    ensures Contains(p, t) <==> p == t
  {
    hide StrStr;
    assert p[0..|p|] == p;
    assert OccursAt(p, t, 0) <==> p == t;
  }

  lemma EmptyContainsNothing(t: string)
    requires t != ""
    ensures !Contains("", t)
  {
    hide StrStr;
  }

  lemma KeywordPiece(c: Cut, p: string, k: nat)
    requires GoodCut(c, KEYWORDS) && (p == c.text || p == c.separator) && k < |KEYWORDS|
    ensures Contains(p, KEYWORDS[k]) <==> p == KEYWORDS[k]
  {
    hide StrStr, Contains;
    Keywords();
    SameLength(KEYWORDS[k], KEYWORDS[k]);
    EmptyContainsNothing(KEYWORDS[k]);
    if p in KEYWORDS {
      SameLength(p, KEYWORDS[k]);
    }
  }

  /** One of the four commands between two texts, and no other occurrence of any of them. */
  ghost predicate OneCommand(a: string, word: string, b: string) {
    && word in ["SELECT", "INSERT", "UPDATE", "DELETE"]
    && forall w, i: nat :: w in ["SELECT", "INSERT", "UPDATE", "DELETE"] ==>
         (OccursAt(a + word + b, w, i) <==> w == word && i == |a|)
  }

  lemma OneCommandFront(a: string, word: string, b: string)
    requires OneCommand(a, word, b)
    ensures FrontOf(a + word + b, KEYWORDS, 4) == Front(|a|, |word|, true) && word != ""
    ensures NonEmpty(KEYWORDS) && HasKeyword(a + word + b)
  {
    hide StrStr, FrontOf;
    Keywords();
    var s := a + word + b;
    assert OccursAt(s, word, |a|);
    var j :| 0 <= j < 4 && KEYWORDS[j] == word;
    assert Contains(s, KEYWORDS[j]);
    var k := FrontIsFirst(s, KEYWORDS, 4);
    assert OccursAt(s, KEYWORDS[k], StrStr(s, KEYWORDS[k]).value);
  }

  lemma NoCommandBehind(a: string, word: string, b: string)
    requires OneCommand(a, word, b) && b != ""
    ensures NonEmpty(KEYWORDS) && Cuts(b, KEYWORDS) == [Cut(b, "")]
  {
    hide StrStr, FrontOf;
    Keywords();
    var s := a + word + b;
    assert s[|a| + |word|..|s|] == b;
    var k := FrontIsFirst(b, KEYWORDS, 4);
    if FrontOf(b, KEYWORDS, 4).found {
      var i := StrStr(b, KEYWORDS[k]).value;
      OccursInPart(s, KEYWORDS[k], |a| + |word|, |s|, i);
    }
    assert b[|b|..] == "" && b[..|b|] == b && b[|b|..|b|] == "";
  }

  /** The pieces of a statement with one command: the text before it, the command, the text behind it. */
  lemma OneCommandPieces(a: string, word: string, b: string)
    requires OneCommand(a, word, b)
    ensures Statement(a + word + b) == (if a == "" then [] else [a]) + [word] + (if b == "" then [] else [b, ""])
  {
    hide FrontOf, StrStr, Contains;
    OneCommandFront(a, word, b);
    var s := a + word + b;
    assert s[..|a|] == a && s[|a|..|a| + |word|] == word && s[|a| + |word|..] == b;
    var c := Cut(a, word);
    assert Cuts(s, KEYWORDS) == [c] + Cuts(b, KEYWORDS) && |KEYWORDS| == 4;
    assert ([c] + Cuts(b, KEYWORDS))[1..] == Cuts(b, KEYWORDS);
    if b != "" {
      NoCommandBehind(a, word, b);
      assert [Cut(b, "")][1..] == [];
      assert AllPieces([Cut(b, "")], true, true) == [b, ""] + [] == [b, ""];
    }
    assert AllPieces(Cuts(s, KEYWORDS), true, true) == Pieces(c, true, true) + AllPieces(Cuts(b, KEYWORDS), true, true);
  }

  /** With one command in the text, the command asked for must stand before the table asked for: in the
      command itself and the text behind it, or in neighbouring parts otherwise. */
  lemma OneCommandOnly(a: string, word: string, b: string, cmd: string, table: string)
    requires OneCommand(a, word, b)
    ensures FindsTable(a + word + b, cmd, table) <==>
            || (a != "" && Contains(a, cmd) && Contains(word, table))
            || (b != "" && Contains(word, cmd) && Contains(b, table))
            || (b != "" && Contains(b, cmd) && Contains("", table))
  {
    hide Contains, Statement, FrontOf, HasKeyword, OneCommand;
    OneCommandFront(a, word, b);
    OneCommandPieces(a, word, b);
    var p := Statement(a + word + b);
    if a == "" && b != "" {
      assert p[0] == word && p[1] == b && p[2] == "";
    } else if a != "" && b != "" {
      assert p[0] == a && p[1] == word && p[2] == b && p[3] == "";
    } else if a != "" {
      assert p[0] == a && p[1] == word;
    }
  }

  /** For one of the four commands, the search finds a table that stands in the piece right behind the command. */
  lemma CommandThenTable(sql: string, k: nat, table: string)
    requires k < |KEYWORDS| && HasKeyword(sql)
    ensures FindsTable(sql, KEYWORDS[k], table) <==>
            exists i :: 0 <= i < |Statement(sql)| - 1 && Statement(sql)[i] == KEYWORDS[k] &&
                        Contains(Statement(sql)[i + 1], table)
  {
    hide Contains, Statement, HasKeyword;
    KeywordPieces(sql, k);
    var p := Statement(sql);
    assert forall i :: 0 <= i < |p| ==> p[i] in p;
  }

  // ---- MatchCclItem ----

  /** strtok with one delimiter: the longest stretches without it. */
  function Tokens(s: string, delimiter: char): (ts: seq<string>)
    decreases |s|
  {
    if s == "" then []
    else if s[0] == delimiter then Tokens(s[1..], delimiter)
    else
      var n := TokenLength(s, delimiter);
      [s[..n]] + Tokens(s[n..], delimiter)
  }

  function TokenLength(s: string, delimiter: char): (n: nat)
    ensures n <= |s| && delimiter !in s[..n]
    ensures n < |s| ==> s[n] == delimiter
    ensures s != "" && s[0] != delimiter ==> n > 0
  {
    if s == "" || s[0] == delimiter then 0
    else
      var n := TokenLength(s[1..], delimiter);
      assert s[..n + 1] == [s[0]] + s[1..][..n];
      n + 1
  }

  /** A stretch without the delimiter that cannot be made longer. */
  ghost predicate IsToken(s: string, delimiter: char, i: nat, j: nat) {
    && i < j <= |s| && delimiter !in s[i..j]
    && (i == 0 || s[i - 1] == delimiter) && (j == |s| || s[j] == delimiter)
  }

  /** The length of what the first step over a text takes: a delimiter or a token. */
  function StepLength(s: string, delimiter: char): (n: nat)
    requires s != ""
    ensures 0 < n <= |s|
  {
    if s[0] == delimiter then 1 else TokenLength(s, delimiter)
  }

  lemma TokensStep(s: string, delimiter: char, t: string)
    requires s != ""
    ensures var n := StepLength(s, delimiter);
            t in Tokens(s, delimiter) <==> (s[0] != delimiter && t == s[..n]) || t in Tokens(s[n..], delimiter)
  {}

  lemma StretchLater(s: string, delimiter: char, i: nat, j: nat)
    requires s != "" && IsToken(s[StepLength(s, delimiter)..], delimiter, i, j)
    ensures var n := StepLength(s, delimiter);
            IsToken(s, delimiter, n + i, n + j) && s[n + i..n + j] == s[n..][i..j]
  {
    var n := StepLength(s, delimiter);
    SliceOfRest(s, n, i, j);
    assert forall k :: i <= k < j ==> s[n..][k] in s[n..][i..j];
    assert j < |s[n..]| ==> s[n..][j] == s[n + j];
  }

  /** A stretch either is the first token or lies behind the first step. */
  lemma StretchHere(s: string, delimiter: char, i: nat, j: nat)
    requires s != "" && IsToken(s, delimiter, i, j)
    ensures var n := StepLength(s, delimiter);
            if i < n then s[0] != delimiter && s[i..j] == s[..n]
            else IsToken(s[n..], delimiter, i - n, j - n) && s[n..][i - n..j - n] == s[i..j]
  {
    var n := StepLength(s, delimiter);
    assert forall k :: i <= k < j ==> s[k] in s[i..j];
    assert s[0] != delimiter ==> forall k :: 0 <= k < n ==> s[k] in s[..n];
    if i >= n {
      SliceOfRest(s, n, i - n, j - n);
    }
  }

  lemma SliceOfRest(s: string, n: nat, i: nat, j: nat)
    requires i <= j && n + j <= |s|
    ensures s[n..][i..j] == s[n + i..n + j]
  {
    var a, b := s[n..][i..j], s[n + i..n + j];
    assert |a| == |b| && forall k :: 0 <= k < |a| ==> a[k] == b[k];
  }

  lemma {:induction false} TokenIsStretch(s: string, delimiter: char, t: string) returns (i: nat, j: nat)
    requires t in Tokens(s, delimiter)
    ensures IsToken(s, delimiter, i, j) && s[i..j] == t
    decreases |s|
  {
    hide Tokens, IsToken;
    TokensOfNothing(delimiter);
    var n := StepLength(s, delimiter);
    TokensStep(s, delimiter, t);
    if s[0] != delimiter && t == s[..n] {
      FirstToken(s, delimiter);
      i, j := 0, n;
    } else {
      var i', j' := TokenIsStretch(s[n..], delimiter, t);
      StretchLater(s, delimiter, i', j');
      i, j := n + i', n + j';
    }
  }

  lemma TokensOfNothing(delimiter: char)
    ensures Tokens("", delimiter) == []
  {}

  lemma FirstToken(s: string, delimiter: char)
    requires s != "" && s[0] != delimiter
    ensures var n := StepLength(s, delimiter); IsToken(s, delimiter, 0, n) && s[0..n] == s[..n]
  {}

  lemma TokenIsSomething(s: string, delimiter: char, i: nat, j: nat)
    requires IsToken(s, delimiter, i, j)
    ensures s != "" && i <= j <= |s|
  {}

  lemma {:induction false} StretchIsToken(s: string, delimiter: char, i: nat, j: nat)
    requires IsToken(s, delimiter, i, j)
    ensures s[i..j] in Tokens(s, delimiter)
    decreases |s|
  {
    hide *;
    TokenIsSomething(s, delimiter, i, j);
    var n := StepLength(s, delimiter);
    StretchHere(s, delimiter, i, j);
    TokensStep(s, delimiter, s[i..j]);
    if i >= n {
      StretchIsToken(s[n..], delimiter, i - n, j - n);
    }
  }

  /** Tokens are such stretches, and every such stretch is a token. */
  lemma TokensAreStretches(s: string, delimiter: char, t: string)
    ensures t in Tokens(s, delimiter) <==> exists i: nat, j: nat :: IsToken(s, delimiter, i, j) && s[i..j] == t
  {
    hide Tokens;
    if t in Tokens(s, delimiter) {
      var i, j := TokenIsStretch(s, delimiter, t);
    }
    forall i: nat, j: nat | IsToken(s, delimiter, i, j) && s[i..j] == t
      ensures t in Tokens(s, delimiter)
    {
      StretchIsToken(s, delimiter, i, j);
    }
  }

  datatype CclItem = CclItem(command: string, table: string)

  /** One line of the list applies to a statement. */
  predicate Applies(item: CclItem, sql: string) {
    if item.table == "" then Contains(sql, item.command)
    else exists t :: t in Tokens(item.table, ',') && FindsTable(sql, item.command, t)
  }

  predicate AnyApplies(items: seq<CclItem>, sql: string) {
    exists i :: 0 <= i < |items| && Applies(items[i], sql)
  }

  /** The token loop over one table list. */
  method MatchTables(item: CclItem, sql: string) returns (r: bool)
    ensures r <==> exists t :: t in Tokens(item.table, ',') && FindsTable(sql, item.command, t)
  {
    hide FindsTable;
    var rest := item.table;
    ghost var passed: seq<string> := [];
    assert [] + Tokens(rest, ',') == Tokens(rest, ',');
    while rest != ""
      invariant passed + Tokens(rest, ',') == Tokens(item.table, ',')
      invariant forall t :: t in passed ==> !FindsTable(sql, item.command, t)
      decreases |rest|
    {
      if rest[0] == ',' {
        rest := rest[1..];
      } else {
        var n := TokenLength(rest, ',');
        var token := rest[..n];
        var found := FindDBTable(sql, item.command, token);
        assert passed + ([token] + Tokens(rest[n..], ',')) == passed + [token] + Tokens(rest[n..], ',');
        if found == 1 {
          assert token in passed + [token] + Tokens(rest[n..], ',');
          return true;
        }
        passed := passed + [token];
        rest := rest[n..];
      }
    }
    assert passed == Tokens(item.table, ',');
    r := false;
  }

  /** MatchCclItem: type 1 says that a line applies, type 2 that none does; an empty list says 0 for both. */
  method MatchCclItem(policy: Option<seq<CclItem>>, cmd: string, kind: int) returns (rtn: int)
    ensures policy.None? || policy.value == [] ==> rtn == 0
    ensures policy.Some? && policy.value != [] ==>
              forall t :: Capitals(cmd, t) ==> rtn == if (kind == 2) != AnyApplies(policy.value, t) then 1 else 0
  {
    CapitalsAreUpper(cmd);
    hide Contains, FindsTable;
    if policy.None? {
      return 0;
    }
    var items := policy.value;
    if |items| <= 0 {
      return 0;
    }
    rtn := if kind == 2 then 1 else 0;
    var mycmd := Upper(cmd);
    var i := 0;
    while i < |items|
      invariant 0 <= i <= |items| && rtn == if kind == 2 then 1 else 0
      invariant forall j :: 0 <= j < i ==> !Applies(items[j], mycmd)
    {
      if |items[i].table| <= 0 {
        if Contains(mycmd, items[i].command) {
          assert Applies(items[i], mycmd);
          return if rtn == 0 then 1 else 0;
        }
      } else {
        var found := MatchTables(items[i], mycmd);
        if found {
          assert Applies(items[i], mycmd);
          return if rtn == 0 then 1 else 0;
        }
      }
      i := i + 1;
    }
  }

  /** The answers for the two kinds of list, black and white, are opposite. */
  method MatchBothKinds(items: seq<CclItem>, cmd: string) returns (black: int, white: int)
    requires items != []
    ensures white == 1 - black && black in {0, 1}
  {
    CapitalsAreUpper(cmd);
    assert Capitals(cmd, Upper(cmd));
    black := MatchCclItem(Some(items), cmd, 1);
    white := MatchCclItem(Some(items), cmd, 2);
  }
}
