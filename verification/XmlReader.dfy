// The parser of TinyXML as it runs (tinyxmlparser.cpp): loops that move a
// pointer and a document that keeps the first error. Every method computes
// what the function of the same name in XmlText or XmlParser says.
module XmlReader {
  import opened Options
  import T = XmlText
  import P = XmlParser
  import opened XmlText
  import opened XmlParser

  // ---- Characters and names ----

  method SkipWhiteSpace(enc: Encoding, start: Ptr) returns (p: Ptr)
    ensures p == T.SkipWhiteSpace(enc, start)
  {
    if start.None? || start.value == "" {
      return None;
    }
    var s := start.value;
    if enc.Utf8? {
      while s != ""
        invariant SkipWhite(enc, s) == SkipWhite(enc, start.value)
        decreases |s|
      {
        if StartsWithMark(s) {
          s := s[3..];
        } else if IsWhiteSpace(s[0]) {
          s := s[1..];
        } else {
          break;
        }
      }
    } else {
      while s != "" && IsWhiteSpace(s[0])
        invariant SkipWhite(enc, s) == SkipWhite(enc, start.value)
        decreases |s|
      {
        s := s[1..];
      }
    }
    p := Some(s);
  }

  method ReadName(start: Ptr) returns (p: Ptr, name: string)
    ensures var n := NameLength(start);
            if n.None? then p.None? && name == ""
            else p == Some(start.value[n.value..]) && name == start.value[..n.value]
  {
    p, name := None, "";
    if start.Some? && start.value != "" && IsNameStart(start.value[0]) {
      var n := 0;
      var s := start.value;
      assert s[0..] == s;
      while n < |s| && IsNameChar(s[n])
        invariant 0 <= n <= |s|
        invariant n + NameRun(s[n..]) == NameRun(s)
      {
        assert s[n..][1..] == s[n + 1..];
        n := n + 1;
      }
      p, name := Some(s[n..]), s[..n];
    }
  }

  method StringEqual(p: string, tag: string, ignoreCase: bool) returns (r: bool)
    ensures r == T.StringEqual(p, tag, ignoreCase)
  {
    if p == "" {
      return false;
    }
    var i := 0;
    if ignoreCase {
      while i < |p| && i < |tag| && ToLower(p[i]) == ToLower(tag[i])
        invariant 0 <= i <= |p| && i <= |tag|
        invariant forall j :: 0 <= j < i ==> ToLower(p[j]) == ToLower(tag[j])
      {
        i := i + 1;
      }
    } else {
      while i < |p| && i < |tag| && p[i] == tag[i]
        invariant 0 <= i <= |p| && i <= |tag|
        invariant forall j :: 0 <= j < i ==> p[j] == tag[j]
      {
        i := i + 1;
      }
    }
    r := i == |tag|;
  }

  // ---- Entities ----

  method Strchr(s: string, c: char) returns (r: Option<nat>)
    ensures r == Find(s, c)
  {
    var i := 0;
    assert s[0..] == s;
    while i < |s|
      invariant 0 <= i <= |s|
      invariant Find(s, c) == match Find(s[i..], c) case Some(k) => Some(i + k) case None => None
    {
      if s[i] == c {
        return Some(i);
      }
      assert s[i..][1..] == s[i + 1..];
      i := i + 1;
    }
    r := None;
  }

  /** The digits of a reference, from the one before its ';' back to `stop`. */
  method ReadDigits(p: string, first: nat, semi: nat, stop: char, base: nat) returns (r: Option<nat>)
    requires 0 < first <= semi < |p| && p[first - 1] == stop && base in {10, 16}
    ensures r == WalkBack(p[first - 1..semi], stop, base, 0, 1)
  {
    var ucs: nat, mult: nat := 0, 1;
    var q := semi - 1;
    while p[q] != stop
      invariant first - 1 <= q < semi
      invariant WalkBack(p[first - 1..q + 1], stop, base, ucs, mult) == WalkBack(p[first - 1..semi], stop, base, 0, 1)
      decreases q
    {
      ghost var s := p[first - 1..q + 1];
      assert s[|s| - 1] == p[q] && s[..|s| - 1] == p[first - 1..q];
      var v := if base == 16 then HexValue(p[q]) else DecValue(p[q]);
      if v.None? {
        return None;
      }
      ucs := (ucs + mult * v.value % WORD) % WORD;
      mult := mult * base % WORD;
      q := q - 1;
    }
    r := Some(ucs);
  }

  const ENTITIES: seq<(string, char)> :=
    [("&amp;", '&'), ("&lt;", '<'), ("&gt;", '>'), ("&quot;", '\"'), ("&apos;", '\'')]

  method GetEntity(enc: Encoding, p: string) returns (rest: Ptr, value: string)
    requires p != "" && p[0] == '&'
    ensures CharResult(rest, value) == T.GetEntity(enc, p)
  {
    hide WalkBack, ReferenceBytes;
    if |p| > 2 && p[1] == '#' {
      if p[2] == 'x' {
        var q := Strchr(p[3..], ';');
        if q.None? {
          return None, "";
        }
        var ucs := ReadDigits(p, 3, 3 + q.value, 'x', 16);
        if ucs.None? {
          return None, "";
        }
        return Some(p[3 + q.value + 1..]), ReferenceBytes(enc, ucs.value);
      } else {
        var q := Strchr(p[2..], ';');
        if q.None? {
          return None, "";
        }
        var ucs := ReadDigits(p, 2, 2 + q.value, '#', 10);
        if ucs.None? {
          return None, "";
        }
        return Some(p[2 + q.value + 1..]), ReferenceBytes(enc, ucs.value);
      }
    }
    rest, value := MatchEntity(p);
    if rest.None? {
      rest, value := Some(p[1..]), "";
    }
  }

  /** The table loop: at most one entry can match, so it does not matter that the first one wins. */
  method MatchEntity(p: string) returns (rest: Ptr, value: string)
    requires p != ""
    ensures if T.StringEqual(p, "&amp;", false) then rest == Some(p[5..]) && value == "&"
            else if T.StringEqual(p, "&lt;", false) then rest == Some(p[4..]) && value == "<"
            else if T.StringEqual(p, "&gt;", false) then rest == Some(p[4..]) && value == ">"
            else if T.StringEqual(p, "&quot;", false) then rest == Some(p[6..]) && value == "\""
            else if T.StringEqual(p, "&apos;", false) then rest == Some(p[6..]) && value == "\'"
            else rest == None
  {
    hide T.StringEqual;
    var i := 0;
    while i < 5
      invariant 0 <= i <= 5
      invariant forall j :: 0 <= j < i ==> !T.StringEqual(p, ENTITIES[j].0, false)
    {
      var eq := StringEqual(p, ENTITIES[i].0, false);
      if eq {
        EntityFits(p, ENTITIES[i].0);
        assert i > 0 ==> !T.StringEqual(p, ENTITIES[0].0, false);
        assert i > 1 ==> !T.StringEqual(p, ENTITIES[1].0, false);
        assert i > 2 ==> !T.StringEqual(p, ENTITIES[2].0, false);
        assert i > 3 ==> !T.StringEqual(p, ENTITIES[3].0, false);
        return Some(p[|ENTITIES[i].0|..]), [ENTITIES[i].1];
      }
      i := i + 1;
    }
    assert !T.StringEqual(p, ENTITIES[0].0, false) && !T.StringEqual(p, ENTITIES[1].0, false)
        && !T.StringEqual(p, ENTITIES[2].0, false) && !T.StringEqual(p, ENTITIES[3].0, false)
        && !T.StringEqual(p, ENTITIES[4].0, false);
    return None, "";
  }

  lemma EntityFits(p: string, tag: string)
    requires T.StringEqual(p, tag, false)
    ensures |tag| <= |p|
  {}

  method GetChar(enc: Encoding, p: string) returns (rest: Ptr, value: string)
    requires p != ""
    ensures CharResult(rest, value) == T.GetChar(enc, p)
  {
    hide T.GetEntity;
    var n := UnitLength(enc, p);
    if p[0] == '&' {
      rest, value := GetEntity(enc, p);
    } else {
      rest, value := Some(p[n..]), p[..n];
    }
  }

  // ---- Text ----

  method KeepText(enc: Encoding, start: Ptr, end: string) returns (p: Ptr, text: string)
    ensures TextResult(p, text) == ReadKeep(enc, start, end, "")
  {
    hide T.GetChar, T.StringEqual;
    p, text := start, "";
    while p.Some? && p.value != ""
      invariant ReadKeep(enc, p, end, text) == ReadKeep(enc, start, end, "")
      decreases if p.Some? then |p.value| else -1
    {
      var eq := StringEqual(p.value, end, false);
      if eq {
        break;
      }
      var c;
      p, c := GetChar(enc, p.value);
      text := text + c;
      if p.None? {
        assert text + "" == text;
      }
    }
  }

  method CondenseText(enc: Encoding, start: Ptr, end: string) returns (p: Ptr, text: string)
    ensures TextResult(p, text) == ReadCondensed(enc, start, end, "", false)
  {
    hide T.GetChar, T.StringEqual;
    p, text := start, "";
    var whitespace := false;
    while p.Some? && p.value != ""
      invariant ReadCondensed(enc, p, end, text, whitespace) == ReadCondensed(enc, start, end, "", false)
      decreases if p.Some? then |p.value| else -1
    {
      var eq := StringEqual(p.value, end, false);
      if eq {
        break;
      }
      if IsWhiteSpace(p.value[0]) {
        whitespace := true;
        p := Some(p.value[1..]);
      } else {
        if whitespace {
          text := text + " ";
          whitespace := false;
        }
        var c;
        p, c := GetChar(enc, p.value);
        text := text + c;
      }
    }
  }

  method ReadText(enc: Encoding, condense: bool, start: Ptr, trim: bool, end: string) returns (p: Ptr, text: string)
    requires end != ""
    ensures TextResult(p, text) == T.ReadText(enc, condense, start, trim, end)
  {
    hide ReadKeep, ReadCondensed, T.SkipWhiteSpace;
    if !trim || !condense {
      p, text := KeepText(enc, start, end);
    } else {
      p := SkipWhiteSpace(enc, start);
      p, text := CondenseText(enc, p, end);
    }
    p := PastEnd(p, end);
  }

  /** The raw loops of comments, CDATA sections and unknown tags. */
  method ReadRaw(start: string, end: string) returns (p: string, value: string)
    ensures var n := RawLength(start, end); p == start[n..] && value == start[..n]
  {
    hide T.StringEqual;
    p, value := start, "";
    assert start[..0] == "" && start[0..] == start;
    ghost var n := 0;
    while p != ""
      invariant n <= |start| && p == start[n..] && value == start[..n]
      invariant n + RawLength(p, end) == RawLength(start, end)
      decreases |p|
    {
      var eq := StringEqual(p, end, false);
      if eq {
        break;
      }
      value := value + [p[0]];
      p := p[1..];
      n := n + 1;
    }
  }

  /** TiXmlText::Blank. */
  method Blank(value: string) returns (r: bool)
    ensures r == P.Blank(value)
  {
    var i := 0;
    while i < |value|
      invariant 0 <= i <= |value| && forall j :: 0 <= j < i ==> IsWhiteSpace(value[j])
    {
      if !IsWhiteSpace(value[i]) {
        return false;
      }
      i := i + 1;
    }
    r := true;
  }
}
