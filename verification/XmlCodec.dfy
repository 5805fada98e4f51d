// Reading back what EncodeString wrote: character by character, in attribute
// values, and in running text with white space condensed.
module XmlCodec {
  import opened Options
  import opened XmlText
  import opened XmlPrinter

  /** No hexadecimal reference starts anywhere in the text. */
  predicate NoReference(s: string) {
    forall i :: 0 <= i < |s| ==> !StartsReference(s[i..])
  }

  /** The text is made of whole characters: in UTF-8, every sequence has its continuation bytes. */
  predicate Whole(enc: Encoding, s: string) {
    if s == "" || !enc.Utf8? then true
    else
      var n := Utf8Length(s[0]);
      n <= |s| && (forall i :: 0 < i < n ==> s[i] as int >= 0x80) && Whole(enc, s[n..])
  }

  /** What the first character of a text is encoded to. */
  function EncodedUnit(enc: Encoding, s: string): string
    requires s != ""
  {
    var n := UnitLength(enc, s);
    if n == 1 then EncodeChar(s[0]) else s[..n]
  }

  lemma NoReferenceSuffix(s: string, n: nat)
    requires NoReference(s) && n <= |s|
    ensures NoReference(s[n..])
  {
    forall i | 0 <= i < |s[n..]|
      ensures !StartsReference(s[n..][i..])
    {
      assert s[n..][i..] == s[n + i..];
    }
  }

  lemma RawChar(c: char)
    requires c as int >= 0x80
    ensures EncodeChar(c) == [c]
  {}

  lemma RawStep(s: string)
    requires s != "" && s[0] as int >= 0x80
    ensures Encode(s) == [s[0]] + Encode(s[1..])
  {
    hide EncodeChar, PassThrough;
    RawChar(s[0]);
  }

  lemma {:induction false} EncodeRaw(s: string, n: nat)
    requires n <= |s| && forall i :: 0 <= i < n ==> s[i] as int >= 0x80
    ensures Encode(s) == s[..n] + Encode(s[n..])
  {
    hide *;
    if n == 0 {
      assert s[0..] == s && s[..0] + Encode(s) == Encode(s);
    } else {
      RawStep(s);
      EncodeRaw(s[1..], n - 1);
      assert s[1..][n - 1..] == s[n..];
      assert s[..n] == [s[0]] + s[1..][..n - 1];
      assert [s[0]] + (s[1..][..n - 1] + Encode(s[n..])) == [s[0]] + s[1..][..n - 1] + Encode(s[n..]);
    }
  }

  /** Encoding goes unit by unit. */
  lemma EncodeByUnit(enc: Encoding, s: string)
    requires s != "" && Whole(enc, s) && !StartsReference(s)
    ensures Encode(s) == EncodedUnit(enc, s) + Encode(s[UnitLength(enc, s)..])
  {
    var n := UnitLength(enc, s);
    if n > 1 {
      EncodeRaw(s, n);
    }
  }

  lemma WalkTwo(front: string, h: char, l: char)
    requires HexValue(h).Some? && HexValue(l).Some? && h != 'x' && l != 'x' && (front != "" ==> front[0] == 'x')
    ensures WalkBack(front + ['x', h, l], 'x', 16, 0, 1) == Some(HexValue(h).value * 16 + HexValue(l).value)
  {
    hide WalkBack, HexValue;
    var a, b := HexValue(h).value, HexValue(l).value;
    var s := front + ['x'];
    assert front + ['x', h, l] == s + [h] + [l];
    WalkStep(s + [h], l, 0, 1);
    WalkStep(s, h, b, 16);
    WalkEnd(s, 16 * a + b, 256);
  }

  lemma WalkStep(s: string, c: char, ucs: nat, mult: nat)
    requires s != "" && s[0] == 'x' && c != 'x' && HexValue(c).Some?
    ensures WalkBack(s + [c], 'x', 16, ucs, mult) ==
            WalkBack(s, 'x', 16, (ucs + mult * HexValue(c).value % WORD) % WORD, mult * 16 % WORD)
  {
    hide HexValue;
    assert (s + [c])[..|s|] == s;
  }

  lemma WalkEnd(s: string, ucs: nat, mult: nat)
    requires s != "" && s[0] == 'x' && s[|s| - 1] == 'x'
    ensures WalkBack(s, 'x', 16, ucs, mult) == Some(ucs)
  {}

  lemma UpperHexValue(v: nat)
    requires v < 16
    ensures HexValue(UpperHex(v)) == Some(v) && UpperHex(v) !in {';', 'x'}
  {}

  lemma FindThird(h: char, l: char, tail: string)
    requires h != ';' && l != ';'
    ensures Find([h, l] + ";" + tail, ';') == Some(2)
  {
    var s := [h, l] + ";" + tail;
    assert s[0] == h && s[1..][0] == l && s[1..][1..][0] == ';';
  }

  lemma ControlReference(enc: Encoding, c: char, tail: string)
    requires c as int < 32
    ensures GetEntity(enc, EncodeChar(c) + tail) == CharResult(Some(tail), [c])
  {
    hide WalkBack, Find, UpperHex, HexValue;
    var h, l := UpperHex(c as int / 16), UpperHex(c as int % 16);
    var p := EncodeChar(c) + tail;
    assert p == "&#x" + [h, l] + ";" + tail;
    UpperHexValue(c as int / 16);
    UpperHexValue(c as int % 16);
    FindThird(h, l, tail);
    WalkTwo("", h, l);
    assert "" + ['x', h, l] == ['x', h, l];
    assert p[3..] == [h, l] + ";" + tail;
    assert p[2..5] == ['x', h, l] && p[6..] == tail;
  }

  lemma NamedReference(enc: Encoding, c: char, tail: string)
    requires c in {'&', '<', '>', '\"', '\''}
    ensures GetEntity(enc, EncodeChar(c) + tail) == CharResult(Some(tail), [c])
  {
    var p := EncodeChar(c) + tail;
    var k := |EncodeChar(c)|;
    assert p[k..] == tail;
    assert p[1] == if c in {'&', '\''} then 'a' else if c == '<' then 'l' else if c == '>' then 'g' else 'q';
    assert c in {'&', '\''} ==> p[2] == if c == '&' then 'm' else 'p';
  }

  /** One step of reading gives back one encoded unit. */
  lemma GetCharUnit(enc: Encoding, s: string, tail: string)
    requires s != "" && Whole(enc, s)
    ensures var n := UnitLength(enc, s);
            GetChar(enc, EncodedUnit(enc, s) + tail) == CharResult(Some(tail), s[..n])
  {
    hide GetEntity;
    var n := UnitLength(enc, s);
    var c := s[0];
    var p := EncodedUnit(enc, s) + tail;
    if n > 1 {
      assert p[..n] == s[..n] && p[n..] == tail;
    } else if c in {'&', '<', '>', '\"', '\''} {
      NamedReference(enc, c, tail);
      assert s[..1] == [c];
    } else if c as int < 32 {
      ControlReference(enc, c, tail);
      assert s[..1] == [c];
    } else {
      assert p[1..] == tail && p[..1] == s[..1];
    }
  }

  /** How a unit starts: never with a character that ends a text run. */
  lemma UnitStart(enc: Encoding, s: string)
    requires s != "" && Whole(enc, s)
    ensures EncodedUnit(enc, s) != ""
    ensures EncodedUnit(enc, s)[0] !in {'<', '>', '\"', '\''}
    ensures IsWhiteSpace(EncodedUnit(enc, s)[0]) <==> s[0] == ' '
  {}

  lemma ReadKeepStep(enc: Encoding, p: string, end: string, acc: string)
    requires p != "" && !StringEqual(p, end, false) && GetChar(enc, p).rest.Some?
    ensures var c := GetChar(enc, p);
            ReadKeep(enc, Some(p), end, acc) == ReadKeep(enc, c.rest, end, acc + c.out)
  {
    hide GetChar;
  }

  lemma NextUnit(enc: Encoding, s: string)
    requires s != "" && Whole(enc, s) && NoReference(s)
    ensures var n := UnitLength(enc, s);
            && Whole(enc, s[n..]) && NoReference(s[n..])
            && Encode(s) == EncodedUnit(enc, s) + Encode(s[n..])
  {
    hide Encode;
    NoReferenceSuffix(s, UnitLength(enc, s));
    assert s[0..] == s;
    EncodeByUnit(enc, s);
  }

  lemma ReadKeepUnit(enc: Encoding, s: string, rest: string, end: string, acc: string)
    requires s != "" && Whole(enc, s)
    requires end != "" && end[0] in {'<', '\"', '\''}
    ensures ReadKeep(enc, Some(EncodedUnit(enc, s) + rest), end, acc) ==
            ReadKeep(enc, Some(rest), end, acc + s[..UnitLength(enc, s)])
  {
    UnitStart(enc, s);
    GetCharUnit(enc, s, rest);
    hide EncodedUnit, GetChar, ReadKeep, Whole;
    ReadKeepStep(enc, EncodedUnit(enc, s) + rest, end, acc);
  }

  lemma EncodeNothing(tail: string)
    ensures Encode("") + tail == tail
  {}

  lemma ReadKeepAtEnd(enc: Encoding, tail: string, end: string, acc: string)
    requires StringEqual(tail, end, false)
    ensures ReadKeep(enc, Some(tail), end, acc) == TextResult(Some(tail), acc)
  {}

  /** Reading with white space kept gives back the encoded text and goes on behind it. */
  lemma {:induction false} KeepPart(enc: Encoding, s: string, rest: string, end: string, acc: string)
    requires Whole(enc, s) && NoReference(s) && end != "" && end[0] in {'<', '\"', '\''}
    ensures ReadKeep(enc, Some(Encode(s) + rest), end, acc) == ReadKeep(enc, Some(rest), end, acc + s)
    decreases |s|
  {
    hide *;
    if s == "" {
      EncodeNothing(rest);
      assert acc + s == acc;
    } else {
      var n := UnitLength(enc, s);
      NextUnit(enc, s);
      var u, r := EncodedUnit(enc, s), Encode(s[n..]);
      assert u + r + rest == u + (r + rest);
      ReadKeepUnit(enc, s, r + rest, end, acc);
      KeepPart(enc, s[n..], rest, end, acc + s[..n]);
      assert acc + s[..n] + s[n..] == acc + s;
    }
  }

  /** Up to the end mark. */
  lemma ReadKeepEncoded(enc: Encoding, s: string, end: string, tail: string, acc: string)
    requires Whole(enc, s) && NoReference(s)
    requires end != "" && end[0] in {'<', '\"', '\''} && StringEqual(tail, end, false)
    ensures ReadKeep(enc, Some(Encode(s) + tail), end, acc) == TextResult(Some(tail), acc + s)
  {
    hide *;
    KeepPart(enc, s, tail, end, acc);
    ReadKeepAtEnd(enc, tail, end, acc + s);
  }

  // ---- White space ----

  predicate AllWhite(w: string) {
    forall i :: 0 <= i < |w| ==> IsWhiteSpace(w[i])
  }

  /** White space in front makes no difference to where SkipWhiteSpace stops. */
  lemma {:induction false} SkipWhiteRun(enc: Encoding, w: string, tail: string)
    requires AllWhite(w)
    ensures SkipWhite(enc, w + tail) == SkipWhite(enc, tail)
  {
    if w == "" {
      assert w + tail == tail;
    } else {
      assert (w + tail)[1..] == w[1..] + tail;
      SkipWhiteRun(enc, w[1..], tail);
    }
  }

  /** A text that starts with a printed mark is not skipped at all. */
  lemma SkipWhiteStays(enc: Encoding, tail: string)
    requires tail != "" && tail[0] as int < 0x80 && !IsWhiteSpace(tail[0])
    ensures SkipWhite(enc, tail) == tail
  {}

  // ---- Running text ----

  /** No leading, trailing or doubled blank: condensing leaves the text alone. */
  predicate Tight(s: string) {
    && s != "" && s[0] != ' ' && NoLooseBlank(s)
  }

  /** No trailing or doubled blank. */
  predicate NoLooseBlank(s: string) {
    forall i :: 0 <= i < |s| && s[i] == ' ' ==> i + 1 < |s| && s[i + 1] != ' '
  }

  lemma CondensedAtEnd(enc: Encoding, tail: string, acc: string, white: bool)
    requires tail != "" && tail[0] == '<'
    ensures ReadCondensed(enc, Some(tail), "<", acc, white) == TextResult(Some(tail), acc)
  {}

  /** White space leaves a blank pending. */
  lemma {:induction false} CondensedSpaces(enc: Encoding, w: string, rest: string, acc: string, white: bool)
    requires AllWhite(w)
    ensures ReadCondensed(enc, Some(w + rest), "<", acc, white) ==
            ReadCondensed(enc, Some(rest), "<", acc, white || w != "")
  {
    hide ReadCondensed, IsWhiteSpace;
    if w == "" {
      assert w + rest == rest;
    } else {
      assert (w + rest)[1..] == w[1..] + rest;
      CondensedSpace(enc, w + rest, acc, white);
      CondensedSpaces(enc, w[1..], rest, acc, true);
    }
  }

  lemma CondensedWhite(enc: Encoding, w: string, tail: string, acc: string, white: bool)
    requires AllWhite(w) && tail != "" && tail[0] == '<'
    ensures ReadCondensed(enc, Some(w + tail), "<", acc, white) == TextResult(Some(tail), acc)
  {
    CondensedSpaces(enc, w, tail, acc, white);
    CondensedAtEnd(enc, tail, acc, white || w != "");
  }

  lemma CondensedSpace(enc: Encoding, p: string, acc: string, white: bool)
    requires p != "" && IsWhiteSpace(p[0])
    ensures ReadCondensed(enc, Some(p), "<", acc, white) == ReadCondensed(enc, Some(p[1..]), "<", acc, true)
  {
    assert !StringEqual(p, "<", false);
  }

  lemma CondensedBlank(enc: Encoding, rest: string, acc: string, white: bool)
    ensures ReadCondensed(enc, Some(" " + rest), "<", acc, white) == ReadCondensed(enc, Some(rest), "<", acc, true)
  {
    var p := " " + rest;
    assert p[1..] == rest && p[0] == ' ';
    assert !StringEqual(p, "<", false);
  }

  lemma CondensedStep(enc: Encoding, p: string, acc: string, white: bool)
    requires p != "" && p[0] != '<' && !IsWhiteSpace(p[0]) && GetChar(enc, p).rest.Some?
    ensures var c := GetChar(enc, p);
            ReadCondensed(enc, Some(p), "<", acc, white) ==
            ReadCondensed(enc, c.rest, "<", (if white then acc + " " else acc) + c.out, false)
  {
    hide GetChar;
  }

  lemma CondensedUnit(enc: Encoding, s: string, rest: string, acc: string, white: bool)
    requires s != "" && Whole(enc, s) && s[0] != ' '
    ensures ReadCondensed(enc, Some(EncodedUnit(enc, s) + rest), "<", acc, white) ==
            ReadCondensed(enc, Some(rest), "<", (if white then acc + " " else acc) + s[..UnitLength(enc, s)], false)
  {
    UnitStart(enc, s);
    GetCharUnit(enc, s, rest);
    hide EncodedUnit, GetChar, ReadCondensed, Whole, UnitLength;
    CondensedStep(enc, EncodedUnit(enc, s) + rest, acc, white);
  }

  lemma BlankUnit(enc: Encoding, s: string)
    requires s != "" && Whole(enc, s) && s[0] == ' '
    ensures UnitLength(enc, s) == 1 && EncodedUnit(enc, s) == " "
  {}

  /** What condensed reading makes of a text: blanks at the end go, runs of
      blanks become one; `white` tells that a blank is pending. */
  function Condense(s: string, white: bool): string {
    if s == "" then ""
    else if s[0] == ' ' then Condense(s[1..], true)
    else (if white then " " else "") + [s[0]] + Condense(s[1..], false)
  }

  lemma CondenseStep(s: string, white: bool)
    requires s != "" && s[0] != ' '
    ensures Condense(s, white) == (if white then " " else "") + [s[0]] + Condense(s[1..], false)
  {}

  lemma {:induction false} CondenseRun(s: string, white: bool, n: nat)
    requires 0 < n <= |s| && forall i :: 0 <= i < n ==> s[i] != ' '
    ensures Condense(s, white) == (if white then " " else "") + s[..n] + Condense(s[n..], false)
    decreases n
  {
    hide Condense;
    var t, head := s[1..], if white then " " else "";
    CondenseStep(s, white);
    if n == 1 {
      assert s[..1] == [s[0]];
    } else {
      CondenseRun(t, false, n - 1);
      var later := Condense(s[n..], false);
      assert t[n - 1..] == s[n..] && s[..n] == [s[0]] + t[..n - 1];
      assert head + [s[0]] + ("" + t[..n - 1] + later) == head + ([s[0]] + t[..n - 1]) + later;
    }
  }

  lemma UnitHasNoBlank(enc: Encoding, s: string)
    requires s != "" && Whole(enc, s) && s[0] != ' '
    ensures forall i :: 0 <= i < UnitLength(enc, s) ==> s[i] != ' '
  {}

  lemma CondenseEmpty(white: bool)
    ensures Condense("", white) == ""
  {}

  lemma CondenseBlank(s: string, white: bool)
    requires s != "" && s[0] == ' '
    ensures Condense(s, white) == Condense(s[1..], true)
  {}

  /** A blank is pending behind the text. */
  predicate EndsBlank(s: string, white: bool) {
    if s == "" then white else s[|s| - 1] == ' '
  }

  lemma EndsBlankLater(s: string, white: bool, n: nat)
    requires 0 < n <= |s|
    ensures EndsBlank(s, white) == EndsBlank(s[n..], s[n - 1] == ' ')
    ensures s == "" ==> EndsBlank(s, white) == white
  {}

  /** Reading condensed text that was printed, and going on behind it. */
  lemma {:induction false} CondensedPart(enc: Encoding, s: string, rest: string, acc: string, white: bool)
    requires Whole(enc, s) && NoReference(s)
    ensures ReadCondensed(enc, Some(Encode(s) + rest), "<", acc, white) ==
            ReadCondensed(enc, Some(rest), "<", acc + Condense(s, white), EndsBlank(s, white))
    decreases |s|
  {
    hide *;
    if s == "" {
      EncodeNothing(rest);
      CondenseEmpty(white);
      EmptyEnds(white);
      assert acc + "" == acc;
    } else {
      var n := UnitLength(enc, s);
      NextUnit(enc, s);
      var u, r := EncodedUnit(enc, s), Encode(s[n..]);
      assert u + r + rest == u + (r + rest);
      EndsBlankLater(s, white, n);
      if s[0] == ' ' {
        BlankUnit(enc, s);
        CondenseBlank(s, white);
        CondensedBlank(enc, r + rest, acc, white);
        CondensedPart(enc, s[1..], rest, acc, true);
      } else {
        UnitHasNoBlank(enc, s);
        CondenseRun(s, white, n);
        CondensedUnit(enc, s, r + rest, acc, white);
        var acc' := (if white then acc + " " else acc) + s[..n];
        CondensedPart(enc, s[n..], rest, acc', false);
        assert acc' + Condense(s[n..], false) == acc + ((if white then " " else "") + s[..n] + Condense(s[n..], false));
      }
    }
  }

  lemma EmptyEnds(white: bool)
    ensures EndsBlank("", white) == white
  {}

  /** Up to a tag, with white space in front of it. */
  lemma CondensedEncoded(enc: Encoding, s: string, w: string, tail: string, acc: string, white: bool)
    requires Whole(enc, s) && NoReference(s)
    requires AllWhite(w) && tail != "" && tail[0] == '<'
    ensures ReadCondensed(enc, Some(Encode(s) + w + tail), "<", acc, white) ==
            TextResult(Some(tail), acc + Condense(s, white))
  {
    hide *;
    assert Encode(s) + w + tail == Encode(s) + (w + tail);
    CondensedPart(enc, s, w + tail, acc, white);
    CondensedWhite(enc, w, tail, acc + Condense(s, white), EndsBlank(s, white));
  }

  /** A tight text is read as it is. */
  lemma CondensedTight(enc: Encoding, s: string, rest: string, acc: string, white: bool)
    requires Whole(enc, s) && NoReference(s) && Tight(s)
    ensures ReadCondensed(enc, Some(Encode(s) + rest), "<", acc, white) ==
            ReadCondensed(enc, Some(rest), "<", (if white then acc + " " else acc) + s, false)
  {
    hide Encode, ReadCondensed, Condense, Whole, NoReference;
    CondensedPart(enc, s, rest, acc, white);
    CondenseShrinks(s, white);
    assert s[|s| - 1] == ' ' ==> |s| - 1 + 1 < |s|;
    assert acc + ((if white then " " else "") + s) == (if white then acc + " " else acc) + s;
  }

  lemma {:induction false} CondenseShrinks(s: string, white: bool)
    ensures |Condense(s, white)| <= |s| + if white then 1 else 0
    ensures white && (s == "" || s[0] == ' ') ==> |Condense(s, white)| <= |s|
    ensures Condense(s, white) == (if white then " " else "") + s <==>
            NoLooseBlank(s) && (white ==> s != "" && s[0] != ' ')
  {
    if s != "" {
      var t := s[1..];
      assert s == [s[0]] + t;
      CondenseShrinks(t, s[0] == ' ');
      NoLooseBlankStep(s);
      if s[0] != ' ' {
        assert (if white then " " else "") + [s[0]] + Condense(t, false) == (if white then " " else "") + s <==>
               Condense(t, false) == t by {
          Cancel((if white then " " else "") + [s[0]], Condense(t, false), t);
          assert (if white then " " else "") + [s[0]] + t == (if white then " " else "") + s;
        }
      } else {
        assert s == " " + t;
        assert white ==> |" " + s| == |s| + 1;
      }
    }
  }

  lemma Cancel(a: string, b: string, c: string)
    ensures a + b == a + c <==> b == c
  {
    assert b == (a + b)[|a|..] && c == (a + c)[|a|..];
  }

  lemma NoLooseBlankStep(s: string)
    requires s != ""
    ensures NoLooseBlank(s) <==> NoLooseBlank(s[1..]) && (s[0] == ' ' ==> s[1..] != "" && s[1..][0] != ' ')
  {
    var t := s[1..];
    if NoLooseBlank(t) && (s[0] == ' ' ==> t != "" && t[0] != ' ') {
      forall i | 0 <= i < |s| && s[i] == ' '
        ensures i + 1 < |s| && s[i + 1] != ' '
      {
        if i > 0 {
          assert t[i - 1] == s[i];
        }
      }
    }
    if NoLooseBlank(s) {
      forall i | 0 <= i < |t| && t[i] == ' '
        ensures i + 1 < |t| && t[i + 1] != ' '
      {
        assert s[i + 1] == t[i];
      }
    }
  }

  /** A text comes back from condensed reading exactly when it has no trailing or doubled blank. */
  lemma CondenseIsIdentity(s: string)
    ensures Condense(s, false) == s <==> NoLooseBlank(s)
  {
    CondenseShrinks(s, false);
    assert "" + s == s;
  }

  // ---- The codec by itself ----

  /** Reading a whole text character by character; None where a reference is malformed. */
  function Decode(enc: Encoding, p: string): Option<string>
    decreases |p|
  {
    if p == "" then Some("")
    else
      var c := GetChar(enc, p);
      if c.rest.None? then None
      else
        match Decode(enc, c.rest.value)
        case Some(d) => Some(c.out + d)
        case None => None
  }

  lemma DecodeStep(enc: Encoding, p: string)
    requires p != ""
    ensures var c := GetChar(enc, p);
            Decode(enc, p) ==
              if c.rest.None? then None
              else match Decode(enc, c.rest.value) { case Some(d) => Some(c.out + d) case None => None }
  {
    hide GetChar;
  }

  lemma DecodeUnit(enc: Encoding, s: string, rest: string)
    requires s != "" && Whole(enc, s)
    ensures Decode(enc, EncodedUnit(enc, s) + rest) ==
              match Decode(enc, rest) { case Some(d) => Some(s[..UnitLength(enc, s)] + d) case None => None }
  {
    UnitStart(enc, s);
    GetCharUnit(enc, s, rest);
    hide *;
    DecodeStep(enc, EncodedUnit(enc, s) + rest);
  }

  lemma DecodeNothing(enc: Encoding)
    ensures Decode(enc, Encode("")) == Some("")
  {}

  /** Texts without references are decoded to themselves. */
  lemma {:induction false} DecodeEncoded(enc: Encoding, s: string)
    requires Whole(enc, s) && NoReference(s)
    ensures Decode(enc, Encode(s)) == Some(s)
    decreases |s|
  {
    hide *;
    if s == "" {
      DecodeNothing(enc);
    } else {
      var n := UnitLength(enc, s);
      NextUnit(enc, s);
      DecodeUnit(enc, s, Encode(s[n..]));
      DecodeEncoded(enc, s[n..]);
      assert s[..n] + s[n..] == s;
    }
  }

  /** Where the raw copying from a reference on stops. */
  function StopOf(s: string): (j: nat)
    requires s != ""
    ensures j < |s|
    ensures s[j] == ';' || j == |s| - 1
    ensures forall i :: 0 < i < j ==> s[i] != ';'
    ensures |s| > 1 ==> j > 0
  {
    if |s| == 1 then 0
    else if s[1] == ';' then 1
    else StopOf(s[1..]) + 1
  }

  lemma {:induction false} PassThroughSplit(s: string)
    requires s != ""
    ensures PassThrough(s) == s[..StopOf(s)] + Encode(s[StopOf(s)..])
  {
    hide EncodeChar, Encode, PassThrough, StopOf;
    StopStep(s);
    if |s| == 1 {
      EncodeOne(s[0]);
      assert s == [s[0]];
      assert s[..0] + Encode(s[0..]) == Encode(s);
    } else if s[1] == ';' {
      assert s[..1] == [s[0]];
    } else {
      var j := StopOf(s[1..]);
      PassThroughSplit(s[1..]);
      assert s[1..][j..] == s[j + 1..];
      assert s[..j + 1] == [s[0]] + s[1..][..j];
      assert [s[0]] + (s[1..][..j] + Encode(s[j + 1..])) == [s[0]] + s[1..][..j] + Encode(s[j + 1..]);
    }
  }

  lemma StopStep(s: string)
    requires s != ""
    ensures |s| == 1 ==> StopOf(s) == 0 && PassThrough(s) == EncodeChar(s[0])
    ensures |s| > 1 && s[1] == ';' ==> StopOf(s) == 1 && PassThrough(s) == [s[0]] + Encode(s[1..])
    ensures |s| > 1 && s[1] != ';' ==> StopOf(s) == StopOf(s[1..]) + 1 && PassThrough(s) == [s[0]] + PassThrough(s[1..])
  {
    hide EncodeChar, Encode;
  }

  lemma FindIs(p: string, c: char, k: nat)
    requires k < |p| && p[k] == c && c !in p[..k]
    ensures Find(p, c) == Some(k)
  {
    var r := Find(p, c);
    assert forall i :: 0 <= i < k ==> p[i] == p[..k][i] != c;
    assert r.Some? && forall i :: 0 <= i < r.value ==> p[i] == p[..r.value][i] != c;
  }

  lemma EncodedSemicolon(c: char)
    ensures var e := EncodeChar(c);
            forall i :: 0 <= i < |e| && e[i] == ';' ==> i == |e| - 1
    ensures ';' in EncodeChar(c) ==> EncodeChar(c)[|EncodeChar(c)| - 1] == ';'
  {}

  lemma {:induction false} FindInFront(a: string, b: string, c: char)
    ensures Find(a + b, c) ==
            if Find(a, c).Some? then Find(a, c)
            else match Find(b, c) case Some(k) => Some(|a| + k) case None => None
  {
    if a == "" {
      assert a + b == b;
    } else {
      assert (a + b)[1..] == a[1..] + b;
      FindInFront(a[1..], b, c);
    }
  }

  /** GetEntity on a hexadecimal reference. */
  lemma HexEntity(enc: Encoding, p: string)
    requires |p| > 2 && p[0] == '&' && p[1] == '#' && p[2] == 'x'
    ensures var c, semi := GetChar(enc, p), Find(p[3..], ';');
            c.rest.Some? ==>
              && semi.Some? && c.rest == Some(p[3 + semi.value + 1..])
              && var ucs := WalkBack(p[2..3 + semi.value], 'x', 16, 0, 1);
                 ucs.Some? && c.out == ReferenceBytes(enc, ucs.value)
  {
    hide WalkBack, Find;
  }

  lemma FindAfter(head: string, c: char, rest: string)
    requires c !in head
    ensures Find(head + [c] + rest, c) == Some(|head|)
  {
    var p := head + [c] + rest;
    assert p[..|head|] == head;
    FindIs(p, c, |head|);
  }

  lemma ReferenceHead(s: string)
    requires StartsReference(s)
    ensures StopOf(s) >= if s[StopOf(s)] == ';' then 3 else 2
    ensures Encode(s) == s[..StopOf(s)] + Encode(s[StopOf(s)..])
    ensures StopOf(s) == 2 ==> Encode(s[StopOf(s)..]) == "x"
  {
    PassThroughSplit(s);
    if StopOf(s) == 2 {
      LastEncoded(s, 2);
    }
  }

  lemma ReferenceEndInside(s: string)
    requires StartsReference(s) && s[StopOf(s)] == ';'
    ensures var p, j := Encode(s), StopOf(s);
            && 3 <= j < |p| && Find(p[3..], ';') == Some(j - 3) && p[j + 1..] == Encode(s[j + 1..])
  {
    hide *;
    var j := StopOf(s);
    ReferenceHead(s);
    SemicolonFirst(s, j);
    var head, r := s[3..j], Encode(s[j + 1..]);
    assert ';' !in head by {
      assert forall i :: 0 <= i < |head| ==> head[i] == s[i + 3];
    }
    FindAfter(head, ';', r);
    assert s[..j] + (";" + r) == s[..3] + (head + [';'] + r);
    assert (s[..3] + (head + [';'] + r))[3..] == head + [';'] + r;
    assert (s[..j] + (";" + r))[j + 1..] == r;
  }

  lemma ReferenceEndLast(s: string)
    requires StartsReference(s) && s[StopOf(s)] != ';'
    ensures var p, j := Encode(s), StopOf(s);
            && |p| >= 3 && (forall k :: 3 <= k < |p| && p[k] == ';' ==> k == |p| - 1) && Encode(s[j + 1..]) == ""
  {
    var j := StopOf(s);
    ReferenceHead(s);
    LastEncoded(s, j);
    var p, e := Encode(s), Encode(s[j..]);
    assert forall k :: 0 <= k < j ==> p[k] == s[k];
    forall k | 3 <= k < |p| && p[k] == ';'
      ensures k == |p| - 1
    {
      assert k >= j ==> p[k] == e[k - j];
    }
  }

  /** Where in the encoded text the ';' of a passed-through reference is found. */
  lemma ReferenceEnd(s: string)
    requires StartsReference(s)
    ensures var p, j := Encode(s), StopOf(s);
            && 2 <= j && |p| > 2 && p[0] == '&' && p[1] == '#' && p[2] == 'x'
            && var semi := Find(p[3..], ';');
               semi.Some? ==> 3 + semi.value + 1 <= |p| && p[3 + semi.value + 1..] == Encode(s[j + 1..])
  {
    var p, j := Encode(s), StopOf(s);
    ReferenceHead(s);
    if s[j] == ';' {
      ReferenceEndInside(s);
    } else {
      ReferenceEndLast(s);
      var semi := Find(p[3..], ';');
      if semi.Some? {
        assert p[3 + semi.value] == ';';
      }
    }
  }

  lemma SemicolonFirst(s: string, j: nat)
    requires j < |s| && s[j] == ';'
    ensures Encode(s[j..]) == ";" + Encode(s[j + 1..])
  {
    assert s[j..][1..] == s[j + 1..];
    SemicolonIsPlain();
  }

  lemma LastEncoded(s: string, j: nat)
    requires s != "" && j == |s| - 1
    ensures var e := Encode(s[j..]);
            e != "" && forall i :: 0 <= i < |e| && e[i] == ';' ==> i == |e| - 1
    ensures Encode(s[j + 1..]) == "" && (s[j] == 'x' ==> Encode(s[j..]) == "x")
  {
    assert s[j..] == [s[j]];
    EncodeOne(s[j]);
    EncodedSemicolon(s[j]);
  }

  lemma SemicolonIsPlain()
    ensures EncodeChar(';') == ";"
  {}

  lemma NothingReferred()
    ensures NoReference("")
  {}

  // ---- References lose characters ----

  /** How many characters of a text are not white space. */
  function Solid(s: string): (n: nat)
    ensures n <= |s|
  {
    if s == "" then 0 else (if IsWhiteSpace(s[0]) then 0 else 1) + Solid(s[1..])
  }

  lemma {:induction false} SolidConcat(a: string, b: string)
    ensures Solid(a + b) == Solid(a) + Solid(b)
  {
    if a == "" {
      assert a + b == b;
    } else {
      assert (a + b)[1..] == a[1..] + b;
      SolidConcat(a[1..], b);
    }
  }

  lemma {:induction false} SolidWhite(w: string)
    requires AllWhite(w)
    ensures Solid(w) == 0
  {
    if w != "" {
      SolidWhite(w[1..]);
    }
  }

  lemma SolidOne(c: char)
    ensures Solid([c]) == if IsWhiteSpace(c) then 0 else 1
  {
    assert [c][1..] == "";
  }

  lemma SolidSplit(s: string, k: nat)
    requires k <= |s|
    ensures Solid(s) == Solid(s[..k]) + Solid(s[k..])
  {
    hide *;
    SolidConcat(s[..k], s[k..]);
    assert s[..k] + s[k..] == s;
  }

  /** Behind an ASCII character, the text goes on with a whole character. */
  lemma {:induction false} WholeAfter(enc: Encoding, s: string, k: nat)
    requires Whole(enc, s) && 0 < k <= |s| && s[k - 1] as int < 0x80
    ensures Whole(enc, s[k..])
    decreases |s|
  {
    if enc.Utf8? {
      var n := Utf8Length(s[0]);
      if k > n {
        WholeAfter(enc, s[n..], k - n);
        assert s[n..][k - n..] == s[k..];
      }
    }
  }

  lemma DigitIsSolid(c: char)
    requires HexValue(c).Some?
    ensures !IsWhiteSpace(c)
  {}

  /** The digits of a reference, together with their 'x': a value other than 0 needs one at least. */
  lemma WalkIsSolid(s: string)
    requires s != "" && s[0] == 'x' && WalkBack(s, 'x', 16, 0, 1).Some?
    ensures Solid(s) >= if WalkBack(s, 'x', 16, 0, 1).value == 0 then 1 else 2
  {
    var last := |s| - 1;
    if last > 0 && s[last] != 'x' {
      DigitIsSolid(s[last]);
      SolidSplit(s, last);
      assert s[last..] == [s[last]];
      SolidOne(s[last]);
    }
  }

  lemma BytesOfReference(enc: Encoding, ucs: nat)
    ensures Solid(ReferenceBytes(enc, ucs)) <= if ucs < 0x80 then 1 else 4
  {}

  lemma SolidHead(s: string, k: nat)
    requires StartsReference(s) && 3 <= k <= |s|
    ensures Solid(s[..k]) == 2 + Solid(s[2..k]) && s[2..k][0] == 'x'
  {
    SolidSplit(s[..k], 2);
    assert s[..k][..2] == "&#" && s[..k][2..] == s[2..k];
    assert "&#"[1..] == "#" && "#"[1..] == "";
  }

  /** A reference that ends inside the text. */
  lemma InsideOut(enc: Encoding, s: string, rest: string)
    requires StartsReference(s) && s[StopOf(s)] == ';' && Encode(s) != ""
    ensures var p, j := Encode(s) + rest, StopOf(s);
            var c := GetChar(enc, p);
            && j < |s|
            && (c.rest.Some? ==> c.rest == Some(Encode(s[j + 1..]) + rest) && Solid(c.out) < Solid(s[..j + 1]))
  {
    hide *;
    var e, j := Encode(s), StopOf(s);
    var p := e + rest;
    ReferenceEndInside(s);
    ReferenceHead(s);
    ReferenceEnd(s);
    FindInFront(e[3..], rest, ';');
    assert p[3..] == e[3..] + rest && p[j + 1..] == e[j + 1..] + rest;
    HexEntity(enc, p);
    var c := GetChar(enc, p);
    if c.rest.Some? {
      assert p[2..j] == s[2..j];
      var ucs := WalkBack(s[2..j], 'x', 16, 0, 1).value;
      SolidHead(s, j);
      WalkIsSolid(s[2..j]);
      BytesOfReference(enc, ucs);
      SolidSplit(s[..j + 1], j);
      assert s[..j + 1][..j] == s[..j] && s[..j + 1][j..] == [';'];
      SolidSemicolon();
    }
  }

  lemma SolidSemicolon()
    ensures Solid([';']) == 1
  {
    SolidOne(';');
  }

  lemma NamedEnds(c: char)
    requires c in {'&', '<', '>', '\"', '\''}
    ensures var e := EncodeChar(c);
            && |e| > 3 && e[|e| - 2] in {'p', 't', 's'} && e[|e| - 1] == ';'
            && forall i :: 0 <= i < |e| - 1 ==> e[i] != ';'
  {}

  lemma NoDigit(s: string)
    requires s != "" && s[0] == 'x' && s[|s| - 1] in {'p', 't', 's'}
    ensures WalkBack(s, 'x', 16, 0, 1).None?
  {}

  lemma ControlEnds(c: char)
    requires c as int < 32
    ensures var h, l := UpperHex(c as int / 16), UpperHex(c as int % 16);
            && EncodeChar(c) == "&#" + ['x', h, l] + ";" && h != 'x' && l != 'x'
            && HexValue(h) == Some(c as int / 16) && HexValue(l) == Some(c as int % 16)
  {
    UpperHexValue(c as int / 16);
    UpperHexValue(c as int % 16);
    hide UpperHex, HexValue;
    assert "&#x" + [UpperHex(c as int / 16), UpperHex(c as int % 16)] + ";" ==
           "&#" + ['x', UpperHex(c as int / 16), UpperHex(c as int % 16)] + ";";
  }

  /** Behind an unfinished reference, the ';' of the last encoded character ends none but a control character's. */
  lemma LastOut(s: string, e: string, ucs: nat)
    requires StartsReference(s) && s[StopOf(s)] != ';' && e == Encode(s)
    requires |e| > 3 && e[2] == 'x' && e[|e| - 1] == ';' && WalkBack(e[2..|e| - 1], 'x', 16, 0, 1) == Some(ucs)
    ensures ucs < 0x80 && |s| >= 3
  {
    hide WalkBack, EncodeChar, StopOf, UpperHex, HexValue, Encode;
    var j := |s| - 1;
    assert StopOf(s) == j by { StopsLast(s); }
    ReferenceHead(s);
    assert s[j..] == [s[j]];
    EncodeOne(s[j]);
    var c, u := s[j], EncodeChar(s[j]);
    LastOf(s[..j], c);
    assert e == s[..j] + u;
    if s[j] in {'&', '<', '>', '\"', '\''} {
      NamedEnds(s[j]);
      assert e[|e| - 2] == u[|u| - 2];
      assert e[2] == 'x';
      NoDigit(e[2..|e| - 1]);
      assert false;
    } else if s[j] as int < 32 {
      var h, l := UpperHex(s[j] as int / 16), UpperHex(s[j] as int % 16);
      ControlEnds(s[j]);
      var front := s[2..j] + "&#";
      assert e[2..|e| - 1] == front + ['x', h, l];
      WalkTwo(front, h, l);
    } else {
      PlainEnds(c);
      assert false;
    }
  }

  lemma LastOf(front: string, c: char)
    ensures (front + [c])[|front + [c]| - 1] == c
  {}

  lemma PlainEnds(c: char)
    requires c as int >= 32 && c !in {'&', '<', '>', '\"', '\''}
    ensures EncodeChar(c) == [c]
  {}

  lemma StopsLast(s: string)
    requires s != "" && s[StopOf(s)] != ';'
    ensures StopOf(s) == |s| - 1
  {}

  lemma LastSemicolon(s: string)
    requires StartsReference(s) && s[StopOf(s)] != ';' && |Encode(s)| > 2 && Find(Encode(s)[3..], ';').Some?
    ensures var e := Encode(s); |e| > 3 && e[2] == 'x' && e[|e| - 1] == ';' && Find(e[3..], ';') == Some(|e| - 4)
  {
    ReferenceEndLast(s);
    ReferenceEnd(s);
    hide *;
    var e := Encode(s);
    var k := Find(e[3..], ';').value;
    FoundAt(e[3..], ';');
    assert e[3..][k] == e[3 + k];
  }

  /** A reference that the last character of the text ends. */
  lemma LastReference(enc: Encoding, s: string, rest: string)
    requires StartsReference(s) && s[StopOf(s)] != ';' && |Encode(s)| > 2 && Find(Encode(s)[3..], ';').Some?
    ensures var c := GetChar(enc, Encode(s) + rest);
            c.rest.Some? ==> c.rest == Some(rest) && Solid(c.out) < Solid(s)
  {
    LastSemicolon(s);
    ReferenceEnd(s);
    hide *;
    var e := Encode(s);
    var p, k := e + rest, |e| - 4;
    FindInFront(e[3..], rest, ';');
    assert p[3..] == e[3..] + rest;
    HexEntity(enc, p);
    var c := GetChar(enc, p);
    if c.rest.Some? {
      assert p[2..3 + k] == e[2..|e| - 1] && p[3 + k + 1..] == rest;
      var ucs := WalkBack(p[2..3 + k], 'x', 16, 0, 1).value;
      LastOut(s, e, ucs);
      BytesOfReference(enc, ucs);
      SolidStart(s);
    }
  }

  lemma FoundAt(s: string, c: char)
    requires Find(s, c).Some?
    ensures Find(s, c).value < |s| && s[Find(s, c).value] == c
  {}

  lemma SolidStart(s: string)
    requires StartsReference(s)
    ensures Solid(s) >= 3
  {
    SolidHead(s, |s|);
    assert s[..|s|] == s && !IsWhiteSpace('x');
  }

  /** What reading a passed-through reference yields weighs less than the text of the reference. */
  lemma ReferenceOut(enc: Encoding, s: string, rest: string)
    requires Whole(enc, s) && StartsReference(s) && |Encode(s)| > 2 && Find(Encode(s)[3..], ';').Some?
    ensures var j := StopOf(s);
            var c := GetChar(enc, Encode(s) + rest);
            && j < |s| && Whole(enc, s[j + 1..])
            && (c.rest.Some? ==>
                  c.rest == Some(Encode(s[j + 1..]) + rest) && Solid(c.out) + Solid(s[j + 1..]) < Solid(s))
  {
    hide *;
    ReferenceIsLong(s);
    StopInside(s);
    var j := StopOf(s);
    SolidSplit(s, j + 1);
    if s[j] == ';' {
      WholeAfter(enc, s, j + 1);
      InsideOut(enc, s, rest);
    } else {
      StopsLast(s);
      assert s[j + 1..] == "";
      EncodeNothing(rest);
      WholeNothing(enc);
      LastReference(enc, s, rest);
      SolidNothing();
    }
  }

  lemma ReferenceIsLong(s: string)
    requires StartsReference(s)
    ensures |s| > 2
  {}

  lemma StopInside(s: string)
    requires s != ""
    ensures StopOf(s) < |s|
  {}

  lemma WholeNothing(enc: Encoding)
    ensures Whole(enc, "")
  {}

  lemma SolidNothing()
    ensures Solid("") == 0
  {}

  lemma ReferencePrinted(s: string)
    requires StartsReference(s)
    ensures Encode(s) != "" && |Encode(s)| > 2
  {
    ReferenceEnd(s);
  }

  lemma WholeStep(enc: Encoding, s: string)
    requires s != "" && Whole(enc, s)
    ensures var n := UnitLength(enc, s);
            && Whole(enc, s[n..]) && Solid(s) == Solid(s[..n]) + Solid(s[n..])
            && (!StartsReference(s) && !NoReference(s) ==> !NoReference(s[n..]))
  {
    var n := UnitLength(enc, s);
    SolidSplit(s, n);
    if !StartsReference(s) && !NoReference(s) {
      var i :| 0 <= i < |s| && StartsReference(s[i..]);
      assert s[0..] == s && s[i] == '&' && i >= n;
      assert s[n..][i - n..] == s[i..];
    }
  }

  /** Decoding never adds characters other than white space, and every reference loses some. */
  lemma {:induction false} DecodeShrinks(enc: Encoding, s: string)
    requires Whole(enc, s) && Decode(enc, Encode(s)).Some?
    ensures var d := Decode(enc, Encode(s)).value; Solid(d) <= Solid(s) && (!NoReference(s) ==> Solid(d) < Solid(s))
    decreases |s|
  {
    hide *;
    var e := Encode(s);
    if s == "" {
      DecodeNothing(enc);
      NothingReferred();
    } else if StartsReference(s) {
      ReferencePrinted(s);
      DecodeStep(enc, e);
      ReferenceEnd(s);
      HexEntity(enc, e);
      ReferenceOut(enc, s, "");
      var c, later := GetChar(enc, e), s[StopOf(s) + 1..];
      assert e + "" == e && Encode(later) + "" == Encode(later);
      DecodeShrinks(enc, later);
      SolidConcat(c.out, Decode(enc, Encode(later)).value);
    } else {
      var n := UnitLength(enc, s);
      WholeStep(enc, s);
      EncodeByUnit(enc, s);
      DecodeUnit(enc, s, Encode(s[n..]));
      DecodeShrinks(enc, s[n..]);
      SolidConcat(s[..n], Decode(enc, Encode(s[n..])).value);
    }
  }

  /** The codec round trip holds exactly for texts without "&#x", in every encoding. */
  lemma CodecRoundTrip(enc: Encoding, s: string)
    requires Whole(enc, s)
    ensures Decode(enc, Encode(s)) == Some(s) <==> NoReference(s)
  {
    hide *;
    if NoReference(s) {
      DecodeEncoded(enc, s);
    } else if Decode(enc, Encode(s)) == Some(s) {
      DecodeShrinks(enc, s);
    }
  }
}
