// Which single values and texts come back from printing and parsing: exactly
// those without references and, in condensed reading, without loose blanks.
// A text with a reference comes back lighter, or swallows what follows it.
module XmlExact {
  import opened Options
  import opened XmlText
  import opened XmlParser
  import opened XmlPrinter
  import opened XmlCodec
  import opened XmlRoundTrip

  // ---- Where a reference ends in a longer text ----

  lemma DropFront(a: string, b: string, k: nat)
    requires k <= |a|
    ensures (a + b)[k..] == a[k..] + b
    ensures forall i :: 0 <= i < |a| ==> (a + b)[i] == a[i]
  {}

  lemma NoSemicolonInWhite(w: string)
    requires AllWhite(w)
    ensures Find(w, ';').None?
  {
    assert forall i :: 0 <= i < |w| ==> w[i] != ';' by {
      assert forall i :: 0 <= i < |w| ==> IsWhiteSpace(w[i]);
    }
  }

  lemma StopsAtSemicolon(s: string)
    requires StartsReference(s) && ';' in s
    ensures s[StopOf(s)] == ';'
  {
    var k :| 0 <= k < |s| && s[k] == ';';
  }

  /** The ';' that ends a passed-through reference is in the text itself, or it is looked for
      in what follows the white space behind it. */
  lemma ReferenceRead(enc: Encoding, s: string, w: string, tail: string)
    requires Whole(enc, s) && StartsReference(s) && AllWhite(w)
    ensures var p, j := Encode(s) + (w + tail), StopOf(s);
            && j < |s| && Whole(enc, s[j + 1..]) && p != "" && p[0] == '&'
            && var c := GetChar(enc, p);
               c.rest.Some? ==>
                 || (c.rest.value == Encode(s[j + 1..]) + (w + tail) && Solid(c.out) + Solid(s[j + 1..]) < Solid(s))
                 || (|c.rest.value| < |tail| && ';' !in s)
  {
    assert StopOf(s) < |s|;
    if ';' in s {
      StopsAtSemicolon(s);
    }
    hide *;
    var e := Encode(s);
    var p := e + (w + tail);
    ReferenceEnd(s);
    DropFront(e, w + tail, 3);
    if Find(e[3..], ';').Some? {
      ReferenceOut(enc, s, w + tail);
    } else {
      if ';' in s {
        ReferenceEndInside(s);
      }
      ReferenceTail(enc, s);
      HexEntity(enc, p);
      FindInFront(e[3..], w + tail, ';');
      NoSemicolonInWhite(w);
      FindInFront(w, tail, ';');
    }
  }

  /** Where no ';' follows in the printed text, the text holds none either. */
  lemma ReferenceTail(enc: Encoding, s: string)
    requires Whole(enc, s) && StartsReference(s)
    ensures StopOf(s) < |s| && (s[StopOf(s)] != ';' ==> Whole(enc, s[StopOf(s) + 1..]))
  {
    if s[StopOf(s)] != ';' {
      StopsLast(s);
      assert s[StopOf(s) + 1..] == "";
    }
  }

  /** How the reading of a text ends: it goes beyond `tail`, or what it yields weighs at most `n`, and less
      if the text holds a reference. Where all references are closed, it never goes beyond. */
  ghost predicate Bounded(r: TextResult, tail: string, n: nat, reference: bool, closed: bool) {
    closed || (r.rest.Some? && |r.rest.value| >= |tail|) ==>
      Solid(r.text) <= n && (reference ==> Solid(r.text) < n)
  }

  lemma Beyond(r: TextResult, from: string, tail: string, n: nat)
    requires |from| < |tail| && (r.rest.Some? ==> Suffix(r.rest.value, from))
    ensures Bounded(r, tail, n, true, false)
  {}

  lemma Shorter(r: TextResult, tail: string, n: nat, m: nat, reference: bool, closed: bool)
    requires Bounded(r, tail, n, reference, closed) && n < m
    ensures Bounded(r, tail, m, true, closed)
  {}

  lemma Weaken(r: TextResult, tail: string, n: nat, a: bool, b: bool, closed: bool)
    requires Bounded(r, tail, n, a, closed) && (b ==> a)
    ensures Bounded(r, tail, n, b, closed)
  {}

  lemma AtTheEnd(acc: string, rest: Ptr, tail: string, n: nat, reference: bool, closed: bool)
    requires Solid(acc) <= n && (reference ==> Solid(acc) < n)
    ensures Bounded(TextResult(rest, acc), tail, n, reference, closed)
  {}

  lemma ClosedStart(s: string)
    requires StartsReference(s)
    ensures Closed(s) ==> ';' in s
    ensures !NoReference(s) && Solid(s) >= 3
  {
    assert s[0..] == s;
    SolidStart(s);
  }

  lemma ClosedLater(s: string, k: nat)
    requires Closed(s) && k <= |s|
    ensures Closed(s[k..])
  {
    forall i | 0 <= i < |s[k..]| && StartsReference(s[k..][i..])
      ensures ';' in s[k..][i..]
    {
      assert s[k..][i..] == s[k + i..];
    }
  }

  // ---- Reading with white space kept ----

  lemma KeepGivesUp(enc: Encoding, p: string, end: string, acc: string)
    requires p != "" && !StringEqual(p, end, false) && GetChar(enc, p).rest.None?
    ensures ReadKeep(enc, Some(p), end, acc) == TextResult(None, acc)
  {
    hide GetChar;
  }

  lemma KeepStays(enc: Encoding, p: Ptr, end: string, acc: string)
    ensures var r := ReadKeep(enc, p, end, acc); r.rest.Some? ==> p.Some? && Suffix(r.rest.value, p.value)
  {}

  lemma NoMark(p: string, end: string)
    requires p != "" && end != "" && p[0] != end[0]
    ensures !StringEqual(p, end, false)
  {}

  lemma AmpersandIsNoEnd(p: string, end: string)
    requires p != "" && p[0] == '&' && end != "" && end[0] in {'<', '\"', '\''}
    ensures !StringEqual(p, end, false) && !IsWhiteSpace(p[0]) && p[0] != '<'
  {}

  lemma WhiteChar(enc: Encoding, p: string, end: string)
    requires p != "" && IsWhiteSpace(p[0]) && end != "" && end[0] in {'<', '\"', '\''}
    ensures !StringEqual(p, end, false) && GetChar(enc, p) == CharResult(Some(p[1..]), p[..1])
  {}

  /** White space is kept as it stands. */
  lemma {:induction false} KeepWhite(enc: Encoding, w: string, rest: string, end: string, acc: string)
    requires AllWhite(w) && end != "" && end[0] in {'<', '\"', '\''}
    ensures ReadKeep(enc, Some(w + rest), end, acc) == ReadKeep(enc, Some(rest), end, acc + w)
  {
    hide ReadKeep, GetChar, StringEqual;
    if w == "" {
      assert w + rest == rest && acc + w == acc;
    } else {
      var p := w + rest;
      assert p[1..] == w[1..] + rest && p[..1] == w[..1] && acc + w[..1] + w[1..] == acc + w;
      WhiteChar(enc, p, end);
      ReadKeepStep(enc, p, end, acc);
      KeepWhite(enc, w[1..], rest, end, acc + w[..1]);
    }
  }

  lemma {:induction false} KeepShrinks(enc: Encoding, s: string, w: string, end: string, tail: string, acc: string,
                                       closed: bool)
    requires Whole(enc, s) && AllWhite(w) && (closed ==> Closed(s))
    requires end != "" && end[0] in {'<', '\"', '\''} && StringEqual(tail, end, false)
    ensures Bounded(ReadKeep(enc, Some(Encode(s) + (w + tail)), end, acc), tail, Solid(acc) + Solid(s), !NoReference(s),
                    closed)
    decreases |s|
  {
    hide *;
    var p, n := Encode(s) + (w + tail), Solid(acc) + Solid(s);
    var r := ReadKeep(enc, Some(p), end, acc);
    if s == "" {
      NothingReferred();
      EncodeNothing(w + tail);
      KeepWhite(enc, w, tail, end, acc);
      ReadKeepAtEnd(enc, tail, end, acc + w);
      SolidConcat(acc, w);
      SolidWhite(w);
      AtTheEnd(acc + w, Some(tail), tail, n, false, closed);
    } else if StartsReference(s) {
      ReferenceRead(enc, s, w, tail);
      ClosedStart(s);
      AmpersandIsNoEnd(p, end);
      var c := GetChar(enc, p);
      if c.rest.None? {
        KeepGivesUp(enc, p, end, acc);
        AtTheEnd(acc, None, tail, n, true, closed);
      } else {
        ReadKeepStep(enc, p, end, acc);
        var later := s[StopOf(s) + 1..];
        if |c.rest.value| < |tail| && ';' !in s {
          KeepStays(enc, c.rest, end, acc + c.out);
          Beyond(r, c.rest.value, tail, n);
        } else {
          if closed {
            ClosedLater(s, StopOf(s) + 1);
          }
          KeepShrinks(enc, later, w, end, tail, acc + c.out, closed);
          SolidConcat(acc, c.out);
          Shorter(r, tail, Solid(acc + c.out) + Solid(later), n, !NoReference(later), closed);
        }
      }
    } else {
      var k := UnitLength(enc, s);
      WholeStep(enc, s);
      EncodeByUnit(enc, s);
      var u, later := EncodedUnit(enc, s), Encode(s[k..]);
      Glue(u, later, w + tail);
      ReadKeepUnit(enc, s, later + (w + tail), end, acc);
      if closed {
        ClosedLater(s, k);
      }
      KeepShrinks(enc, s[k..], w, end, tail, acc + s[..k], closed);
      SolidConcat(acc, s[..k]);
      Weaken(r, tail, n, !NoReference(s[k..]), !NoReference(s), closed);
    }
  }

  // ---- Condensed reading ----

  lemma CondensedGivesUp(enc: Encoding, p: string, acc: string, white: bool)
    requires p != "" && p[0] != '<' && !IsWhiteSpace(p[0]) && GetChar(enc, p).rest.None?
    ensures ReadCondensed(enc, Some(p), "<", acc, white) == TextResult(None, WithPending(acc, white))
  {
    hide GetChar, IsWhiteSpace;
  }

  lemma CondensedStays(enc: Encoding, p: Ptr, acc: string, white: bool)
    ensures var r := ReadCondensed(enc, p, "<", acc, white); r.rest.Some? ==> p.Some? && Suffix(r.rest.value, p.value)
  {}

  /** The text so far with the blank that is still to come. */
  function WithPending(acc: string, white: bool): string {
    if white then acc + " " else acc
  }

  lemma PendingWeighsNothing(acc: string, white: bool, more: string)
    ensures Solid(WithPending(acc, white) + more) == Solid(acc) + Solid(more)
    ensures Solid(WithPending(acc, white)) == Solid(acc)
  {
    SolidConcat(WithPending(acc, white), more);
    SolidConcat(acc, " ");
    SolidOne(' ');
  }

  lemma PendingIs(acc: string, white: bool)
    ensures WithPending(acc, white) == if white then acc + " " else acc
  {}

  /** One pass of the condensing loop over a reference: it gives up, goes beyond, or goes on behind it. */
  lemma CondensedReference(enc: Encoding, s: string, w: string, tail: string, acc: string, white: bool)
    requires Whole(enc, s) && StartsReference(s) && AllWhite(w) && tail != "" && tail[0] == '<'
    ensures var p, j := Encode(s) + (w + tail), StopOf(s);
            var r := ReadCondensed(enc, Some(p), "<", acc, white);
            && j < |s| && Whole(enc, s[j + 1..]) && p != "" && p[0] == '&'
            && var c := GetChar(enc, p);
               var acc' := WithPending(acc, white) + c.out;
               && Solid(acc') == Solid(acc) + Solid(c.out)
               && (c.rest.None? ==> r == TextResult(None, WithPending(acc, white)))
               && (c.rest.Some? ==>
                     || (|c.rest.value| < |tail| && ';' !in s && (r.rest.Some? ==> Suffix(r.rest.value, c.rest.value)))
                     || (r == ReadCondensed(enc, Some(Encode(s[j + 1..]) + (w + tail)), "<", acc', false) &&
                         Solid(c.out) + Solid(s[j + 1..]) < Solid(s)))
  {
    hide *;
    var p := Encode(s) + (w + tail);
    ReferenceRead(enc, s, w, tail);
    AmpersandIsNoEnd(p, "<");
    PendingIs(acc, white);
    var c := GetChar(enc, p);
    PendingWeighsNothing(acc, white, c.out);
    if c.rest.None? {
      CondensedGivesUp(enc, p, acc, white);
    } else {
      CondensedStep(enc, p, acc, white);
      CondensedStays(enc, c.rest, WithPending(acc, white) + c.out, false);
    }
  }

  /** One pass over any other character. */
  lemma CondensedOther(enc: Encoding, s: string, rest: string, acc: string, white: bool)
    returns (acc': string, white': bool)
    requires Whole(enc, s) && s != "" && !StartsReference(s)
    ensures var k := UnitLength(enc, s);
            && ReadCondensed(enc, Some(Encode(s) + rest), "<", acc, white) ==
               ReadCondensed(enc, Some(Encode(s[k..]) + rest), "<", acc', white')
            && Solid(acc') + Solid(s[k..]) == Solid(acc) + Solid(s) && Whole(enc, s[k..])
  {
    hide *;
    var k := UnitLength(enc, s);
    WholeStep(enc, s);
    EncodeByUnit(enc, s);
    var u, later := EncodedUnit(enc, s), Encode(s[k..]);
    Glue(u, later, rest);
    PendingIs(acc, white);
    if s[0] == ' ' {
      BlankUnit(enc, s);
      BlankWeighsNothing(s);
      CondensedBlank(enc, later + rest, acc, white);
      acc', white' := acc, true;
    } else {
      CondensedUnit(enc, s, later + rest, acc, white);
      PendingWeighsNothing(acc, white, s[..k]);
      acc', white' := WithPending(acc, white) + s[..k], false;
    }
  }

  lemma LaterReference(enc: Encoding, s: string)
    requires Whole(enc, s) && s != "" && !StartsReference(s)
    ensures !NoReference(s) ==> !NoReference(s[UnitLength(enc, s)..])
  {
    WholeStep(enc, s);
  }

  lemma {:induction false} CondensedShrinks(enc: Encoding, s: string, w: string, tail: string, acc: string, white: bool,
                                            closed: bool)
    requires Whole(enc, s) && AllWhite(w) && tail != "" && tail[0] == '<' && (closed ==> Closed(s))
    ensures Bounded(ReadCondensed(enc, Some(Encode(s) + (w + tail)), "<", acc, white), tail, Solid(acc) + Solid(s),
                    !NoReference(s), closed)
    decreases |s|
  {
    hide *;
    var p, n := Encode(s) + (w + tail), Solid(acc) + Solid(s);
    var r := ReadCondensed(enc, Some(p), "<", acc, white);
    if s == "" {
      NothingReferred();
      EncodeNothing(w + tail);
      CondensedWhite(enc, w, tail, acc, white);
      AtTheEnd(acc, Some(tail), tail, n, false, closed);
    } else if StartsReference(s) {
      CondensedReference(enc, s, w, tail, acc, white);
      ClosedStart(s);
      var c, later := GetChar(enc, p), s[StopOf(s) + 1..];
      var acc' := WithPending(acc, white) + c.out;
      if c.rest.None? {
        PendingWeighsNothing(acc, white, "");
        AtTheEnd(WithPending(acc, white), None, tail, n, true, closed);
      } else if |c.rest.value| < |tail| && ';' !in s && (r.rest.Some? ==> Suffix(r.rest.value, c.rest.value)) {
        Beyond(r, c.rest.value, tail, n);
      } else {
        if closed {
          ClosedLater(s, StopOf(s) + 1);
        }
        CondensedShrinks(enc, later, w, tail, acc', false, closed);
        Shorter(r, tail, Solid(acc') + Solid(later), n, !NoReference(later), closed);
      }
    } else {
      var k := UnitLength(enc, s);
      var acc', white' := CondensedOther(enc, s, w + tail, acc, white);
      LaterReference(enc, s);
      if closed {
        ClosedLater(s, k);
      }
      CondensedShrinks(enc, s[k..], w, tail, acc', white', closed);
      Weaken(r, tail, n, !NoReference(s[k..]), !NoReference(s), closed);
    }
  }

  lemma BlankWeighsNothing(s: string)
    requires s != "" && s[0] == ' '
    ensures Solid(s[..1]) == 0
  {
    SolidOne(' ');
    assert s[..1] == [' '];
  }

  // ---- Texts and attributes, white space kept ----

  lemma ReadTextKeeps(enc: Encoding, condense: bool, p: string, trim: bool, end: string)
    requires end != "" && (!trim || !condense)
    ensures var t := ReadKeep(enc, Some(p), end, "");
            ReadText(enc, condense, Some(p), trim, end) == TextResult(PastEnd(t.rest, end), t.text)
  {
    hide ReadKeep, ReadCondensed, Suffix;
  }

  lemma EndAhead(end: string, rest: string)
    requires |end| == 1 && rest != ""
    ensures StringEqual(end + rest, end, false) && PastEnd(Some(end + rest), end) == Some(rest)
  {
    assert (end + rest)[1..] == rest;
  }

  lemma PastEndTells(t: Ptr, end: string, rest: string)
    requires |end| == 1 && PastEnd(t, end) == Some(rest)
    ensures t.Some? && |t.value| == |end + rest|
  {}

  /** With white space kept, the layout around a printed text becomes part of it. */
  lemma LayoutIsKept(enc: Encoding, condense: bool, a: string, s: string, b: string, trim: bool, end: string,
                     rest: string)
    requires Whole(enc, s) && NoReference(s) && AllWhite(a) && AllWhite(b)
    requires |end| == 1 && end[0] in {'<', '\"', '\''} && (!trim || !condense) && rest != ""
    ensures ReadText(enc, condense, Some(a + (Encode(s) + (b + (end + rest)))), trim, end) ==
            TextResult(Some(rest), a + s + b)
  {
    hide *;
    var tail := end + rest;
    EndAhead(end, rest);
    ReadTextKeeps(enc, condense, a + (Encode(s) + (b + tail)), trim, end);
    KeepWhite(enc, a, Encode(s) + (b + tail), end, "");
    assert "" + a == a;
    KeptRun(enc, s, b, end, tail, a);
  }

  lemma KeptRun(enc: Encoding, s: string, b: string, end: string, tail: string, acc: string)
    requires Whole(enc, s) && NoReference(s) && AllWhite(b)
    requires end != "" && end[0] in {'<', '\"', '\''} && StringEqual(tail, end, false)
    ensures ReadKeep(enc, Some(Encode(s) + (b + tail)), end, acc) == TextResult(Some(tail), acc + s + b)
  {
    hide *;
    KeepPart(enc, s, b + tail, end, acc);
    KeepWhite(enc, b, tail, end, acc + s);
    ReadKeepAtEnd(enc, tail, end, acc + s + b);
  }

  lemma SameLength(a: string, s: string, b: string)
    ensures a + s + b == s <==> a == "" && b == ""
  {
    assert |a + s + b| == |a| + |s| + |b|;
    assert "" + s + "" == s;
  }

  /** How much a text with a reference weighs after it was read. */
  lemma KeptWeight(enc: Encoding, condense: bool, a: string, s: string, b: string, trim: bool, end: string,
                   rest: string, closed: bool)
    requires Whole(enc, s) && AllWhite(a) && AllWhite(b) && (closed ==> Closed(s)) && !NoReference(s)
    requires |end| == 1 && end[0] in {'<', '\"', '\''} && (!trim || !condense) && rest != ""
    ensures var t := ReadText(enc, condense, Some(a + (Encode(s) + (b + (end + rest)))), trim, end);
            closed || t.rest == Some(rest) ==> Solid(t.text) < Solid(s)
  {
    hide *;
    var tail := end + rest;
    var p := a + (Encode(s) + (b + tail));
    EndAhead(end, rest);
    ReadTextKeeps(enc, condense, p, trim, end);
    KeepWhite(enc, a, Encode(s) + (b + tail), end, "");
    assert "" + a == a;
    KeepShrinks(enc, s, b, end, tail, a, closed);
    SolidWhite(a);
    var t := ReadKeep(enc, Some(p), end, "");
    if PastEnd(t.rest, end) == Some(rest) {
      PastEndTells(t.rest, end, rest);
    }
    Weight(t, tail, Solid(s), closed);
  }

  lemma Weight(t: TextResult, tail: string, n: nat, closed: bool)
    requires Bounded(t, tail, n, true, closed)
    ensures closed || (t.rest.Some? && |t.rest.value| >= |tail|) ==> Solid(t.text) < n
  {}

  /** Read with white space kept, a printed text comes back, with the pointer behind the end mark, exactly
      if it holds no reference and stands without white space around it. */
  lemma KeptTextBack(enc: Encoding, condense: bool, a: string, s: string, b: string, trim: bool, end: string,
                     rest: string)
    requires Whole(enc, s) && AllWhite(a) && AllWhite(b)
    requires |end| == 1 && end[0] in {'<', '\"', '\''} && (!trim || !condense) && rest != ""
    ensures var t := ReadText(enc, condense, Some(a + (Encode(s) + (b + (end + rest)))), trim, end);
            t == TextResult(Some(rest), s) <==> NoReference(s) && a == "" && b == ""
  {
    hide *;
    SameLength(a, s, b);
    if NoReference(s) {
      LayoutIsKept(enc, condense, a, s, b, trim, end, rest);
    } else {
      KeptWeight(enc, condense, a, s, b, trim, end, rest, false);
    }
  }

  /** The same for the text alone, wherever the pointer is: where every reference is closed. */
  lemma KeptValue(enc: Encoding, condense: bool, a: string, s: string, b: string, trim: bool, end: string, rest: string)
    requires Whole(enc, s) && Closed(s) && AllWhite(a) && AllWhite(b)
    requires |end| == 1 && end[0] in {'<', '\"', '\''} && (!trim || !condense) && rest != ""
    ensures ReadText(enc, condense, Some(a + (Encode(s) + (b + (end + rest)))), trim, end).text == s <==>
            NoReference(s) && a == "" && b == ""
  {
    hide *;
    SameLength(a, s, b);
    if NoReference(s) {
      LayoutIsKept(enc, condense, a, s, b, trim, end, rest);
    } else {
      KeptWeight(enc, condense, a, s, b, trim, end, rest, true);
    }
  }

  /** What is read behind the name of a printed attribute. */
  lemma AttributeRead(enc: Encoding, condense: bool, a: Attr, rest: string)
    requires NameOk(enc, a.name)
    ensures var q := QuoteOf(a.value);
            var t := ReadText(enc, condense, Some("" + (Encode(a.value) + ("" + ([q] + rest)))), false, [q]);
            && q in {'\"', '\''}
            && ParseAttribute(enc, condense, Some(PrintAttr(a) + rest)) ==
               AttrResult(Attr(a.name, t.text), t.rest, NoError)
  {
    hide *;
    var q, e := QuoteOf(a.value), Encode(a.value);
    var body := e + [q] + rest;
    var value := [q] + body;
    var after := "=" + value;
    PrintedAttr(enc, a, rest);
    NameIsRead(enc, a.name, after);
    AttrStep(enc, condense, a.name, after);
    AfterNameStep(enc, condense, a.name, value);
    AttrValueStep(enc, condense, a.name, q, body);
    Glue(e, [q], rest);
    assert "" + (e + ("" + ([q] + rest))) == body;
  }

  /** A printed attribute comes back, with the pointer right behind it, exactly if its value holds no reference. */
  lemma AttributeBack(enc: Encoding, condense: bool, a: Attr, rest: string)
    requires Whole(enc, a.value) && NameOk(enc, a.name) && rest != ""
    ensures ParseAttribute(enc, condense, Some(PrintAttr(a) + rest)) == AttrResult(a, Some(rest), NoError) <==>
            NoReference(a.value)
  {
    NoWhite();
    hide *;
    AttributeRead(enc, condense, a, rest);
    KeptTextBack(enc, condense, "", a.value, "", false, [QuoteOf(a.value)], rest);
    AttrIs(a);
  }

  lemma NoWhite()
    ensures AllWhite("")
  {}

  /** The same for its value alone, wherever the pointer is: where every reference is closed. */
  lemma AttributeValue(enc: Encoding, condense: bool, a: Attr, rest: string)
    requires Whole(enc, a.value) && Closed(a.value) && NameOk(enc, a.name) && rest != ""
    ensures ParseAttribute(enc, condense, Some(PrintAttr(a) + rest)).attr == a <==> NoReference(a.value)
    ensures ParseAttribute(enc, condense, Some(PrintAttr(a) + rest)).attr.name == a.name
  {
    NoWhite();
    hide *;
    AttributeRead(enc, condense, a, rest);
    KeptValue(enc, condense, "", a.value, "", false, [QuoteOf(a.value)], rest);
    AttrIs(a);
  }

  lemma PrintedAttr(enc: Encoding, a: Attr, rest: string)
    requires NameOk(enc, a.name)
    ensures var q := QuoteOf(a.value);
            var after := "=" + ([q] + (Encode(a.value) + [q] + rest));
            && PrintAttr(a) + rest == a.name + after && !IsNameChar(after[0]) && q in {'\"', '\''}
  {
    hide Encode;
    EncodeName(a.name);
    var q, e := QuoteOf(a.value), Encode(a.value);
    assert PrintAttr(a) == a.name + (if q == '\"' then "=\"" else "='") + e + [q];
    assert a.name + (if q == '\"' then "=\"" else "='") + e + [q] + rest == a.name + ("=" + ([q] + (e + [q] + rest)));
  }

  // ---- Texts, condensed ----

  /** A text without its leading blanks and byte order marks. */
  function DropWhite(enc: Encoding, s: string): (r: string)
    ensures |r| <= |s| && s[|s| - |r|..] == r
    ensures r == s <==> s == "" || (s[0] != ' ' && !(enc.Utf8? && StartsWithMark(s)))
  {
    if s == "" then s
    else if enc.Utf8? && StartsWithMark(s) then DropWhite(enc, s[3..])
    else if s[0] == ' ' then DropWhite(enc, s[1..])
    else s
  }

  lemma EncodedBlank(s: string)
    requires s != "" && s[0] == ' '
    ensures Encode(s) == " " + Encode(s[1..]) && !StartsReference(s)
  {}

  lemma EncodedMark(enc: Encoding, s: string)
    requires enc.Utf8? && Whole(enc, s) && StartsWithMark(s)
    ensures |s| >= 3 && Encode(s) == s[..3] + Encode(s[3..]) && Whole(enc, s[3..]) && !StartsReference(s)
  {
    EncodeRaw(s, 3);
  }

  lemma MarkAndMore(a: string, rest: string)
    requires StartsWithMark(a)
    ensures StartsWithMark(a[..3] + rest) && (a[..3] + rest)[3..] == rest && a[..3] + rest != ""
  {}

  lemma EncodedFirst(s: string)
    requires s != "" && s[0] != ' '
    ensures Encode(s) != "" && !IsWhiteSpace(Encode(s)[0])
  {}

  lemma WholeTail(enc: Encoding, s: string)
    requires s != "" && s[0] as int < 0x80 && Whole(enc, s)
    ensures Whole(enc, s[1..])
  {}

  lemma {:induction false} BlanksAreSkipped(enc: Encoding, s: string, rest: string)
    requires Whole(enc, s) && rest != "" && rest[0] as int < 0x80
    ensures var d := DropWhite(enc, s);
            && Whole(enc, d)
            && SkipWhite(enc, Encode(s) + rest) == if d == "" then SkipWhite(enc, rest) else Encode(d) + rest
    decreases |s|
  {
    hide Encode, SkipWhite, IsWhiteSpace, StartsWithMark, Whole;
    if s == "" {
      EncodeNothing(rest);
    } else if enc.Utf8? && StartsWithMark(s) {
      EncodedMark(enc, s);
      var e := Encode(s[3..]);
      Glue(s[..3], e, rest);
      MarkAndMore(s, e + rest);
      SkipStep(enc, Encode(s) + rest);
      BlanksAreSkipped(enc, s[3..], rest);
    } else if s[0] == ' ' {
      EncodedBlank(s);
      WholeTail(enc, s);
      Glue(" ", Encode(s[1..]), rest);
      SkipBlank(enc, Encode(s[1..]) + rest);
      BlanksAreSkipped(enc, s[1..], rest);
    } else {
      EncodedFirst(s);
      if enc.Utf8? && StartsWithMark(Encode(s) + rest) {
        MarkIsRaw(enc, s, rest);
      }
      SkipStep(enc, Encode(s) + rest);
    }
  }

  /** Where the condensing loop starts on a printed text, and what white space it still meets. */
  lemma CondensedStart(enc: Encoding, s: string, w: string, tail: string)
    requires Whole(enc, s) && AllWhite(w) && |tail| > 1 && tail[0] == '<'
    ensures var d := DropWhite(enc, s);
            && Whole(enc, d)
            && SkipWhiteSpace(enc, Some(Encode(s) + (w + tail))) ==
               Some(Encode(d) + ((if d == "" then "" else w) + tail))
  {
    WhiteIsAscii(w, tail);
    hide Encode, SkipWhite, DropWhite, Whole;
    BlanksAreSkipped(enc, s, w + tail);
    if DropWhite(enc, s) == "" {
      SkipWhiteRun(enc, w, tail);
      SkipWhiteStays(enc, tail);
      EncodeNothing("" + tail);
      assert "" + tail == tail;
    }
  }

  lemma DroppedReference(enc: Encoding, s: string)
    ensures NoReference(DropWhite(enc, s)) <==> NoReference(s)
    ensures Closed(s) ==> Closed(DropWhite(enc, s))
    ensures Solid(DropWhite(enc, s)) <= Solid(s)
  {
    var k := |s| - |DropWhite(enc, s)|;
    assert DropWhite(enc, s) == s[k..];
    hide DropWhite, Solid, StartsReference;
    if Closed(s) {
      ClosedLater(s, k);
    }
    SolidSplit(s, k);
    if NoReference(s) {
      NoReferenceSuffix(s, k);
    } else {
      var i :| 0 <= i < |s| && StartsReference(s[i..]);
      ReferenceIsAmpersand(s[i..]);
      DropStopsBefore(enc, s, i);
      assert s[k..][i - k..] == s[i..];
    }
  }

  lemma ReferenceIsAmpersand(s: string)
    requires StartsReference(s)
    ensures s[0] == '&'
  {}

  lemma {:induction false} DropStopsBefore(enc: Encoding, s: string, i: nat)
    requires i < |s| && s[i] == '&'
    ensures |s| - |DropWhite(enc, s)| <= i
  {
    if enc.Utf8? && StartsWithMark(s) {
      DropStopsBefore(enc, s[3..], i - 3);
    } else if s[0] == ' ' {
      DropStopsBefore(enc, s[1..], i - 1);
    }
  }

  lemma ReadTextCondenses(enc: Encoding, p: string, q: string)
    requires SkipWhiteSpace(enc, Some(p)) == Some(q)
    ensures var t := ReadCondensed(enc, Some(q), "<", "", false);
            ReadText(enc, true, Some(p), true, "<") == TextResult(PastEnd(t.rest, "<"), t.text)
  {
    hide SkipWhiteSpace, ReadCondensed, ReadKeep, Suffix;
  }

  /** Exactly what condensed reading makes of a printed text without references. */
  lemma CondensedText(enc: Encoding, s: string, w: string, tail: string)
    requires Whole(enc, s) && NoReference(s) && AllWhite(w) && |tail| > 1 && tail[0] == '<'
    ensures ReadText(enc, true, Some(Encode(s) + (w + tail)), true, "<") ==
            TextResult(Some(tail[1..]), Condense(DropWhite(enc, s), false))
  {
    NoWhite();
    hide *;
    var d := DropWhite(enc, s);
    var w' := if d == "" then "" else w;
    CondensedStart(enc, s, w, tail);
    DroppedReference(enc, s);
    CondensedEncoded(enc, d, w', tail, "", false);
    Glue(Encode(d), w', tail);
    assert "" + Condense(d, false) == Condense(d, false);
    ReadCondensedText(enc, Encode(s) + (w + tail), Encode(d) + (w' + tail), tail, Condense(d, false));
  }

  /** The texts that condensing leaves alone. */
  predicate Dense(enc: Encoding, s: string) {
    s == "" || (Tight(s) && !(enc.Utf8? && StartsWithMark(s)))
  }

  lemma CondensedIsDense(enc: Encoding, s: string)
    ensures Condense(DropWhite(enc, s), false) == s <==> Dense(enc, s)
  {
    hide Condense, DropWhite, StartsWithMark;
    CondenseShrinks(DropWhite(enc, s), false);
    CondenseIsIdentity(s);
  }

  lemma TextWeight(enc: Encoding, s: string, w: string, tail: string, closed: bool)
    requires Whole(enc, s) && !NoReference(s) && (closed ==> Closed(s)) && AllWhite(w) && |tail| > 1 && tail[0] == '<'
    ensures var t := ReadText(enc, true, Some(Encode(s) + (w + tail)), true, "<");
            closed || t.rest == Some(tail[1..]) ==> Solid(t.text) < Solid(s)
  {
    NoWhite();
    hide *;
    var d := DropWhite(enc, s);
    var w' := if d == "" then "" else w;
    var p, q := Encode(s) + (w + tail), Encode(d) + (w' + tail);
    CondensedStart(enc, s, w, tail);
    DroppedReference(enc, s);
    CondensedShrinks(enc, d, w', tail, "", false, closed);
    SolidNothing();
    ReadTextCondenses(enc, p, q);
    var t := ReadCondensed(enc, Some(q), "<", "", false);
    assert tail == "<" + tail[1..];
    if PastEnd(t.rest, "<") == Some(tail[1..]) {
      PastEndTells(t.rest, "<", tail[1..]);
    }
    Weight(t, tail, Solid(d), closed);
  }

  /** A printed text comes back from condensed reading, with the pointer at the tag behind it, exactly
      if it holds no reference, has no leading, trailing or doubled blank and no byte order mark in front. */
  lemma TextBack(enc: Encoding, s: string, w: string, tail: string)
    requires Whole(enc, s) && AllWhite(w) && |tail| > 1 && tail[0] == '<'
    ensures ReadText(enc, true, Some(Encode(s) + (w + tail)), true, "<") == TextResult(Some(tail[1..]), s) <==>
            NoReference(s) && Dense(enc, s)
  {
    hide *;
    CondensedIsDense(enc, s);
    if NoReference(s) {
      CondensedText(enc, s, w, tail);
    } else {
      TextWeight(enc, s, w, tail, false);
    }
  }

  /** The same for the text alone, wherever the pointer is: where every reference is closed. */
  lemma TextValue(enc: Encoding, s: string, w: string, tail: string)
    requires Whole(enc, s) && Closed(s) && AllWhite(w) && |tail| > 1 && tail[0] == '<'
    ensures ReadText(enc, true, Some(Encode(s) + (w + tail)), true, "<").text == s <==> NoReference(s) && Dense(enc, s)
  {
    hide *;
    CondensedIsDense(enc, s);
    if NoReference(s) {
      CondensedText(enc, s, w, tail);
    } else {
      TextWeight(enc, s, w, tail, true);
    }
  }

  // ---- Raw text and names ----

  /** Raw text ends where it should exactly if the end mark does not occur in it. */
  lemma RawBack(s: string, mark: string, tail: string)
    requires EndsOnce(mark)
    ensures RawLength(s + mark + tail, mark) == |s| <==> Lacks(s, mark)
  {
    hide RawLength;
    if Lacks(s, mark) {
      RawLengthIs(s, mark, tail);
    } else {
      var p := s + mark + tail;
      var i :| 0 <= i < |s| && StringEqual(s[i..], mark, false);
      assert forall k :: 0 <= k < |mark| ==> p[i..][k] == s[i..][k];
      assert StringEqual(p[i..], mark, false);
    }
  }

  lemma RawCut(s: string, mark: string, tail: string)
    ensures var body := s + mark + tail;
            var n := RawLength(body, mark);
            (n == |s| ==> body[..n] == s) && (n != |s| ==> body[..n] != s)
  {
    hide RawLength, StringEqual;
    var body := s + mark + tail;
    var n := RawLength(body, mark);
    assert |body[..n]| == n;
  }

  /** A comment comes back exactly if "-->" does not occur in it. */
  lemma CommentBack(enc: Encoding, s: string, tail: string)
    ensures ParseComment(enc, "<!--" + (s + "-->" + tail)) == Parsed(Comment(s), Some(tail), NoError) <==>
            Lacks(s, "-->")
  {
    RawBack(s, "-->", tail);
    RawCut(s, "-->", tail);
    if Lacks(s, "-->") {
      CommentIsRead(enc, s, tail);
    } else {
      hide RawLength, SkipWhite, Lacks, StringEqual;
      var body := s + "-->" + tail;
      MarkAhead("<!--", body);
      SkipWhiteStays(enc, "<!--" + body);
    }
  }

  /** A CDATA section comes back exactly if "]]>" does not occur in it. */
  lemma CdataBack(enc: Encoding, condense: bool, s: string, tail: string)
    ensures var r := ParseCdata(enc, condense, "<![CDATA[" + (s + "]]>" + tail));
            r == Parsed(Text(s, true), if tail == "" then None else Some(tail), NoError) <==> Lacks(s, "]]>")
  {
    RawBack(s, "]]>", tail);
    RawCut(s, "]]>", tail);
    if Lacks(s, "]]>") {
      CdataIsRead(enc, condense, s, tail);
    } else {
      hide RawLength, Lacks, StringEqual, ReadText;
      MarkAhead("<![CDATA[", s + "]]>" + tail);
    }
  }

  /** An unknown tag comes back exactly if it holds no end bracket. */
  lemma UnknownBack(enc: Encoding, s: string, tail: string)
    ensures ParseUnknown(enc, "<" + (s + ">" + tail)) == Parsed(UnknownTag(s), Some(tail), NoError) <==> '>' !in s
  {
    BracketLacks(s);
    RawBack(s, ">", tail);
    RawCut(s, ">", tail);
    if '>' !in s {
      UnknownIsRead(enc, s, tail);
    } else {
      hide RawLength, SkipWhite, Lacks, StringEqual;
      var body := s + ">" + tail;
      assert ("<" + body)[1..] == body;
      SkipWhiteStays(enc, "<" + body);
    }
  }

  /** ReadName takes exactly the names that start and go on with the characters of names. */
  lemma NameBack(name: string, rest: string)
    requires rest != "" && !IsNameChar(rest[0])
    ensures NameLength(Some(name + rest)) == Some(|name|) <==>
            name != "" && IsNameStart(name[0]) && forall i :: 0 <= i < |name| ==> IsNameChar(name[i])
  {
    hide IsNameStart, IsNameChar, NameRun;
    var p := name + rest;
    if forall i :: 0 <= i < |name| ==> IsNameChar(name[i]) {
      NameRunIs(name, rest);
    } else {
      var i :| 0 <= i < |name| && !IsNameChar(name[i]);
      assert p[i] == name[i];
    }
  }

  // ---- Fields of declarations ----

  lemma {:induction false} DecimalIsSolid(s: string)
    requires s != "" && s[0] == '#' && WalkBack(s, '#', 10, 0, 1).Some?
    ensures Solid(s) >= if WalkBack(s, '#', 10, 0, 1).value < 10 then 1 else 3
  {
    var n := |s|;
    if n > 2 && s[n - 1] != '#' && s[n - 2] != '#' {
      assert s[..n - 1][n - 2] == s[n - 2] && s[..n - 1][..n - 2] == s[..n - 2];
      SolidSplit(s, n - 2);
      SolidSplit(s[n - 2..], 1);
      assert s[n - 2..][..1] == [s[n - 2]] && s[n - 2..][1..] == [s[n - 1]];
      SolidOne(s[n - 2]);
      SolidOne(s[n - 1]);
    } else if n > 1 && s[n - 1] != '#' {
      assert s[..n - 1][n - 2] == '#';
    }
  }

  /** What a reference of either kind takes from the text and yields. */
  lemma EntityIs(enc: Encoding, p: string)
    requires |p| > 2 && p[0] == '&' && p[1] == '#'
    ensures var c := GetChar(enc, p);
            var hex := p[2] == 'x';
            var from, stop, base := if hex then 3 else 2, if hex then 'x' else '#', if hex then 16 else 10;
            c.rest.Some? ==>
              && Find(p[from..], ';').Some?
              && var k := Find(p[from..], ';').value;
                 && p[from + k] == ';' && c.rest.value == p[from + k + 1..]
                 && var ucs := WalkBack(p[from - 1..from + k], stop, base, 0, 1);
                    ucs.Some? && c.out == ReferenceBytes(enc, ucs.value)
  {
    hide WalkBack, Find;
  }

  lemma NumberWeighs(enc: Encoding, p: string) returns (k: nat)
    requires |p| > 2 && p[0] == '&' && p[1] == '#' && GetChar(enc, p).rest.Some?
    ensures var c := GetChar(enc, p);
            0 < k <= |p| && c.rest.value == p[k..] && p[k - 1] == ';' && Solid(c.out) < Solid(p[..k])
  {
    hide *;
    var from := if p[2] == 'x' then 3 else 2;
    EntityIs(enc, p);
    var semi := Find(p[from..], ';').value;
    k := from + semi + 1;
    var digits := p[from - 1..k - 1];
    assert p[..k] == p[..from - 1] + digits + ";";
    SolidConcat(p[..from - 1] + digits, ";");
    SolidConcat(p[..from - 1], digits);
    SolidSemicolon();
    Ampersands(p[..from - 1]);
    if p[2] == 'x' {
      WalkIsSolid(digits);
      BytesOfReference(enc, WalkBack(digits, 'x', 16, 0, 1).value);
    } else {
      DecimalIsSolid(digits);
      BytesOfReference(enc, WalkBack(digits, '#', 10, 0, 1).value);
    }
  }

  lemma Ampersands(s: string)
    requires s == "&" || s == "&#"
    ensures Solid(s) == |s|
  {
    assert s[1..] == if s == "&" then "" else "#";
  }

  lemma NamedEntity(enc: Encoding, p: string) returns (k: nat)
    requires p != "" && p[0] == '&' && !(|p| > 2 && p[1] == '#')
    ensures var c := GetChar(enc, p);
            && 0 < k <= |p| && c.rest == Some(p[k..]) && p[k - 1] in {'&', ';'}
            && (k == 1 ==> c.out == "") && (k > 1 ==> |c.out| == 1 && !IsWhiteSpace(p[k - 1]))
  {
    k := |p| - |GetChar(enc, p).rest.value|;
  }

  /** Every entity in a raw text weighs more than what it yields. */
  lemma EntityWeighs(enc: Encoding, p: string) returns (k: nat)
    requires p != "" && p[0] == '&' && GetChar(enc, p).rest.Some?
    ensures var c := GetChar(enc, p);
            && 0 < k <= |p| && c.rest == Some(p[k..]) && p[k - 1] as int < 0x80 && Solid(c.out) < Solid(p[..k])
  {
    if |p| > 2 && p[1] == '#' {
      k := NumberWeighs(enc, p);
    } else {
      k := NamedEntity(enc, p);
      hide GetChar;
      Ampersands("&");
      if k == 1 {
        assert p[..1] == "&";
        SolidNothing();
      } else {
        SolidSplit(p[..k], 1);
        SolidSplit(p[..k], k - 1);
        assert p[..k][..1] == "&" && p[..k][k - 1..] == [p[k - 1]];
        SolidOne(p[k - 1]);
        SolidSplit(p[..k][..k - 1], 1);
        assert p[..k][..k - 1][..1] == "&";
      }
    }
  }

  lemma QuoteEnds(enc: Encoding, p: string, acc: string)
    requires p != "" && p[0] == '\"'
    ensures ReadKeep(enc, Some(p), "\"", acc) == TextResult(Some(p), acc)
  {}

  predicate Marked(s: string) {
    '&' in s || '\"' in s
  }

  lemma MarkedLater(s: string, n: nat)
    requires 0 < n <= |s| && forall i :: 0 <= i < n ==> s[i] != '&' && s[i] != '\"'
    ensures Marked(s) <==> Marked(s[n..])
  {
    assert s == s[..n] + s[n..];
  }

  lemma UnitIsPlain(enc: Encoding, s: string)
    requires Whole(enc, s) && s != "" && s[0] != '&' && s[0] != '\"'
    ensures forall i :: 0 <= i < UnitLength(enc, s) ==> s[i] != '&' && s[i] != '\"'
  {}

  lemma PlainUnit(enc: Encoding, s: string, tail: string, acc: string)
    requires Whole(enc, s) && s != "" && s[0] != '&' && s[0] != '\"'
    ensures var n := UnitLength(enc, s);
            && ReadKeep(enc, Some(s + tail), "\"", acc) == ReadKeep(enc, Some(s[n..] + tail), "\"", acc + s[..n])
            && (Marked(s) <==> Marked(s[n..]))
  {
    hide *;
    RawUnit(enc, s, tail);
    NoMark(s + tail, "\"");
    UnitIsPlain(enc, s);
    MarkedLater(s, UnitLength(enc, s));
    ReadKeepStep(enc, s + tail, "\"", acc);
  }

  lemma {:induction false} FieldShrinks(enc: Encoding, s: string, tail: string, acc: string)
    requires Whole(enc, s) && tail != "" && tail[0] == '\"'
    ensures Bounded(ReadKeep(enc, Some(s + tail), "\"", acc), tail, Solid(acc) + Solid(s), Marked(s), false)
    decreases |s|
  {
    hide ReadKeep, Bounded, GetChar, Marked, Suffix, StringEqual, Solid, Whole;
    var p, n := s + tail, Solid(acc) + Solid(s);
    var r := ReadKeep(enc, Some(p), "\"", acc);
    SolidNothing();
    if s == "" {
      assert p == tail;
      QuoteEnds(enc, p, acc);
      AtTheEnd(acc, Some(tail), tail, n, false, false);
      NothingMarked();
    } else if s[0] == '\"' {
      QuoteEnds(enc, p, acc);
      SolidSplit(s, 1);
      assert s[..1] == ['\"'];
      SolidOne('\"');
      AtTheEnd(acc, Some(p), tail, n, true, false);
      Weaken(r, tail, n, true, Marked(s), false);
    } else if s[0] == '&' {
      AmpersandIsNoEnd(p, "\"");
      var c := GetChar(enc, p);
      if c.rest.None? {
        KeepGivesUp(enc, p, "\"", acc);
        SolidSplit(s, 1);
        assert s[..1] == ['&'];
        SolidOne('&');
        AtTheEnd(acc, None, tail, n, true, false);
      } else {
        ReadKeepStep(enc, p, "\"", acc);
        var k := EntityWeighs(enc, p);
        if |c.rest.value| < |tail| {
          KeepStays(enc, c.rest, "\"", acc + c.out);
          Beyond(r, c.rest.value, tail, n);
        } else {
          assert p[k..] == s[k..] + tail && p[..k] == s[..k];
          WholeAfter(enc, s, k);
          SolidSplit(s, k);
          SolidConcat(acc, c.out);
          FieldShrinks(enc, s[k..], tail, acc + c.out);
          Shorter(r, tail, Solid(acc + c.out) + Solid(s[k..]), n, Marked(s[k..]), false);
        }
      }
      Weaken(r, tail, n, true, Marked(s), false);
    } else {
      var k := UnitLength(enc, s);
      PlainUnit(enc, s, tail, acc);
      WholeStep(enc, s);
      SolidConcat(acc, s[..k]);
      FieldShrinks(enc, s[k..], tail, acc + s[..k]);
    }
  }

  lemma NothingMarked()
    ensures !Marked("")
  {}

  lemma FieldWeight(enc: Encoding, condense: bool, v: string, rest: string)
    requires Whole(enc, v) && Marked(v) && rest != ""
    ensures var t := ReadText(enc, condense, Some(v + "\"" + rest), false, "\"");
            t.rest == Some(rest) ==> Solid(t.text) < Solid(v)
  {
    hide *;
    var tail := "\"" + rest;
    var t := ReadKeep(enc, Some(v + tail), "\"", "");
    Glue(v, "\"", rest);
    FieldShrinks(enc, v, tail, "");
    SolidNothing();
    ReadTextKeeps(enc, condense, v + tail, false, "\"");
    if PastEnd(t.rest, "\"") == Some(rest) {
      PastEndTells(t.rest, "\"", rest);
    }
    Weight(t, tail, Solid(v), false);
  }

  /** A field of a declaration, which is printed as it stands, comes back exactly if it holds neither a
      quote nor an ampersand. */
  lemma FieldBack(enc: Encoding, condense: bool, v: string, rest: string)
    requires Whole(enc, v) && rest != ""
    ensures ReadText(enc, condense, Some(v + "\"" + rest), false, "\"") == TextResult(Some(rest), v) <==>
            '\"' !in v && '&' !in v
  {
    hide ReadText, ReadKeep, ReadCondensed, Solid, Whole;
    if Marked(v) {
      FieldWeight(enc, condense, v, rest);
    } else {
      FieldIsOk(enc, v);
      ReadFieldValue(enc, condense, v, rest);
    }
  }

  lemma FieldIsOk(enc: Encoding, v: string)
    requires Whole(enc, v) && !Marked(v)
    ensures FieldOk(enc, v)
  {}
}
