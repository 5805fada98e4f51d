// The other half of the round trip: what comes back is fit to come back. The
// first value or text of a document that is not read as it was printed makes
// the whole document differ, whatever follows it.
module XmlBack {
  import opened Options
  import opened XmlText
  import opened XmlParser
  import opened XmlPrinter
  import opened XmlCodec
  import opened XmlRoundTrip
  import opened XmlExact
  import opened XmlRange

  // ---- Attributes ----

  /** One pass of the attribute loop over a printed attribute, whatever its value is read as. */
  lemma AttributeTaken(enc: Encoding, condense: bool, p: string, acc: seq<Attr>)
    requires p != "" && IsNameStart(p[0]) && SkipWhite(enc, p) == p
    ensures var r := AttributeStep(enc, condense, " " + p, acc);
            if r.Stop? then r.end.BadTag? && r.end.attrs == acc
            else r.attr == ParseAttribute(enc, condense, Some(p)).attr
  {
    hide SkipWhite, ParseAttribute, AttrNames, IsNameStart, First;
    SkipBlank(enc, p);
    NameStartIsNoMark(p[0]);
  }

  lemma AttributesGrow(enc: Encoding, condense: bool, p: string, acc: seq<Attr>)
    requires p != "" && AttrsShaped(enc, acc)
    ensures var s := AttributeStep(enc, condense, p, acc);
            var r := ParseAttributes(enc, condense, p, acc);
            if s.Stop? then r == s.end else acc + [s.attr] <= r.attrs
  {
    hide AttributeStep, AttrsShaped, NameOk;
    StepInRange(enc, condense, p, acc);
    var s := AttributeStep(enc, condense, p, acc);
    if s.Go? {
      AddAttr(enc, acc, s.attr);
      AttrsInRange(enc, condense, s.rest, acc + [s.attr]);
    }
  }

  lemma AttrStarts(enc: Encoding, a: Attr, rest: string)
    requires NameOk(enc, a.name)
    ensures var p := PrintAttr(a) + rest; p != "" && IsNameStart(p[0]) && SkipWhite(enc, p) == p
  {
    PrintedAttr(enc, a, rest);
    var q := QuoteOf(a.value);
    NameIsRead(enc, a.name, "=" + ([q] + (Encode(a.value) + [q] + rest)));
    hide SkipWhite, PrintAttr, Encode;
  }

  /** Values that can be printed. */
  predicate ValuesFit(enc: Encoding, attrs: seq<Attr>) {
    forall i :: 0 <= i < |attrs| ==> Whole(enc, attrs[i].value) && Closed(attrs[i].value)
  }

  predicate ValuesSettled(attrs: seq<Attr>) {
    forall i :: 0 <= i < |attrs| ==> NoReference(attrs[i].value)
  }

  lemma FirstAttr(enc: Encoding, attrs: seq<Attr>, acc: seq<Attr>)
    requires attrs != [] && AttrsShaped(enc, acc + attrs) && ValuesFit(enc, attrs)
    ensures NameOk(enc, attrs[0].name) && Whole(enc, attrs[0].value) && Closed(attrs[0].value)
    ensures AttrsShaped(enc, acc) && AttrsShaped(enc, attrs) && ValuesFit(enc, attrs[1..])
    ensures forall i :: 0 <= i < |acc| ==> acc[i].name != attrs[0].name
    ensures acc + [attrs[0]] + attrs[1..] == acc + attrs
    ensures NoReference(attrs[0].value) && ValuesSettled(attrs[1..]) ==> ValuesSettled(attrs)
    ensures NoReference(attrs[0].value) ==> AttrOk(enc, attrs[0])
  {
    hide NameOk, Whole, Closed, NoReference;
    assert (acc + attrs)[|acc|] == attrs[0];
    assert forall i :: 0 <= i < |acc| ==> (acc + attrs)[i] == acc[i];
    assert forall i :: 0 <= i < |attrs| ==> attrs[i] == (acc + attrs)[|acc| + i];
  }

  lemma PrefixSame(acc: seq<Attr>, a: Attr, attrs: seq<Attr>)
    requires attrs != [] && acc + [a] <= acc + attrs
    ensures a == attrs[0]
  {
    assert (acc + [a])[|acc|] == (acc + attrs)[|acc|];
  }

  lemma NoneSettled()
    ensures ValuesSettled([])
  {}

  /** Printed attributes that come back hold no references. */
  lemma {:induction false} AttrsBack(enc: Encoding, condense: bool, attrs: seq<Attr>, acc: seq<Attr>, rest: string)
    requires AttrsShaped(enc, acc + attrs) && ValuesFit(enc, attrs) && rest != "" && PrintAttrs(attrs) + rest != ""
    requires ParseAttributes(enc, condense, PrintAttrs(attrs) + rest, acc).attrs == acc + attrs
    ensures ValuesSettled(attrs)
    decreases |attrs|
  {
    hide *;
    if attrs == [] {
      NoneSettled();
    } else {
      var a, tail := attrs[0], PrintAttrs(attrs[1..]) + rest;
      var p := PrintAttr(a) + tail;
      FirstAttr(enc, attrs, acc);
      PrintAttrsCons(enc, attrs, rest);
      AttrStarts(enc, a, tail);
      AttributeTaken(enc, condense, p, acc);
      AttributesGrow(enc, condense, " " + p, acc);
      AttributeValue(enc, condense, a, tail);
      if AttributeStep(enc, condense, " " + p, acc).Go? {
        PrefixSame(acc, AttributeStep(enc, condense, " " + p, acc).attr, attrs);
        AttrIsRead(enc, condense, a, tail);
        AttributesStep(enc, condense, p, acc, a, tail);
        AttributesGo(enc, condense, " " + p, acc, a, tail);
        AttrsBack(enc, condense, attrs[1..], acc + [a], rest);
      } else {
        assert |acc + attrs| == |acc| + |attrs|;
      }
    }
  }

  // ---- Running text ----

  lemma ReadValueGrows(enc: Encoding, condense: bool, p: Ptr, kids: seq<Node>)
    ensures kids <= ReadValue(enc, condense, p, kids).kids
    decreases if p.Some? then |p.value| else 0
  {
    hide *;
    var q := SkipWhiteSpace(enc, p);
    SkippedPtr(enc, p);
    if q.None? || q.value == "" || (q.value[0] == '<' && StringEqual(q.value, "</", false)) {
      ValueStops(enc, condense, p, kids);
    } else if q.value[0] != '<' {
      var t := ParseRun(enc, condense, if condense then q.value else p.value);
      RunStep(enc, condense, p, kids);
      ReadValueGrows(enc, condense, t.rest, if Blank(t.node.text) then kids else kids + [t.node]);
    } else {
      var n := ParseNode(enc, condense, KindOf(q.value), q.value);
      NodeStep(enc, condense, p, kids);
      ReadValueGrows(enc, condense, n.rest, kids + [n.node]);
    }
  }

  lemma At<T>(acc: seq<T>, x: T, all: seq<T>)
    requires acc + [x] <= all
    ensures |all| > |acc| && all[|acc|] == x
  {
    assert (acc + [x])[|acc|] == x;
  }

  /** The next child that is read at a tag is no running text. */
  lemma TagIsNoText(enc: Encoding, condense: bool, p: Ptr, acc: seq<Node>)
    requires p.Some? ==> p.value != "" && p.value[0] == '<'
    ensures var kids := ReadValue(enc, condense, p, acc).kids;
            |kids| > |acc| ==> !Plain(kids[|acc|])
  {
    if p.Some? {
      SkipWhiteStays(enc, p.value);
    }
    assert SkipWhiteSpace(enc, p) == p;
    hide *;
    if p.None? || StringEqual(p.value, "</", false) {
      ValueStops(enc, condense, p, acc);
    } else {
      var n := ParseNode(enc, condense, KindOf(p.value), p.value);
      NodeStep(enc, condense, p, acc);
      NodeInRange(enc, condense, p.value);
      ReadValueGrows(enc, condense, n.rest, acc + [n.node]);
      At(acc, n.node, ReadValue(enc, condense, n.rest, acc + [n.node]).kids);
    }
  }

  /** Where a running text is the next child, it was read there, and it is what ReadText made of it. */
  lemma TextWasRead(enc: Encoding, condense: bool, p: string, acc: seq<Node>, s: string)
    requires p != ""
    requires var kids := ReadValue(enc, condense, Some(p), acc).kids; |kids| > |acc| && kids[|acc|] == Text(s, false)
    ensures var q := SkipWhite(enc, p);
            && q != "" && q[0] != '<'
            && ReadText(enc, condense, Some(if condense then q else p), true, "<").text == s
  {
    var q := SkipWhiteSpace(enc, Some(p));
    assert q == Some(SkipWhite(enc, p)) && Plain(Text(s, false));
    hide *;
    if q.value == "" {
      ValueStops(enc, condense, Some(p), acc);
    } else if q.value[0] == '<' {
      SkippedStays(enc, Some(p));
      SameFromSkipped(enc, condense, p, q.value, acc);
      TagIsNoText(enc, condense, q, acc);
    } else {
      var from := if condense then q.value else p;
      var t := ParseRun(enc, condense, from);
      RunStep(enc, condense, Some(p), acc);
      if Blank(t.node.text) {
        RunStopsAtTag(enc, condense, from);
        RunIsLong(enc, condense, from);
        TagIsNoText(enc, condense, t.rest, acc);
      } else {
        ReadValueGrows(enc, condense, t.rest, acc + [t.node]);
        At(acc, t.node, ReadValue(enc, condense, t.rest, acc + [t.node]).kids);
        RunText(enc, condense, from);
      }
    }
  }

  lemma RunText(enc: Encoding, condense: bool, p: string)
    ensures ParseRun(enc, condense, p).node == Text(ReadText(enc, condense, Some(p), true, "<").text, false)
  {
    hide ReadText;
  }

  lemma RunIsLong(enc: Encoding, condense: bool, p: string)
    ensures var r := ParseRun(enc, condense, p).rest; r.Some? ==> r.value != ""
  {
    hide ParseRun;
  }

  lemma SameFromSkipped(enc: Encoding, condense: bool, p: string, q: string, acc: seq<Node>)
    requires p != "" && SkipWhiteSpace(enc, Some(p)) == Some(q) && SkipWhite(enc, q) == q && q != "" && q[0] == '<'
    ensures ReadValue(enc, condense, Some(p), acc).kids == ReadValue(enc, condense, Some(q), acc).kids
  {
    assert SkipWhiteSpace(enc, Some(q)) == Some(q) by { hide SkipWhite; }
    hide *;
    if StringEqual(q, "</", false) {
      ValueStops(enc, condense, Some(p), acc);
      ValueStops(enc, condense, Some(q), acc);
    } else {
      NodeStep(enc, condense, Some(p), acc);
      NodeStep(enc, condense, Some(q), acc);
    }
  }

  lemma ReadFromSkipped(enc: Encoding, p: string)
    requires p != "" && SkipWhite(enc, p) != ""
    ensures ReadText(enc, true, Some(SkipWhite(enc, p)), true, "<") == ReadText(enc, true, Some(p), true, "<")
  {
    SkipTwice(enc, p);
    hide SkipWhite, ReadCondensed, ReadKeep, Suffix;
  }

  lemma {:induction false} SkipWhiteAll(enc: Encoding, a: string, tail: string)
    requires SkipWhite(enc, a) == "" && tail != "" && tail[0] as int < 0x80
    ensures SkipWhite(enc, a + tail) == SkipWhite(enc, tail)
    decreases |a|
  {
    hide *;
    var p := a + tail;
    if a == "" {
      assert p == tail;
    } else {
      SkipStep(enc, a);
      SkipStep(enc, p);
      MarkThrough(a, tail);
      if enc.Utf8? && StartsWithMark(a) {
        assert p[3..] == a[3..] + tail;
        SkipWhiteAll(enc, a[3..], tail);
      } else if IsWhiteSpace(a[0]) {
        assert p[1..] == a[1..] + tail;
        SkipWhiteAll(enc, a[1..], tail);
      }
    }
  }

  /** What a running text must be like that was read from where it was printed. */
  predicate ReadAlone(enc: Encoding, condense: bool, a: string, s: string, b: string) {
    && NoReference(s)
    && if condense then Tight(s) && !(enc.Utf8? && StartsWithMark(s))
       else a == "" && b == "" && SkipWhite(enc, Encode(s)) != ""
  }

  lemma RunBack(enc: Encoding, condense: bool, a: string, s: string, b: string, y: string, acc: seq<Node>)
    requires Whole(enc, s) && Closed(s) && !Blank(s) && AllWhite(a) && AllWhite(b) && StartsTag(y)
    requires var kids := ReadValue(enc, condense, Some(a + (Encode(s) + (b + y))), acc).kids;
             |kids| > |acc| && kids[|acc|] == Text(s, false)
    ensures ReadAlone(enc, condense, a, s, b)
  {
    var e := Encode(s) + (b + y);
    RunParts(a, s, b, y);
    hide *;
    TextWasRead(enc, condense, a + e, acc, s);
    if condense {
      SkipWhiteRun(enc, a, e);
      ReadFromSkipped(enc, e);
      TextValue(enc, s, b, y);
      DenseAlone(enc, a, s, b);
    } else {
      KeptValue(enc, condense, a, s, b, true, "<", y[1..]);
      NothingAround(a, s, b, y);
      if SkipWhite(enc, Encode(s)) == "" {
        SkipWhiteAll(enc, Encode(s), y);
        SkipWhiteStays(enc, y);
      }
      KeptAlone(enc, a, s, b);
    }
  }

  lemma RunParts(a: string, s: string, b: string, y: string)
    requires StartsTag(y)
    ensures a + (Encode(s) + (b + y)) != "" && Encode(s) + (b + y) != "" && y == "<" + y[1..] && |y| > 1 && y[1..] != ""
    ensures y[0] == '<' && y[0] as int < 0x80 && !IsWhiteSpace(y[0])
  {
    hide Encode;
  }

  lemma NothingAround(a: string, s: string, b: string, y: string)
    ensures a == "" && b == "" ==> a + (Encode(s) + (b + y)) == Encode(s) + y
  {
    hide Encode;
  }

  lemma DenseAlone(enc: Encoding, a: string, s: string, b: string)
    requires !Blank(s) && NoReference(s) && Dense(enc, s)
    ensures ReadAlone(enc, true, a, s, b)
  {}

  lemma KeptAlone(enc: Encoding, a: string, s: string, b: string)
    requires NoReference(s) && a == "" && b == "" && SkipWhite(enc, Encode(s)) != ""
    ensures ReadAlone(enc, false, a, s, b)
  {}

  // ---- Children ----

  /** The layout in front of a child: in front of a text, a line break unless the text stands alone. */
  predicate Laid(condense: bool, st: Style, simple: bool, pre: string, kids: seq<Node>) {
    && Loose(condense, st, simple, pre) && (simple ==> pre == "")
    && (!simple && kids != [] && Plain(kids[0]) ==> pre == st.lineBreak)
  }

  predicate KidsFit(enc: Encoding, kids: seq<Node>) {
    && Apart(kids)
    && (forall k :: k in kids ==> Shaped(enc, k))
    && (forall k :: k in kids ==> Legible(enc, k))
  }

  predicate KidsSettled(enc: Encoding, condense: bool, st: Style, simple: bool, kids: seq<Node>) {
    forall k :: k in kids ==> Settled(enc, condense, st, simple, k)
  }

  lemma FirstKid(enc: Encoding, simple: bool, kids: seq<Node>)
    requires kids != [] && KidsFit(enc, kids) && (simple ==> Simple(kids))
    ensures Shaped(enc, kids[0]) && Legible(enc, kids[0]) && !LikeEndTag(kids[0]) && KidsFit(enc, kids[1..])
    ensures Plain(kids[0]) && kids[1..] != [] ==> !simple && Shaped(enc, kids[1..][0]) && !Plain(kids[1..][0])
    ensures simple ==> Plain(kids[0]) && kids[1..] == []
  {
    hide Shaped, Legible;
    assert forall i :: 0 <= i < |kids[1..]| ==> kids[1..][i] == kids[i + 1];
  }

  lemma SettledCons(enc: Encoding, condense: bool, st: Style, simple: bool, kids: seq<Node>)
    requires kids != [] && Settled(enc, condense, st, simple, kids[0])
    requires KidsSettled(enc, condense, st, simple, kids[1..])
    ensures KidsSettled(enc, condense, st, simple, kids)
  {
    hide Settled;
    assert kids == [kids[0]] + kids[1..];
  }

  /** Layout in front of a text is empty only where the printer adds none. */
  lemma MarginIsEmpty(st: Style, simple: bool, depth: int, pre: string)
    requires WhiteStyle(st) && depth > 0 && (!simple ==> pre == st.lineBreak) && (simple ==> pre == "")
    ensures pre + Margin(simple, Indent(st, depth)) == "" <==> simple || st == Style("", "")
  {
    IndentWhite(st, depth);
    assert Indent(st, depth) == Indent(st, depth - 1) + st.indent;
    assert |pre + Margin(simple, Indent(st, depth))| == |pre| + |Margin(simple, Indent(st, depth))|;
    hide Indent, AllWhite;
    assert |Indent(st, depth)| == |Indent(st, depth - 1)| + |st.indent|;
  }

  lemma TextFits(enc: Encoding, n: Node)
    requires Plain(n) && Shaped(enc, n) && Legible(enc, n)
    ensures n == Text(n.text, false) && Whole(enc, n.text) && Closed(n.text) && !Blank(n.text)
  {}

  lemma TextSettled(enc: Encoding, condense: bool, st: Style, simple: bool, a: string, s: string, b: string)
    requires ReadAlone(enc, condense, a, s, b) && (!condense && a == "" ==> simple || st == Style("", ""))
    ensures Steady(enc, condense, st, simple, s) && Settled(enc, condense, st, simple, Text(s, false))
  {}

  lemma TextRunOk(enc: Encoding, condense: bool, st: Style, simple: bool, s: string)
    requires Whole(enc, s) && !Blank(s) && Steady(enc, condense, st, simple, s)
    ensures RunOk(enc, condense, st, simple, s)
  {}

  lemma AllOk(enc: Encoding, condense: bool, st: Style, simple: bool, n: Node)
    requires Shaped(enc, n) && Legible(enc, n) && Settled(enc, condense, st, simple, n)
    ensures NodeOk(enc, condense, st, simple, n)
  {}

  lemma LaidNext(condense: bool, st: Style, simple: bool, kids: seq<Node>)
    requires WhiteStyle(st)
    ensures kids == [] || !Plain(kids[0]) ==> Laid(condense, st, simple, "", kids)
    ensures !simple ==> Laid(condense, st, simple, st.lineBreak, kids)
  {
    if !simple {
      LooseLayout(condense, st, simple, 0);
    }
  }

  lemma LaidIsLoose(condense: bool, st: Style, simple: bool, pre: string, kids: seq<Node>)
    requires Laid(condense, st, simple, pre, kids)
    ensures Loose(condense, st, simple, pre) && (simple ==> pre == "")
    ensures !simple && kids != [] && Plain(kids[0]) ==> pre == st.lineBreak
  {}

  lemma LooseIsWhite(condense: bool, st: Style, simple: bool, w: string)
    requires Loose(condense, st, simple, w)
    ensures AllWhite(w)
  {}

  lemma NextKid(acc: seq<Node>, kids: seq<Node>)
    requires kids != []
    ensures |acc + kids| > |acc| && (acc + kids)[|acc|] == kids[0] && acc + [kids[0]] + kids[1..] == acc + kids
  {}

  /** The node that is read at a tag is the next child. */
  lemma NodeWasRead(enc: Encoding, condense: bool, p: string, acc: seq<Node>)
    requires StartsTag(p) && p[1] != '/'
    ensures var kids := ReadValue(enc, condense, Some(p), acc).kids;
            |kids| > |acc| && kids[|acc|] == ParseNode(enc, condense, KindOf(p), p).node
  {
    SkipWhiteStays(enc, p);
    assert SkipWhiteSpace(enc, Some(p)) == Some(p);
    Differ(p, "</", false, 1);
    hide *;
    var n := ParseNode(enc, condense, KindOf(p), p);
    NodeStep(enc, condense, Some(p), acc);
    ReadValueGrows(enc, condense, n.rest, acc + [n.node]);
    At(acc, n.node, ReadValue(enc, condense, n.rest, acc + [n.node]).kids);
  }

  lemma NoKidsSettled(enc: Encoding, condense: bool, st: Style, simple: bool)
    ensures KidsSettled(enc, condense, st, simple, [])
  {}

  /** Printed children that come back in their order are settled, every one of them. */
  lemma {:induction false} KidsBack(enc: Encoding, condense: bool, st: Style, kids: seq<Node>, depth: int, simple: bool,
                                    pre: string, w: string, end: string, acc: seq<Node>)
    requires WhiteStyle(st) && depth > 0 && KidsFit(enc, kids) && (simple ==> Simple(kids) || kids == [])
    requires Laid(condense, st, simple, pre, kids) && Loose(condense, st, simple, w) && StartsEnd(end)
    requires ReadValue(enc, condense, Some(pre + (PrintKids(st, kids, depth, simple) + (w + end))), acc).kids ==
             acc + kids
    ensures KidsSettled(enc, condense, st, simple, kids)
    decreases kids, 0
  {
    hide *;
    if kids == [] {
      NoKidsSettled(enc, condense, st, simple);
    } else {
      var n, later, rest := kids[0], kids[1..], PrintKids(st, kids[1..], depth, simple) + (w + end);
      FirstKid(enc, simple, kids);
      LaidIsLoose(condense, st, simple, pre, kids);
      PrintKidsStep(st, kids, depth, simple, w + end);
      NonEmptySum(PrintKids(st, later, depth, simple), w, end);
      NextKid(acc, kids);
      LaidNext(condense, st, simple, later);
      if Plain(n) {
        TextFits(enc, n);
        var c, y := RestIsTag(enc, condense, st, simple, later, depth, w, end);
        var a, b := Margin(simple, Indent(st, depth)), Margin(simple, st.lineBreak);
        LooseMargins(condense, st, simple, depth);
        PrintRun(st, n.text, depth, simple, rest);
        LooseConcat(condense, st, simple, pre, a);
        LooseConcat(condense, st, simple, b, c);
        LooseIsWhite(condense, st, simple, pre + a);
        LooseIsWhite(condense, st, simple, b + c);
        Glue(pre, a, Encode(n.text) + (b + rest));
        Glue(b, c, y);
        RunBack(enc, condense, pre + a, n.text, b + c, y, acc);
        MarginIsEmpty(st, simple, depth, pre);
        AloneInFront(enc, condense, pre + a, n.text, b + c);
        TextSettled(enc, condense, st, simple, pre + a, n.text, b + c);
        TextRunOk(enc, condense, st, simple, n.text);
        LooseRun(enc, condense, st, simple, pre + a, n.text, b + c, y, acc);
        LooseValue(enc, condense, st, simple, c, y, acc + [n]);
        NothingBefore(condense, st, simple, rest);
        KidsBack(enc, condense, st, later, depth, simple, "", w, end, acc + [n]);
      } else {
        var i, core, b := Indent(st, depth), Core(st, n, depth), st.lineBreak;
        PrintIsCore(st, n, depth, simple);
        GlueNode(pre, i, core, b, rest);
        LooseLayout(condense, st, simple, depth);
        LooseConcat(condense, st, simple, pre, i);
        CoreIsTag(enc, st, n, depth, b + rest);
        LooseValue(enc, condense, st, simple, pre + i, core + (b + rest), acc);
        NodeWasRead(enc, condense, core + (b + rest), acc);
        NodeBack(enc, condense, st, n, depth, simple, b + rest);
        AllOk(enc, condense, st, simple, n);
        NodeIsRead(enc, condense, st, n, depth, simple, b + rest);
        NonEmptyTail(b, rest);
        NodeValue(enc, condense, core + (b + rest), acc, n, b + rest);
        KidsBack(enc, condense, st, later, depth, simple, b, w, end, acc + [n]);
      }
      SettledCons(enc, condense, st, simple, kids);
    }
  }

  lemma AloneInFront(enc: Encoding, condense: bool, a: string, s: string, b: string)
    requires ReadAlone(enc, condense, a, s, b)
    ensures !condense ==> a == ""
  {}

  lemma ElementFits(enc: Encoding, n: Node)
    requires n.Element? && Shaped(enc, n) && Legible(enc, n)
    ensures NameOk(enc, n.name) && AttrsShaped(enc, n.attrs) && ValuesFit(enc, n.attrs) && KidsFit(enc, n.kids)
    ensures ValuesSettled(n.attrs) ==> AttrsOk(enc, n.attrs)
    ensures !Plain(n)
  {
    hide NameOk, Whole, Closed, NoReference, Apart;
  }

  lemma ElementSettled(enc: Encoding, condense: bool, st: Style, simple: bool, n: Node)
    requires n.Element? && ValuesSettled(n.attrs) && KidsSettled(enc, condense, st, Simple(n.kids), n.kids)
    ensures Settled(enc, condense, st, simple, n)
  {
    hide NoReference;
  }

  /** The parts of an element as it is read. */
  lemma ElementRead(enc: Encoding, condense: bool, p: string, name: string, rest: string)
    requires p != "" && p[0] == '<' && ParseTagName(enc, p) == Some((name, rest)) && rest != ""
    ensures var n := ParseElement(enc, condense, p).node;
            var t := ParseAttributes(enc, condense, rest, []);
            && n.Element? && n.attrs == t.attrs
            && (t.OpenTag? ==> n.kids == ReadValue(enc, condense, Some(t.rest), []).kids)
  {
    hide SkipWhiteSpace, ParseTagName, ParseAttributes, ParseEndTag, ReadValue, PartialName;
    TagStays(enc, p);
  }

  /** What stands behind the attributes of a printed element. */
  function BehindAttrs(st: Style, n: Node, depth: int, tail: string): string
    requires n.Element?
  {
    if n.kids == [] then " />" + tail else ">" + Inner(st, n, depth, tail)
  }

  lemma ElementText(st: Style, n: Node, depth: int, tail: string)
    requires n.Element? && !Plain(n)
    ensures Core(st, n, depth) + tail == "<" + (n.name + (PrintAttrs(n.attrs) + BehindAttrs(st, n, depth, tail)))
    ensures var r := BehindAttrs(st, n, depth, tail); r != "" && r[0] in {' ', '>'}
  {
    hide *;
    var a := PrintAttrs(n.attrs);
    if n.kids == [] {
      EmptyTexts(st, n, depth);
      EmptyBehind(st, n, depth, tail);
      Glue("<", n.name + (a + " />"), tail);
      Glue(n.name, a + " />", tail);
      Glue(a, " />", tail);
    } else {
      OpenTexts(st, n, depth);
      OpenBehind(st, n, depth, tail);
      InnerIs(st, n, depth, tail);
      GlueInner(n.name, a, Gap(st, n.kids), PrintKids(st, n.kids, depth + 1, Simple(n.kids)), EndGap(st, n.kids, depth),
                "</" + (n.name + ">"), tail);
    }
  }

  lemma EmptyBehind(st: Style, n: Node, depth: int, tail: string)
    requires n.Element? && n.kids == []
    ensures var r := BehindAttrs(st, n, depth, tail); r == " />" + tail && r[0] == ' '
  {}

  lemma OpenBehind(st: Style, n: Node, depth: int, tail: string)
    requires n.Element? && n.kids != []
    ensures var r := BehindAttrs(st, n, depth, tail); r == ">" + Inner(st, n, depth, tail) && r[0] == '>'
  {}

  lemma GapIsLaid(condense: bool, st: Style, kids: seq<Node>)
    requires WhiteStyle(st)
    ensures Laid(condense, st, Simple(kids), Gap(st, kids), kids)
  {
    if !Simple(kids) {
      LooseLayout(condense, st, false, 0);
    }
  }

  /** A printed element that comes back is settled. */
  lemma {:induction false} ElementBack(enc: Encoding, condense: bool, st: Style, n: Node, depth: int, simple: bool,
                                       tail: string)
    requires WhiteStyle(st) && depth >= 0 && n.Element? && Shaped(enc, n) && Legible(enc, n)
    requires !Plain(n) && ParseElement(enc, condense, Core(st, n, depth) + tail).node == n
    ensures Settled(enc, condense, st, simple, n)
    decreases n, 1
  {
    hide *;
    var p, body := Core(st, n, depth) + tail, BehindAttrs(st, n, depth, tail);
    var rest := PrintAttrs(n.attrs) + body;
    ElementFits(enc, n);
    ElementText(st, n, depth, tail);
    AttrsStart(n.attrs, body);
    TagNameIsRead(enc, n.name, rest);
    ElementRead(enc, condense, p, n.name, rest);
    assert [] + n.attrs == n.attrs && [] + n.kids == n.kids;
    AttrsBack(enc, condense, n.attrs, [], body);
    if n.kids == [] {
      NoKidsSettled(enc, condense, st, Simple(n.kids));
    } else {
      var inner, end := Inner(st, n, depth, tail), "</" + (n.name + ">") + tail;
      OpenBehind(st, n, depth, tail);
      AttrsAreRead(enc, condense, n.attrs, [], body);
      OpenTagStep(enc, condense, n.attrs, inner);
      AttributesStop(enc, condense, body, n.attrs);
      GapIsLaid(condense, st, n.kids);
      GapsAreLoose(condense, st, n.kids, depth);
      EndStarts(n.name, tail);
      InnerIs(st, n, depth, tail);
      KidsBack(enc, condense, st, n.kids, depth + 1, Simple(n.kids), Gap(st, n.kids), EndGap(st, n.kids, depth), end,
               []);
    }
    ElementSettled(enc, condense, st, simple, n);
  }

  lemma LeafSettled(enc: Encoding, condense: bool, st: Style, simple: bool, n: Node)
    requires !n.Element? && !Plain(n)
    ensures Settled(enc, condense, st, simple, n)
  {}

  /** A printed node that comes back is settled, whatever follows it. */
  lemma {:induction false} NodeBack(enc: Encoding, condense: bool, st: Style, n: Node, depth: int, simple: bool,
                                    tail: string)
    requires WhiteStyle(st) && depth >= 0 && !Plain(n) && Shaped(enc, n) && Legible(enc, n)
    requires var p := Core(st, n, depth) + tail; ParseNode(enc, condense, KindOf(p), p).node == n
    ensures Settled(enc, condense, st, simple, n)
    decreases n, 2
  {
    hide *;
    if n.Element? {
      ElementFits(enc, n);
      ElementStarts(enc, condense, st, n, depth, tail);
      NodeByKind(enc, condense, Core(st, n, depth) + tail);
      ElementBack(enc, condense, st, n, depth, simple, tail);
    } else {
      LeafSettled(enc, condense, st, simple, n);
    }
  }
}
