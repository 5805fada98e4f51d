// Broken documents: where a tag breaks off, at any depth and behind any nodes,
// which error is recorded and what has been built until then.
module XmlErrors {
  import opened Letters
  import opened Options
  import opened XmlText
  import opened XmlParser
  import opened XmlPrinter
  import opened XmlCodec
  import opened XmlRoundTrip
  import opened XmlLayout

  // ---- Start tags that break off ----

  /** What stands behind the attributes and the gap of a start tag instead of its end. */
  datatype Flaw =
    | NoTagEnd
    | LoneSlash(rest: string)
    | NoName(rest: string)
    | NoEquals(name: string, gap: string, rest: string)
    | Twice(attr: Attr, lay: AttrLayout, rest: string)
    | OpenQuote(name: string, left: string, right: string, quote: char, rest: string)
    | InnerQuote(name: string, left: string, right: string, value: string, quote: char, rest: string)

  /** The text goes on with none of the characters in `no`, nor with a gap. */
  predicate GoesOn(p: string, no: string) {
    p != "" && p[0] as int < 0x80 && !IsGap(p[0]) && p[0] !in no
  }

  predicate FlawOk(enc: Encoding, attrs: seq<Attr>, f: Flaw) {
    match f
    case NoTagEnd => true
    case LoneSlash(rest) => rest == "" || rest[0] != '>'
    case NoName(rest) => GoesOn(rest, "/>") && !BeginsName(rest[0])
    case NoEquals(name, gap, rest) =>
      && GoodName(enc, name) && AllGap(gap)
      && (rest == "" || (GoesOn(rest, "=") && (gap == "" ==> !GoesOnInName(rest[0]))))
    case Twice(a, lay, rest) =>
      && GoodName(enc, a.name) && Whole(enc, a.value) && NoReference(a.value) && AttrLayoutOk(a, lay) && TagRest(rest)
      && exists i :: 0 <= i < |attrs| && attrs[i].name == a.name
    case OpenQuote(name, left, right, quote, rest) =>
      GoodName(enc, name) && AllGap(left) && AllGap(right) && quote in {'\"', '\''} && quote !in rest
    case InnerQuote(name, left, right, value, quote, rest) =>
      GoodName(enc, name) && AllGap(left) && AllGap(right) && BareOk(value) && quote in {'\"', '\''}
  }

  function WriteFlaw(f: Flaw): string {
    match f
    case NoTagEnd => ""
    case LoneSlash(rest) => "/" + rest
    case NoName(rest) => rest
    case NoEquals(name, gap, rest) => name + (gap + rest)
    case Twice(a, lay, rest) => WriteAttr(a, lay) + rest
    case OpenQuote(name, left, right, quote, rest) => name + (left + ("=" + (right + ([quote] + rest))))
    case InnerQuote(name, left, right, value, quote, rest) =>
      name + (left + ("=" + (right + (value + ([quote] + rest)))))
  }

  function FlawError(f: Flaw): Error {
    match f
    case NoTagEnd => ReadingAttributes
    case LoneSlash(_) => ParsingEmpty
    case NoName(_) => ReadingAttributes
    case NoEquals(_, _, _) => ReadingAttributes
    case Twice(_, _, _) => ParsingElement
    case OpenQuote(_, _, _, _, _) => ParsingElement
    case InnerQuote(_, _, _, _, _, _) => ReadingAttributes
  }

  lemma LetterEndsNoTag(c: char)
    requires BeginsName(c)
    ensures c != '/' && c != '>'
  {
    NameCharacters(c);
    hide BeginsName, GoesOnInName, IsNameChar;
  }

  lemma NameSkipped(enc: Encoding, name: string, rest: string)
    requires GoodName(enc, name) && (rest != "" ==> !IsNameChar(rest[0]) && rest[0] as int < 0x80)
    ensures SkipWhite(enc, name + rest) == name + rest && NameLength(Some(name + rest)) == Some(|name|)
  {
    GoodNameOk(enc, name);
    if rest != "" {
      NameIsRead(enc, name, rest);
    } else {
      NameAlone(enc, name);
      assert name + rest == name;
    }
  }

  lemma NameAlone(enc: Encoding, name: string)
    requires NameOk(enc, name)
    ensures SkipWhite(enc, name) == name && NameLength(Some(name)) == Some(|name|)
  {
    assert !IsWhiteSpace(name[0]);
  }

  /** A step at a character that neither ends the tag nor starts a good attribute. */
  lemma BadAttribute(enc: Encoding, w: string, q: string, attrs: seq<Attr>, r: AttrResult)
    requires AllGap(w) && q != "" && SkipWhite(enc, q) == q && q[0] != '/' && q[0] != '>'
    requires ParseAttribute(enc, true, Some(q)) == r
    requires r.rest.None? || (r.rest.value != "" && r.attr.name in AttrNames(attrs) && r.err == NoError)
    ensures w + q != ""
    ensures AttributeStep(enc, true, w + q, attrs) == Stop(BadTag(attrs, First(r.err, ParsingElement)))
  {
    GapIsAllWhite(w);
    SkipWhiteRun(enc, w, q);
    hide SkipWhite, ParseAttribute, AttrNames, First, AllGap;
  }

  lemma NoNameStops(enc: Encoding, rest: string)
    requires GoesOn(rest, "/>") && !BeginsName(rest[0])
    ensures SkipWhite(enc, rest) == rest
    ensures ParseAttribute(enc, true, Some(rest)) == AttrResult(Attr("", ""), None, ReadingAttributes)
  {
    GapsSkipped(enc, "", rest);
    assert "" + rest == rest;
    NameCharacters(rest[0]);
    hide SkipWhite, BeginsName, IsNameStart, ParseAfterName;
  }

  lemma NoEqualsAfter(enc: Encoding, name: string, gap: string, rest: string)
    requires AllGap(gap) && (rest == "" || GoesOn(rest, "="))
    ensures ParseAfterName(enc, true, name, gap + rest) == AttrResult(Attr(name, ""), None, ReadingAttributes)
  {
    hide SkipWhite, ParseAttrValue, AllGap, IsGap;
    if rest == "" {
      GapIsAllWhite(gap);
      SkipWhiteRun(enc, gap, "");
      NothingSkipped(enc);
    } else {
      GapsSkipped(enc, gap, rest);
    }
  }

  lemma NothingSkipped(enc: Encoding)
    ensures SkipWhite(enc, "") == ""
  {}

  lemma GapFirst(gap: string, rest: string)
    requires AllGap(gap) && (rest == "" || (GoesOn(rest, "=") && (gap == "" ==> !GoesOnInName(rest[0]))))
    ensures var p := gap + rest; p != "" ==> !IsNameChar(p[0]) && p[0] as int < 0x80
  {
    if gap != "" {
      assert IsGap(gap[0]);
    } else if rest != "" {
      NameCharacters(rest[0]);
    }
  }

  lemma NoEqualsStops(enc: Encoding, name: string, gap: string, rest: string)
    requires GoodName(enc, name) && AllGap(gap)
    requires rest == "" || (GoesOn(rest, "=") && (gap == "" ==> !GoesOnInName(rest[0])))
    ensures var q := name + (gap + rest);
            SkipWhite(enc, q) == q &&
            ParseAttribute(enc, true, Some(q)) == AttrResult(Attr(name, ""), None, ReadingAttributes)
  {
    hide *;
    var after := gap + rest;
    GapFirst(gap, rest);
    NameSkipped(enc, name, after);
    GoodNameOk(enc, name);
    if after != "" {
      AttrStep(enc, true, name, after);
      NoEqualsAfter(enc, name, gap, rest);
    } else {
      NameEndsText(enc, name);
    }
  }

  lemma NameEndsText(enc: Encoding, name: string)
    requires NameOk(enc, name)
    ensures ParseAttribute(enc, true, Some(name + "")) == AttrResult(Attr(name, ""), None, ReadingAttributes)
  {
    assert name + "" == name && name != "";
    NameAlone(enc, name);
    hide SkipWhite, ParseAfterName, NameLength, NameOk;
  }

  /** Without its end mark the keeping loop runs to the end of the text, or stops at a broken reference. */
  lemma {:induction false} KeepRunsOut(enc: Encoding, p: Ptr, quote: char, acc: string)
    requires p.None? || quote !in p.value
    ensures PastEnd(ReadKeep(enc, p, [quote], acc).rest, [quote]).None?
    decreases if p.Some? then |p.value| else 0
  {
    if p.Some? && p.value != "" {
      var c := GetChar(enc, p.value);
      assert !StringEqual(p.value, [quote], false);
      if c.rest.Some? {
        assert Suffix(c.rest.value, p.value);
        KeepRunsOut(enc, c.rest, quote, acc + c.out);
      }
    }
  }

  lemma OpenQuoteValue(enc: Encoding, name: string, quote: char, rest: string)
    requires quote in {'\"', '\''} && quote !in rest
    ensures var r := ParseAttrValue(enc, true, name, [quote] + rest); r.rest.None? && r.err == NoError
  {
    KeepRunsOut(enc, Some(rest), quote, "");
    AttrValueStep(enc, true, name, quote, rest);
    hide ReadKeep, ParseAttrValue;
  }

  lemma {:induction false} BareToQuote(v: string, quote: char, rest: string)
    requires forall i :: 0 <= i < |v| ==> !IsGap(v[i]) && v[i] !in {'/', '>', '\"', '\''}
    requires quote in {'\"', '\''}
    ensures BareLength(v + ([quote] + rest)) == |v|
  {
    var p := v + ([quote] + rest);
    if v == "" {
      assert p[0] == quote;
    } else {
      GapIsWhite(v[0]);
      assert p[1..] == v[1..] + ([quote] + rest);
      BareToQuote(v[1..], quote, rest);
    }
  }

  lemma InnerQuoteValue(enc: Encoding, name: string, v: string, quote: char, rest: string)
    requires BareOk(v) && quote in {'\"', '\''}
    ensures var p := v + ([quote] + rest);
            && p != "" && p[0] as int < 0x80 && !IsGap(p[0])
            && ParseAttrValue(enc, true, name, p) == AttrResult(Attr(name, v), None, ReadingAttributes)
  {
    BareToQuote(v, quote, rest);
    var p := v + ([quote] + rest);
    assert p[0] == v[0] && p[|v|] == quote && p[..|v|] == v;
    hide IsGap, BareLength, ReadText;
  }

  /** An attribute with a bad value. */
  lemma ValueStops(enc: Encoding, name: string, left: string, right: string, value: string)
    requires GoodName(enc, name) && AllGap(left) && AllGap(right)
    requires value != "" && value[0] as int < 0x80 && !IsGap(value[0])
    ensures var q := name + (left + ("=" + (right + value)));
            SkipWhite(enc, q) == q && q != "" && q[0] != '/' && q[0] != '>' &&
            ParseAttribute(enc, true, Some(q)) == ParseAttrValue(enc, true, name, value)
  {
    hide *;
    var after := left + ("=" + (right + value));
    GoodNameOk(enc, name);
    EqualsBehind(left, right + value);
    NameIsRead(enc, name, after);
    AttrStep(enc, true, name, after);
    AfterNameGaps(enc, true, name, left, right, value);
    NameAhead(enc, name, after);
  }

  lemma NameAhead(enc: Encoding, name: string, rest: string)
    requires GoodName(enc, name)
    ensures var q := name + rest; q != "" && q[0] != '/' && q[0] != '>'
  {
    LetterEndsNoTag(name[0]);
  }

  lemma QuoteAhead(quote: char, rest: string)
    requires quote in {'\"', '\''}
    ensures var p := [quote] + rest; p != "" && p[0] as int < 0x80 && !IsGap(p[0])
  {}

  lemma NameTaken(attrs: seq<Attr>, name: string)
    requires exists i :: 0 <= i < |attrs| && attrs[i].name == name
    ensures name in AttrNames(attrs)
  {
    var i :| 0 <= i < |attrs| && attrs[i].name == name;
    assert attrs[i] in attrs;
  }

  lemma TwiceStops(enc: Encoding, a: Attr, lay: AttrLayout, rest: string)
    requires GoodName(enc, a.name) && Whole(enc, a.value) && NoReference(a.value) && AttrLayoutOk(a, lay)
    requires TagRest(rest)
    ensures var q := WriteAttr(a, lay) + rest;
            SkipWhite(enc, q) == q && q != "" && q[0] != '/' && q[0] != '>' && rest != "" &&
            ParseAttribute(enc, true, Some(q)) == AttrResult(a, Some(rest), NoError)
  {
    GoodNameOk(enc, a.name);
    hide *;
    AttrWritten(enc, true, a, lay, rest);
    RestIsSome(rest);
    NameStartIsNoMark((WriteAttr(a, lay) + rest)[0]);
  }

  lemma NoTagEndStops(enc: Encoding, w: string, attrs: seq<Attr>)
    requires AllGap(w) && w != ""
    ensures AttributeStep(enc, true, w, attrs) == Stop(BadTag(attrs, ReadingAttributes))
  {
    assert w + "" == w;
    hide *;
    GapIsAllWhite(w);
    SkipWhiteRun(enc, w, "");
    NothingSkipped(enc);
    TextEndsTag(enc, w, attrs);
  }

  lemma TextEndsTag(enc: Encoding, w: string, attrs: seq<Attr>)
    requires w != "" && SkipWhite(enc, w) == ""
    ensures AttributeStep(enc, true, w, attrs) == Stop(BadTag(attrs, ReadingAttributes))
  {
    hide SkipWhite, ParseAttribute, AttrNames, First;
  }

  lemma LoneSlashStops(enc: Encoding, w: string, rest: string, attrs: seq<Attr>)
    requires AllGap(w) && (rest == "" || rest[0] != '>')
    ensures w + ("/" + rest) != ""
    ensures AttributeStep(enc, true, w + ("/" + rest), attrs) == Stop(BadTag(attrs, ParsingEmpty))
  {
    var q := "/" + rest;
    GapsSkipped(enc, w, q);
    hide SkipWhite, SkipWhiteSpace, ParseAttribute, AttrNames, AllGap;
    assert |q| > 1 ==> q[1] == rest[0];
  }

  /** A flaw ends the attribute loop with its error. */
  lemma FlawStops(enc: Encoding, w: string, f: Flaw, attrs: seq<Attr>)
    requires AllGap(w) && w != "" && FlawOk(enc, attrs, f)
    ensures w + WriteFlaw(f) != ""
    ensures AttributeStep(enc, true, w + WriteFlaw(f), attrs) == Stop(BadTag(attrs, FlawError(f)))
  {
    hide AttributeStep, SkipWhite, ParseAttribute, ParseAttrValue, GoodName, AllGap, BareOk, AttrLayoutOk, WriteAttr,
         TagRest, Whole, NoReference, AttrNames, BeginsName, GoesOnInName, IsGap;
    match f {
      case NoTagEnd =>
        assert w + "" == w;
        NoTagEndStops(enc, w, attrs);
      case LoneSlash(rest) =>
        LoneSlashStops(enc, w, rest, attrs);
      case NoName(rest) =>
        NoNameStops(enc, rest);
        BadAttribute(enc, w, rest, attrs, AttrResult(Attr("", ""), None, ReadingAttributes));
      case NoEquals(name, gap, rest) =>
        NoEqualsStops(enc, name, gap, rest);
        NameAhead(enc, name, gap + rest);
        BadAttribute(enc, w, name + (gap + rest), attrs, AttrResult(Attr(name, ""), None, ReadingAttributes));
      case Twice(a, lay, rest) =>
        TwiceStops(enc, a, lay, rest);
        NameTaken(attrs, a.name);
        BadAttribute(enc, w, WriteAttr(a, lay) + rest, attrs, AttrResult(a, Some(rest), NoError));
      case OpenQuote(name, left, right, quote, rest) =>
        QuoteAhead(quote, rest);
        ValueStops(enc, name, left, right, [quote] + rest);
        OpenQuoteValue(enc, name, quote, rest);
        BadAttribute(enc, w, WriteFlaw(f), attrs, ParseAttrValue(enc, true, name, [quote] + rest));
      case InnerQuote(name, left, right, value, quote, rest) =>
        InnerQuoteValue(enc, name, value, quote, rest);
        ValueStops(enc, name, left, right, value + ([quote] + rest));
        BadAttribute(enc, w, WriteFlaw(f), attrs, AttrResult(Attr(name, value), None, ReadingAttributes));
    }
  }

  // ---- Elements that break off ----

  /** A start tag and what has been read of its content. */
  datatype Open = Open(name: string, attrs: seq<Attr>, lays: seq<AttrLayout>, close: string, kids: seq<Node>,
                       gaps: seq<string>, layouts: seq<Layout>)

  /** What stands behind the content of an element instead of its end tag. */
  datatype Ending =
    | NoEnd
    | LastChild(last: Node, lay: Layout)
    | OtherEnd(rest: string)
    | UnclosedEnd(gap: string, rest: string)

  /** An element that breaks off in its name, in its start tag, or behind its content. */
  datatype Break =
    | InName(tag: string)
    | InTag(name: string, attrs: seq<Attr>, lays: seq<AttrLayout>, gap: string, flaw: Flaw)
    | InContent(open: Open, ending: Ending)

  predicate OpenOk(enc: Encoding, o: Open) {
    && GoodName(enc, o.name) && AttrsOk(enc, o.attrs)
    && |o.lays| == |o.attrs| && (forall i :: 0 <= i < |o.attrs| ==> AttrLayoutOk(o.attrs[i], o.lays[i]))
    && AllGap(o.close) && Apart(o.kids) && (forall k :: k in o.kids ==> Fit(enc, k))
    && KidsLaidOut(enc, o.kids, o.gaps, o.layouts)
  }

  predicate EndingOk(enc: Encoding, o: Open, e: Ending) {
    match e
    case NoEnd => o.kids == []
    case LastChild(n, lay) => n.Element? && Fit(enc, n) && LayoutOk(enc, n, lay)
    case OtherEnd(rest) => !(o.name <= rest)
    case UnclosedEnd(gap, rest) => AllGap(gap) && (rest == "" || GoesOn(rest, ">"))
  }

  predicate BreakOk(enc: Encoding, b: Break) {
    match b
    case InName(tag) => GoodName(enc, tag)
    case InTag(name, attrs, lays, gap, flaw) =>
      && GoodName(enc, name) && AttrsOk(enc, attrs)
      && |lays| == |attrs| && (forall i :: 0 <= i < |attrs| ==> AttrLayoutOk(attrs[i], lays[i]))
      && AllGap(gap) && gap != "" && FlawOk(enc, attrs, flaw)
    case InContent(o, e) => OpenOk(enc, o) && EndingOk(enc, o, e)
  }

  function WriteOpen(enc: Encoding, o: Open): string
    requires OpenOk(enc, o)
  {
    "<" + (o.name + (WriteAttrs(o.attrs, o.lays) + (o.close + (">" + WriteNodes(enc, o.kids, o.gaps, o.layouts)))))
  }

  function WriteEnding(enc: Encoding, o: Open, e: Ending): string
    requires EndingOk(enc, o, e)
  {
    match e
    case NoEnd => ""
    case LastChild(n, lay) => Write(enc, n, lay)
    case OtherEnd(rest) => "</" + rest
    case UnclosedEnd(gap, rest) => "</" + (o.name + (gap + rest))
  }

  function WriteBreak(enc: Encoding, b: Break): string
    requires BreakOk(enc, b)
  {
    match b
    case InName(tag) => "<" + tag
    case InTag(name, attrs, lays, gap, flaw) => "<" + (name + (WriteAttrs(attrs, lays) + (gap + WriteFlaw(flaw))))
    case InContent(o, e) => WriteOpen(enc, o) + WriteEnding(enc, o, e)
  }

  /** What has been built of an element that breaks off. */
  function BrokenNode(b: Break): Node {
    match b
    case InName(tag) => Element(tag, [], [])
    case InTag(name, attrs, _, _, _) => Element(name, attrs, [])
    case InContent(o, e) => Element(o.name, o.attrs, if e.LastChild? then o.kids + [e.last] else o.kids)
  }

  function BreakError(b: Break): Error {
    match b
    case InName(_) => FailedToReadElementName
    case InTag(_, _, _, _, flaw) => FlawError(flaw)
    case InContent(o, e) =>
      match e
      case NoEnd => if o.gaps == [""] then ReadingElementValue else ReadingEndTag
      case LastChild(_, _) => ReadingElementValue
      case OtherEnd(_) => ReadingEndTag
      case UnclosedEnd(_, _) => ReadingEndTag
  }

  lemma ElementUnnamed(enc: Encoding, tag: string)
    requires GoodName(enc, tag)
    ensures ParseElement(enc, true, "<" + tag) == Parsed(Element(tag, [], []), None, FailedToReadElementName)
  {
    hide *;
    TagUnnamed(enc, tag);
    StartsLess(tag);
    TagStays(enc, "<" + tag);
    ElementNone(enc, "<" + tag, tag);
  }

  lemma TagUnnamed(enc: Encoding, tag: string)
    requires GoodName(enc, tag)
    ensures ParseTagName(enc, "<" + tag) == None && PartialName(enc, "<" + tag) == tag
  {
    GoodNameOk(enc, tag);
    NameAlone(enc, tag);
    var p := "<" + tag;
    assert p[1..] == tag && tag[..|tag|] == tag && tag != "";
    hide SkipWhite, NameLength, GoodName;
  }

  lemma ElementNone(enc: Encoding, p: string, tag: string)
    requires p != "" && p[0] == '<' && SkipWhiteSpace(enc, Some(p)) == Some(p)
    requires ParseTagName(enc, p) == None && PartialName(enc, p) == tag
    ensures ParseElement(enc, true, p) == Parsed(Element(tag, [], []), None, FailedToReadElementName)
  {
    hide SkipWhiteSpace, ParseTagName, ParseAttributes, ParseEndTag, ReadValue, PartialName;
  }

  lemma ElementBad(enc: Encoding, p: string, name: string, rest: string, attrs: seq<Attr>, err: Error)
    requires p != "" && p[0] == '<' && ParseTagName(enc, p) == Some((name, rest))
    requires rest != "" && ParseAttributes(enc, true, rest, []) == BadTag(attrs, err)
    ensures ParseElement(enc, true, p) == Parsed(Element(name, attrs, []), None, err)
  {
    hide SkipWhiteSpace, ParseTagName, ParseAttributes, ParseEndTag, ReadValue, PartialName;
    TagStays(enc, p);
  }

  lemma GapIsRest(gap: string, rest: string)
    requires AllGap(gap) && gap != ""
    ensures TagRest(gap + rest)
  {
    assert IsGap(gap[0]);
  }

  lemma InTagIsRead(enc: Encoding, name: string, attrs: seq<Attr>, lays: seq<AttrLayout>, gap: string, flaw: Flaw)
    requires BreakOk(enc, InTag(name, attrs, lays, gap, flaw))
    ensures ParseElement(enc, true, "<" + (name + (WriteAttrs(attrs, lays) + (gap + WriteFlaw(flaw))))) ==
            Parsed(Element(name, attrs, []), None, FlawError(flaw))
  {
    assert [] + attrs == attrs;
    GoodNameOk(enc, name);
    hide *;
    InTagParts(enc, name, attrs, lays, gap, flaw);
    var c := gap + WriteFlaw(flaw);
    var rest := WriteAttrs(attrs, lays) + c;
    GapIsRest(gap, WriteFlaw(flaw));
    AttrsRest(attrs, lays, c);
    RestIsSome(rest);
    NameWritten(enc, name, rest);
    AttrsWritten(enc, true, attrs, lays, [], c);
    FlawStops(enc, gap, flaw, attrs);
    AttributesStop(enc, true, c, attrs);
    StartsLess(name + rest);
    ElementBad(enc, "<" + (name + rest), name, rest, attrs, FlawError(flaw));
  }

  lemma InTagParts(enc: Encoding, name: string, attrs: seq<Attr>, lays: seq<AttrLayout>, gap: string, flaw: Flaw)
    requires BreakOk(enc, InTag(name, attrs, lays, gap, flaw))
    ensures AttrsOk(enc, attrs) && |lays| == |attrs| && AllGap(gap) && gap != "" && FlawOk(enc, attrs, flaw)
    ensures forall i :: 0 <= i < |attrs| ==> AttrLayoutOk(attrs[i], lays[i])
    ensures NameOk(enc, name) && GoodName(enc, name)
  {
    GoodNameOk(enc, name);
    hide AttrsOk, FlawOk, AttrLayoutOk, AllGap, GoodName;
  }

  // ---- Content that breaks off ----

  lemma NothingToRead(enc: Encoding, rest: Ptr, acc: seq<Node>)
    requires rest.None? || rest.value == ""
    ensures ReadValue(enc, true, rest, acc) == Content(acc, None, ReadingElementValue)
  {
    hide SkipWhite, ParseNode, KindOf, StringEqual, ParseRun, Blank, NextValue;
  }

  lemma GapToRead(enc: Encoding, gap: string, acc: seq<Node>)
    requires gap != "" && SkipWhite(enc, gap) == ""
    ensures ReadValue(enc, true, Some(gap), acc) == Content(acc, Some(""), NoError)
  {
    hide SkipWhite, ParseNode, KindOf, StringEqual, ParseRun, Blank, NextValue;
  }

  /** One pass over a node, from its tag on. */
  lemma ValueStep(enc: Encoding, p: string, acc: seq<Node>, n: Node, rest: Ptr, err: Error)
    requires p != "" && SkipWhite(enc, p) == p && p[0] == '<' && !StringEqual(p, "</", false)
    requires ParseNode(enc, true, KindOf(p), p) == Parsed(n, rest, err) && Behind(rest, p)
    ensures ReadValue(enc, true, Some(p), acc) == NextValue(enc, true, p, Parsed(n, rest, err), acc + [n])
  {
    hide SkipWhite, ParseRun, ParseNode, Blank, StringEqual, KindOf, NextValue, Behind;
  }

  lemma StepThenNothing(enc: Encoding, p: string, acc: seq<Node>, n: Node, rest: Ptr, err: Error)
    requires p != "" && Behind(rest, p) && (rest.None? || rest.value == "")
    ensures NextValue(enc, true, p, Parsed(n, rest, err), acc) == Content(acc, None, First(err, ReadingElementValue))
  {
    NothingToRead(enc, rest, acc);
    hide ReadValue;
  }

  lemma NoEndTag(p: string)
    requires StartsTag(p) && p[1] != '/'
    ensures !StringEqual(p, "</", false)
  {}

  lemma EndIsBehind(p: string, rest: Ptr)
    requires p != "" && (rest.None? || rest.value == "")
    ensures Behind(rest, p)
  {}

  /** A node behind which reading cannot go on is the last child. */
  lemma ValueFails(enc: Encoding, p: string, acc: seq<Node>, n: Node, rest: Ptr, err: Error)
    requires StartsTag(p) && p[1] != '/' && ParseNode(enc, true, KindOf(p), p) == Parsed(n, rest, err)
    requires rest.None? || rest.value == ""
    ensures ReadValue(enc, true, Some(p), acc) == Content(acc + [n], None, First(err, ReadingElementValue))
  {
    assert p != "" && p[0] == '<';
    hide *;
    SkipWhiteStays(enc, p);
    NoEndTag(p);
    EndIsBehind(p, rest);
    ValueStep(enc, p, acc, n, rest, err);
    StepThenNothing(enc, p, acc + [n], n, rest, err);
  }

  lemma NoContent(enc: Encoding, gap: string)
    requires AllGap(gap)
    ensures ReadValue(enc, true, Some(gap), []) ==
            if gap == "" then Content([], None, ReadingElementValue) else Content([], Some(""), NoError)
  {
    assert gap + "" == gap;
    hide *;
    GapIsAllWhite(gap);
    SkipWhiteRun(enc, gap, "");
    NothingSkipped(enc);
    if gap == "" {
      NothingToRead(enc, Some(gap), []);
    } else {
      GapToRead(enc, gap, []);
    }
  }

  lemma EndTagMissing(enc: Encoding, e: Node, p: Ptr, err: Error)
    requires e.Element? && (p.None? || p.value == "")
    ensures ParseEndTag(enc, e, p, err) == Parsed(e, None, First(err, ReadingEndTag))
  {}

  lemma OtherEndTag(enc: Encoding, e: Node, rest: string)
    requires e.Element? && !(e.name <= rest)
    ensures ParseEndTag(enc, e, Some("</" + rest), NoError) == Parsed(e, None, ReadingEndTag)
  {
    EndMark(e.name, rest);
    hide StringEqual, SkipWhiteSpace;
  }

  lemma EndMark(name: string, rest: string)
    ensures StringEqual("</" + rest, "</" + name, false) ==> name <= rest
  {
    var p, mark := "</" + rest, "</" + name;
    if StringEqual(p, mark, false) {
      forall i | 0 <= i < |name|
        ensures i < |rest| && rest[i] == name[i]
      {
        assert p[i + 2] == mark[i + 2];
      }
    }
  }

  lemma UnclosedEndTag(enc: Encoding, e: Node, gap: string, rest: string)
    requires e.Element? && AllGap(gap) && (rest == "" || GoesOn(rest, ">"))
    ensures ParseEndTag(enc, e, Some("</" + (e.name + (gap + rest))), NoError) == Parsed(e, None, ReadingEndTag)
  {
    var mark := "</" + e.name;
    assert "</" + (e.name + (gap + rest)) == mark + (gap + rest);
    MarkAhead(mark, gap + rest);
    if rest == "" {
      GapIsAllWhite(gap);
      SkipWhiteRun(enc, gap, "");
      NothingSkipped(enc);
    } else {
      GapsSkipped(enc, gap, rest);
    }
    hide StringEqual, SkipWhite, AllGap;
  }

  lemma OpenParts(enc: Encoding, o: Open)
    requires OpenOk(enc, o)
    ensures NameOk(enc, o.name) && AttrsOk(enc, o.attrs) && |o.lays| == |o.attrs|
    ensures forall i :: 0 <= i < |o.attrs| ==> AttrLayoutOk(o.attrs[i], o.lays[i])
    ensures AllGap(o.close) && Apart(o.kids) && forall k :: k in o.kids ==> Fit(enc, k)
    ensures KidsLaidOut(enc, o.kids, o.gaps, o.layouts)
    ensures |o.gaps| == |o.kids| + 1 && |o.layouts| == |o.kids|
    ensures forall i :: 0 <= i < |o.kids| ==> LayoutOk(enc, o.kids[i], o.layouts[i])
  {
    GoodNameOk(enc, o.name);
    hide GoodName, AttrsOk, AttrLayoutOk, AllGap, Apart, Fit, LayoutOk;
  }

  lemma GlueOpen(enc: Encoding, o: Open, more: string)
    requires OpenOk(enc, o)
    requires |o.gaps| == |o.kids| + 1 && |o.layouts| == |o.kids| && |o.lays| == |o.attrs|
    requires forall i :: 0 <= i < |o.kids| ==> LayoutOk(enc, o.kids[i], o.layouts[i])
    ensures WriteOpen(enc, o) + more ==
            "<" + (o.name + (WriteAttrs(o.attrs, o.lays) + (o.close +
              (">" + (WriteNodes(enc, o.kids, o.gaps, o.layouts) + more)))))
  {
    var a, k := WriteAttrs(o.attrs, o.lays), WriteNodes(enc, o.kids, o.gaps, o.layouts);
    assert WriteOpen(enc, o) == "<" + (o.name + (a + (o.close + (">" + k)))) by {
      hide WriteAttrs, WriteNodes, OpenOk, LayoutOk;
    }
    hide *;
    Glue("<", o.name + (a + (o.close + (">" + k))), more);
    Glue(o.name, a + (o.close + (">" + k)), more);
    Glue(a, o.close + (">" + k), more);
    Glue(o.close, ">" + k, more);
    Glue(">", k, more);
  }

  /** An open tag is read, and then its content up to an end tag. */
  lemma OpenIsRead(enc: Encoding, o: Open, more: string)
    requires OpenOk(enc, o)
    ensures |o.gaps| == |o.kids| + 1 && |o.layouts| == |o.kids|
    ensures forall i :: 0 <= i < |o.kids| ==> LayoutOk(enc, o.kids[i], o.layouts[i])
    ensures var c := ReadValue(enc, true, Some(WriteNodes(enc, o.kids, o.gaps, o.layouts) + more), []);
            ParseElement(enc, true, WriteOpen(enc, o) + more) ==
            ParseEndTag(enc, Element(o.name, o.attrs, c.kids), c.rest, c.err)
  {
    assert [] + o.attrs == o.attrs;
    hide *;
    OpenParts(enc, o);
    GlueOpen(enc, o, more);
    var inner := WriteNodes(enc, o.kids, o.gaps, o.layouts) + more;
    var c := o.close + (">" + inner);
    var rest := WriteAttrs(o.attrs, o.lays) + c;
    CloseIsRest(o.close, ">" + inner);
    AttrsRest(o.attrs, o.lays, c);
    NameWritten(enc, o.name, rest);
    AttrsWritten(enc, true, o.attrs, o.lays, [], c);
    OpenEnd(enc, true, o.close, o.attrs, inner);
    AttributesStop(enc, true, c, o.attrs);
    StartsLess(o.name + rest);
    RestIsSome(rest);
    ElementOpen(enc, true, "<" + (o.name + rest), o.name, rest, o.attrs, inner);
  }

  lemma LastChildIsRead(enc: Encoding, n: Node, lay: Layout, acc: seq<Node>)
    requires n.Element? && Fit(enc, n) && LayoutOk(enc, n, lay)
    ensures var p := Write(enc, n, lay);
            StartsTag(p) && ReadValue(enc, true, Some(p), acc) == Content(acc + [n], None, ReadingElementValue)
  {
    var p := Write(enc, n, lay) + "";
    assert p == Write(enc, n, lay);
    assert !Plain(n) && !LikeEndTag(n) && After(n, "") == Some("");
    assert First(NoError, ReadingElementValue) == ReadingElementValue;
    hide *;
    WrittenStarts(enc, n, lay, "");
    NodeWritten(enc, n, lay, "");
    ReadMeans(enc, n, p, "");
    ValueFails(enc, p, acc, n, Some(""), NoError);
  }

  lemma ReadMeans(enc: Encoding, n: Node, p: string, tail: string)
    requires IsRead(enc, true, n, p, tail)
    ensures StartsTag(p) && ParseNode(enc, true, KindOf(p), p) == Parsed(n, After(n, tail), NoError)
  {
    hide ParseNode, KindOf, After;
  }

  lemma InContentIsRead(enc: Encoding, o: Open, e: Ending)
    requires OpenOk(enc, o) && EndingOk(enc, o, e)
    ensures var b := InContent(o, e);
            ParseElement(enc, true, WriteOpen(enc, o) + WriteEnding(enc, o, e)) ==
            Parsed(BrokenNode(b), None, BreakError(b))
  {
    hide ParseElement, ParseEndTag, ReadValue, WriteOpen, OpenOk, Write, WriteNodes, Fit, LayoutOk, KidsLaidOut, GoesOn;
    OpenParts(enc, o);
    hide Apart, AllGap, NameOk, AttrsOk, AttrLayoutOk;
    var more := WriteEnding(enc, o, e);
    OpenIsRead(enc, o, more);
    assert [] + o.kids == o.kids;
    match e {
      case NoEnd =>
        NoneLaidOut(enc, o.gaps, o.layouts);
        assert o.gaps[0] + "" == o.gaps[0] && o.gaps == [o.gaps[0]];
        NoContent(enc, o.gaps[0]);
        var c := ReadValue(enc, true, Some(o.gaps[0]), []);
        EndTagMissing(enc, Element(o.name, o.attrs, c.kids), c.rest, c.err);
      case LastChild(n, lay) =>
        LastChildIsRead(enc, n, lay, o.kids);
        KidsAhead(enc, o.kids, o.gaps, o.layouts, more, []);
        EndTagMissing(enc, Element(o.name, o.attrs, o.kids + [n]), None, ReadingElementValue);
      case OtherEnd(rest) =>
        EndAhead(rest);
        KidsWritten(enc, o.kids, o.gaps, o.layouts, more, []);
        OtherEndTag(enc, Element(o.name, o.attrs, o.kids), rest);
      case UnclosedEnd(gap, rest) =>
        EndAhead(o.name + (gap + rest));
        KidsWritten(enc, o.kids, o.gaps, o.layouts, more, []);
        UnclosedEndTag(enc, Element(o.name, o.attrs, o.kids), gap, rest);
    }
  }

  /** An element that breaks off is read up to there, and its error is recorded. */
  lemma BreakIsRead(enc: Encoding, b: Break)
    requires BreakOk(enc, b)
    ensures ParseElement(enc, true, WriteBreak(enc, b)) == Parsed(BrokenNode(b), None, BreakError(b))
  {
    hide ParseElement, WriteOpen, WriteEnding, OpenOk, EndingOk, WriteFlaw, FlawOk, FlawError, AttrsOk, GoodName,
         AllGap, AttrLayoutOk;
    match b {
      case InName(tag) => ElementUnnamed(enc, tag);
      case InTag(name, attrs, lays, gap, flaw) => InTagIsRead(enc, name, attrs, lays, gap, flaw);
      case InContent(o, e) => InContentIsRead(enc, o, e);
    }
  }

  // ---- Any depth ----

  /** A broken element inside of open ones, the outermost first. */
  function WriteNest(enc: Encoding, opens: seq<Open>, b: Break): string
    requires BreakOk(enc, b) && forall i :: 0 <= i < |opens| ==> OpenOk(enc, opens[i])
  {
    if opens == [] then WriteBreak(enc, b) else WriteOpen(enc, opens[0]) + WriteNest(enc, opens[1..], b)
  }

  /** The broken element is the last child of the innermost open one, and each of them of the one around it. */
  function BrokenNest(opens: seq<Open>, b: Break): Node {
    if opens == [] then BrokenNode(b)
    else Element(opens[0].name, opens[0].attrs, opens[0].kids + [BrokenNest(opens[1..], b)])
  }

  lemma TagAhead(enc: Encoding, name: string, rest: string)
    requires GoodName(enc, name)
    ensures var p := "<" + (name + rest); StartsTag(p) && p[1] != '/' && KindOf(p) == ElementKind
  {
    GoodNameOk(enc, name);
    ElementAhead(enc, name, rest);
    LetterEndsNoTag(name[0]);
    hide KindOf, BeginsName;
  }

  lemma OpenAhead(enc: Encoding, o: Open, more: string)
    requires OpenOk(enc, o)
    ensures var p := WriteOpen(enc, o) + more; StartsTag(p) && p[1] != '/' && KindOf(p) == ElementKind
  {
    hide *;
    OpenParts(enc, o);
    OpenName(enc, o);
    GlueOpen(enc, o, more);
    TagAhead(enc, o.name, WriteAttrs(o.attrs, o.lays) + (o.close +
      (">" + (WriteNodes(enc, o.kids, o.gaps, o.layouts) + more))));
  }

  lemma OpenName(enc: Encoding, o: Open)
    requires OpenOk(enc, o)
    ensures GoodName(enc, o.name)
  {}

  lemma BreakAhead(enc: Encoding, b: Break)
    requires BreakOk(enc, b)
    ensures var p := WriteBreak(enc, b); StartsTag(p) && p[1] != '/' && KindOf(p) == ElementKind
  {
    hide StartsTag, KindOf, WriteOpen, WriteEnding, OpenOk, EndingOk, WriteFlaw, FlawOk, FlawError, AttrsOk, GoodName,
         AllGap, AttrLayoutOk, WriteAttrs;
    match b {
      case InName(tag) =>
        assert tag + "" == tag;
        TagAhead(enc, tag, "");
      case InTag(name, attrs, lays, gap, flaw) =>
        TagAhead(enc, name, WriteAttrs(attrs, lays) + (gap + WriteFlaw(flaw)));
      case InContent(o, e) => OpenAhead(enc, o, WriteEnding(enc, o, e));
    }
  }

  lemma NestAhead(enc: Encoding, opens: seq<Open>, b: Break)
    requires BreakOk(enc, b) && forall i :: 0 <= i < |opens| ==> OpenOk(enc, opens[i])
    ensures var p := WriteNest(enc, opens, b); StartsTag(p) && p[1] != '/' && KindOf(p) == ElementKind
  {
    hide StartsTag, KindOf, WriteOpen, WriteBreak, OpenOk, BreakOk;
    if opens == [] {
      BreakAhead(enc, b);
    } else {
      OpenAhead(enc, opens[0], WriteNest(enc, opens[1..], b));
    }
  }

  /** Breaking off is an error whatever breaks off. */
  lemma BreakIsError(b: Break)
    ensures BreakError(b) != NoError && First(BreakError(b), ReadingElementValue) == BreakError(b)
    ensures First(BreakError(b), ReadingEndTag) == BreakError(b)
  {}

  lemma OpenAround(enc: Encoding, o: Open, p: string, n: Node, err: Error)
    requires OpenOk(enc, o) && StartsTag(p) && p[1] != '/' && KindOf(p) == ElementKind
    requires ParseElement(enc, true, p) == Parsed(n, None, err)
    requires First(err, ReadingElementValue) == err && First(err, ReadingEndTag) == err
    ensures ParseElement(enc, true, WriteOpen(enc, o) + p) ==
            Parsed(Element(o.name, o.attrs, o.kids + [n]), None, err)
  {
    assert [] + o.kids == o.kids;
    hide *;
    OpenParts(enc, o);
    OpenIsRead(enc, o, p);
    NodeByKind(enc, true, p);
    ValueFails(enc, p, o.kids, n, None, err);
    KidsAhead(enc, o.kids, o.gaps, o.layouts, p, []);
    EndTagMissing(enc, Element(o.name, o.attrs, o.kids + [n]), None, err);
  }

  /** A broken element at any depth ends all the elements around it. */
  lemma {:induction false} NestIsRead(enc: Encoding, opens: seq<Open>, b: Break)
    requires BreakOk(enc, b) && forall i :: 0 <= i < |opens| ==> OpenOk(enc, opens[i])
    ensures ParseElement(enc, true, WriteNest(enc, opens, b)) == Parsed(BrokenNest(opens, b), None, BreakError(b))
    decreases |opens|
  {
    hide ParseElement, WriteOpen, WriteBreak, OpenOk, BreakOk, BrokenNode, BreakError, First, StartsTag, KindOf;
    if opens == [] {
      BreakIsRead(enc, b);
    } else {
      NestIsRead(enc, opens[1..], b);
      NestAhead(enc, opens[1..], b);
      BreakIsError(b);
      OpenAround(enc, opens[0], WriteNest(enc, opens[1..], b), BrokenNest(opens[1..], b), BreakError(b));
    }
  }

  // ---- Documents ----

  /** The encoding in force behind top-level nodes. */
  function EncodingBehind(enc: Encoding, nodes: seq<Node>): Encoding
    decreases |nodes|
  {
    if nodes == [] then enc else EncodingBehind(NextEncoding(enc, nodes[0]), nodes[1..])
  }

  /** Top-level nodes are read in order up to what follows them. */
  lemma {:induction false} NodesAhead(enc: Encoding, nodes: seq<Node>, gaps: seq<string>, lays: seq<Layout>,
                                      tag: string, acc: seq<Node>)
    requires NodesFit(enc, nodes) && NodesLaidOut(enc, nodes, gaps, lays)
    requires tag != "" && tag[0] as int < 0x80 && !IsGap(tag[0])
    ensures var p := WriteDocument(enc, nodes, gaps, lays) + tag;
            var r := ParseNodes(enc, true, SkipWhiteSpace(enc, Some(p)), acc);
            var s := ParseNodes(EncodingBehind(enc, nodes), true, Some(tag), acc + nodes);
            r.kids == s.kids && r.err == s.err
    decreases nodes
  {
    assert nodes == [] ==> acc + nodes == acc;
    assert nodes != [] ==> acc + [nodes[0]] + nodes[1..] == acc + nodes;
    BehindStep(enc, nodes);
    hide *;
    if nodes == [] {
      NoneWritten(enc, gaps, lays);
      GapsSkipped(enc, gaps[0], tag);
    } else {
      FirstNodeFits(enc, nodes, gaps, lays);
      var n, enc' := nodes[0], NextEncoding(enc, nodes[0]);
      var rest := WriteDocument(enc', nodes[1..], gaps[1..], lays[1..]);
      Glue(gaps[0], Write(enc, n, lays[0]) + rest, tag);
      Glue(Write(enc, n, lays[0]), rest, tag);
      NodeWritten(enc, n, lays[0], rest + tag);
      NodeStep(enc, true, gaps[0], Write(enc, n, lays[0]) + (rest + tag), acc, n, rest + tag);
      NodesAhead(enc', nodes[1..], gaps[1..], lays[1..], tag, acc + [n]);
    }
  }

  lemma BehindStep(enc: Encoding, nodes: seq<Node>)
    ensures EncodingBehind(enc, nodes) ==
            if nodes == [] then enc else EncodingBehind(NextEncoding(enc, nodes[0]), nodes[1..])
  {
    hide NextEncoding;
  }

  lemma NoneWritten(enc: Encoding, gaps: seq<string>, lays: seq<Layout>)
    requires NodesLaidOut(enc, [], gaps, lays)
    ensures |gaps| == 1 && AllGap(gaps[0]) && WriteDocument(enc, [], gaps, lays) == gaps[0]
  {
    hide AllGap;
  }

  /** The last top-level node breaks off. */
  lemma BrokenLast(enc: Encoding, p: string, acc: seq<Node>, n: Node, err: Error)
    requires StartsTag(p) && KindOf(p) == ElementKind && ParseElement(enc, true, p) == Parsed(n, None, err)
    requires n.Element?
    ensures ParseNodes(enc, true, Some(p), acc) == Content(acc + [n], None, err)
  {
    SkipWhiteStays(enc, p);
    NodeByKind(enc, true, p);
    hide SkipWhite, ParseNode, ParseElement, KindOf;
  }

  lemma GapThenAscii(w: string, p: string)
    requires AllGap(w) && p != "" && p[0] as int < 0x80
    ensures w + p != "" && (w + p)[0] as int < 0x80
  {
    if w != "" {
      assert IsGap(w[0]);
    }
  }

  lemma TagIsAscii(p: string)
    requires StartsTag(p)
    ensures p != "" && p[0] as int < 0x80 && !IsGap(p[0])
  {}

  lemma DocumentBegins(enc: Encoding, nodes: seq<Node>, gaps: seq<string>, lays: seq<Layout>, tag: string)
    requires NodesFit(enc, nodes) && NodesLaidOut(enc, nodes, gaps, lays) && tag != "" && tag[0] as int < 0x80
    ensures var p := WriteDocument(enc, nodes, gaps, lays) + tag; p != "" && p[0] as int < 0x80
  {
    hide *;
    if nodes == [] {
      NoneWritten(enc, gaps, lays);
      GapThenAscii(gaps[0], tag);
    } else {
      DocumentStarts(enc, nodes, gaps, lays);
      SameStart(WriteDocument(enc, nodes, gaps, lays), tag);
    }
  }

  lemma SameStart(p: string, tag: string)
    requires p != ""
    ensures p + tag != "" && (p + tag)[0] == p[0]
  {}

  lemma NestIsElement(opens: seq<Open>, b: Break)
    ensures BrokenNest(opens, b).Element?
  {}

  /** The first flaw decides. Behind any nodes, and inside of any open elements with the content read so far, an element
      breaks off: what is before it is kept, it is the last child of each element around it, and its error, that of the
      exit it takes, is the error of the document. */
  lemma FirstFlawDecides(enc: Encoding, nodes: seq<Node>, gaps: seq<string>, lays: seq<Layout>, opens: seq<Open>,
                         b: Break)
    requires NodesFit(enc, nodes) && NodesLaidOut(enc, nodes, gaps, lays)
    requires BreakOk(EncodingBehind(enc, nodes), b)
    requires forall i :: 0 <= i < |opens| ==> OpenOk(EncodingBehind(enc, nodes), opens[i])
    ensures ParseDocument(enc, true, WriteDocument(enc, nodes, gaps, lays) +
                                     WriteNest(EncodingBehind(enc, nodes), opens, b)) ==
            Document(nodes + [BrokenNest(opens, b)], false, BreakError(b))
  {
    assert [] + nodes == nodes;
    hide *;
    var inner := EncodingBehind(enc, nodes);
    var tag := WriteNest(inner, opens, b);
    var p := WriteDocument(enc, nodes, gaps, lays) + tag;
    NestAhead(inner, opens, b);
    NestIsRead(inner, opens, b);
    NestIsElement(opens, b);
    TagIsAscii(tag);
    NodesAhead(enc, nodes, gaps, lays, tag, []);
    BrokenLast(inner, tag, nodes, BrokenNest(opens, b), BreakError(b));
    DocumentBegins(enc, nodes, gaps, lays, tag);
    DocumentOf(enc, true, p);
  }

  lemma NoTagToRead(enc: Encoding, p: string, acc: seq<Node>)
    requires GoesOn(p, "<")
    ensures ParseNodes(enc, true, Some(p), acc) == Content(acc, Some(p), NoError)
  {
    GapsSkipped(enc, "", p);
    assert "" + p == p;
    hide SkipWhite, KindOf, IsGap;
  }

  lemma DocumentIs(enc: Encoding, p: string)
    requires p != "" && p[0] as int < 0x80
    ensures var r := ParseNodes(enc, true, SkipWhiteSpace(enc, Some(p)), []);
            ParseDocument(enc, true, p) ==
            Document(r.kids, false, if r.kids == [] then First(r.err, DocumentEmpty) else r.err)
  {
    hide ParseNodes, SkipWhiteSpace;
  }

  /** Text outside of any node ends the document without an error; only where no node is in front of it is the document
      empty. */
  lemma TextOutside(enc: Encoding, nodes: seq<Node>, gaps: seq<string>, lays: seq<Layout>, text: string)
    requires NodesFit(enc, nodes) && NodesLaidOut(enc, nodes, gaps, lays) && GoesOn(text, "<")
    ensures ParseDocument(enc, true, WriteDocument(enc, nodes, gaps, lays) + text) ==
            Document(nodes, false, if nodes == [] then DocumentEmpty else NoError)
  {
    assert [] + nodes == nodes && text != "" && text[0] as int < 0x80 && !IsGap(text[0]);
    assert First(NoError, DocumentEmpty) == DocumentEmpty;
    hide *;
    NodesAhead(enc, nodes, gaps, lays, text, []);
    NoTagToRead(EncodingBehind(enc, nodes), text, nodes);
    DocumentBegins(enc, nodes, gaps, lays, text);
    DocumentIs(enc, WriteDocument(enc, nodes, gaps, lays) + text);
  }

  lemma EmptyText(enc: Encoding)
    ensures ParseDocument(enc, true, "") == Document([], false, DocumentEmpty)
    ensures First(NoError, DocumentEmpty) == DocumentEmpty
  {}

  lemma GapAlone(enc: Encoding, gap: string)
    requires AllGap(gap)
    ensures NodesLaidOut(enc, [], [gap], []) && WriteDocument(enc, [], [gap], []) == gap
    ensures gap != "" ==> gap[0] as int < 0x80
  {
    if gap != "" {
      assert IsGap(gap[0]);
    }
    hide AllGap;
  }

  /** A document of nothing but white space is empty. */
  lemma NothingInside(enc: Encoding, gap: string)
    requires AllGap(gap)
    ensures ParseDocument(enc, true, gap) == Document([], false, DocumentEmpty)
  {
    hide *;
    EmptyText(enc);
    if gap != "" {
      GapAlone(enc, gap);
      NoNodes(enc, true, [gap], [], []);
      DocumentIs(enc, gap);
    }
  }

  // ---- Marks without an end ----

  lemma RawRunsOut(s: string, mark: string)
    requires Lacks(s, mark)
    ensures RawLength(s, mark) == |s|
  {
    hide RawLength, StringEqual;
  }

  /** A last node that takes all the rest of the text. */
  lemma OnlyNode(enc: Encoding, p: string, kind: Kind, n: Node, rest: Ptr)
    requires StartsTag(p) && KindOf(p) == kind && ParseNode(enc, true, kind, p) == Parsed(n, rest, NoError)
    requires rest == None || rest == Some("")
    ensures ParseDocument(enc, true, p) == Document([n], false, NoError)
  {
    assert [] + [n] == [n];
    hide *;
    TagIsAscii(p);
    TagIsLess(p);
    TagStays(enc, p);
    NodeAlone(enc, p, kind, n, rest, []);
    DocumentIs(enc, p);
  }

  lemma TagIsLess(p: string)
    requires StartsTag(p)
    ensures p != "" && p[0] == '<'
  {}

  lemma NodeAlone(enc: Encoding, p: string, kind: Kind, n: Node, rest: Ptr, acc: seq<Node>)
    requires p != "" && p[0] == '<' && SkipWhiteSpace(enc, Some(p)) == Some(p)
    requires KindOf(p) == kind && ParseNode(enc, true, kind, p) == Parsed(n, rest, NoError)
    requires rest == None || rest == Some("")
    ensures var r := ParseNodes(enc, true, Some(p), acc); r.kids == acc + [n] && r.err == NoError
  {
    hide SkipWhite, KindOf, ParseNode, NextEncoding;
  }

  /** A comment without its end mark goes up to the end of the text, and is no error. */
  lemma UnclosedComment(enc: Encoding, s: string)
    requires Lacks(s, "-->")
    ensures ParseDocument(enc, true, "<!--" + s) == Document([Comment(s)], false, NoError)
  {
    var p := "<!--" + s;
    KindsOfMarks(s);
    MarkAhead("<!--", s);
    SkipWhiteStays(enc, p);
    RawRunsOut(s, "-->");
    assert s[..|s|] == s && StartsTag(p);
    NodeByKind(enc, true, p);
    hide SkipWhite, StringEqual, RawLength, Lacks, KindOf, ParseNode, ParseDocument;
    OnlyNode(enc, p, CommentKind, Comment(s), Some(""));
  }

  /** So does a CDATA section. */
  lemma UnclosedCdata(enc: Encoding, s: string)
    requires Lacks(s, "]]>")
    ensures ParseDocument(enc, true, "<![CDATA[" + s) == Document([Text(s, true)], false, NoError)
  {
    var p := "<![CDATA[" + s;
    KindsOfMarks(s);
    MarkAhead("<![CDATA[", s);
    RawRunsOut(s, "]]>");
    assert s[..|s|] == s && s[|s|..] == "" && StartsTag(p);
    NodeByKind(enc, true, p);
    NothingKept(enc);
    hide SkipWhite, StringEqual, RawLength, Lacks, KindOf, ParseNode, ParseDocument, ReadText;
    OnlyNode(enc, p, CdataKind, Text(s, true), None);
  }

  lemma NothingKept(enc: Encoding)
    ensures ReadText(enc, true, Some(""), false, "]]>") == TextResult(None, "")
  {}

  /** And so does an unknown tag. */
  lemma UnclosedUnknown(enc: Encoding, s: string)
    requires '>' !in s && KindOf("<" + s) == UnknownKind && s != ""
    ensures ParseDocument(enc, true, "<" + s) == Document([UnknownTag(s)], false, NoError)
  {
    var p := "<" + s;
    forall i | 0 <= i < |s|
      ensures !StringEqual(s[i..], ">", false)
    {
      assert s[i..][0] == s[i] && s[i] in s;
    }
    RawRunsOut(s, ">");
    SkipWhiteStays(enc, p);
    assert p[1..] == s && s[..|s|] == s && StartsTag(p);
    NodeByKind(enc, true, p);
    hide SkipWhite, StringEqual, RawLength, Lacks, KindOf, ParseNode, ParseDocument;
    OnlyNode(enc, p, UnknownKind, UnknownTag(s), Some(""));
  }

  // ---- An instance ----

  function Around(): Open {
    Open("a", [], [], "", [], [""], [])
  }

  function Quoted(): AttrLayout {
    AttrLayout(" ", "", "", Some('\''))
  }

  function TwiceNamed(): Break {
    InTag("b", [Attr("c", "1")], [Quoted()], " ", Twice(Attr("c", "2"), Quoted(), "/>"))
  }

  lemma OneDigit(enc: Encoding, v: string)
    requires v in {"1", "2"}
    ensures Whole(enc, v) && NoReference(v) && Encode(v) == v
  {
    assert v[1..] == "" && Whole(enc, "");
    assert forall i :: 0 <= i < 1 ==> |v[i..]| <= 1;
    EncodeOne(v[0]);
    assert v == [v[0]];
  }

  lemma OneLetter(enc: Encoding, name: string)
    requires name in {"a", "b", "c"}
    ensures GoodName(enc, name) && NameOk(enc, name)
  {
    assert 'a' == SMALL[0] && 'b' == SMALL[1] && 'c' == SMALL[2];
    GoodNameOk(enc, name);
  }

  lemma QuotedIsOk(enc: Encoding, a: Attr)
    ensures AttrLayoutOk(a, Quoted()) && AllGap(" ") && AllGap("") && TagRest("/>")
  {
    assert IsGap(' ');
  }

  lemma AroundIsOk(enc: Encoding)
    ensures OpenOk(enc, Around())
  {
    OneLetter(enc, "a");
    QuotedIsOk(enc, Attr("c", "1"));
    hide GoodName, AllGap, NameOk;
    assert Apart([]) && AttrsOk(enc, []);
  }

  lemma FlawIsOk(enc: Encoding)
    ensures FlawOk(enc, [Attr("c", "1")], Twice(Attr("c", "2"), Quoted(), "/>"))
  {
    OneLetter(enc, "c");
    OneDigit(enc, "2");
    QuotedIsOk(enc, Attr("c", "2"));
    hide GoodName, NameOk, Whole, NoReference, AttrLayoutOk, TagRest, Quoted;
    assert [Attr("c", "1")][0].name == "c";
  }

  lemma OneAttr(enc: Encoding)
    ensures AttrsOk(enc, [Attr("c", "1")])
  {
    OneLetter(enc, "c");
    OneDigit(enc, "1");
    hide GoodName, NameOk, Whole, NoReference;
  }

  lemma TwiceIsOk(enc: Encoding)
    ensures BreakOk(enc, TwiceNamed())
  {
    OneLetter(enc, "b");
    OneAttr(enc);
    FlawIsOk(enc);
    QuotedIsOk(enc, Attr("c", "1"));
    hide GoodName, AllGap, NameOk, AttrsOk, FlawOk, AttrLayoutOk, TagRest, Quoted;
  }

  lemma QuotedIsWritten(enc: Encoding, v: string)
    requires v in {"1", "2"}
    ensures WriteAttr(Attr("c", v), Quoted()) == "c='" + v + "'"
  {
    OneDigit(enc, v);
    hide Encode, Whole, NoReference;
    assert "c" + ("" + ("=" + ("" + (['\''] + (v + ['\'']))))) == "c='" + v + "'";
  }

  lemma FirstAttrWritten(enc: Encoding)
    ensures WriteAttrs([Attr("c", "1")], [Quoted()]) == " c='1'" && WriteAttrs([], []) == ""
  {
    QuotedIsWritten(enc, "1");
    hide WriteAttr;
    assert [Attr("c", "1")][1..] == [] && [Quoted()][1..] == [];
    assert WriteAttrs([Attr("c", "1")], [Quoted()]) == " " + ("c='" + "1" + "'" + "");
  }

  lemma BreakIsWritten(enc: Encoding)
    requires BreakOk(enc, TwiceNamed())
    ensures WriteBreak(enc, TwiceNamed()) == "<" + ("b" + (" c='1'" + (" " + ("c='" + "2" + "'" + "/>"))))
  {
    FirstAttrWritten(enc);
    QuotedIsWritten(enc, "2");
    hide WriteAttr, WriteAttrs, BreakOk, Quoted;
  }

  lemma BreakText()
    ensures "<" + ("b" + (" c='1'" + (" " + ("c='" + "2" + "'" + "/>")))) == "<b c='1' c='2'/>"
    ensures "<a>" + "<b c='1' c='2'/>" == "<a><b c='1' c='2'/>"
  {}

  lemma AroundIsWritten(enc: Encoding)
    requires OpenOk(enc, Around())
    ensures WriteOpen(enc, Around()) == "<a>"
  {
    assert WriteAttrs([], []) == "" && WriteNodes(enc, [], [""], []) == "";
    hide OpenOk, WriteAttrs, WriteNodes;
  }

  lemma NestOfOne(enc: Encoding, o: Open, b: Break)
    requires OpenOk(enc, o) && BreakOk(enc, b)
    ensures WriteNest(enc, [o], b) == WriteOpen(enc, o) + WriteBreak(enc, b)
    ensures BrokenNest([o], b) == Element(o.name, o.attrs, o.kids + [BrokenNode(b)])
  {
    assert [o][1..] == [];
    hide OpenOk, BreakOk, WriteOpen, WriteBreak, BrokenNode;
  }

  lemma TwiceIsWritten(enc: Encoding)
    requires BreakOk(enc, TwiceNamed()) && OpenOk(enc, Around())
    ensures WriteNest(enc, [Around()], TwiceNamed()) == "<a><b c='1' c='2'/>"
    ensures BrokenNest([Around()], TwiceNamed()) == Element("a", [], [Element("b", [Attr("c", "1")], [])])
  {
    assert BrokenNode(TwiceNamed()) == Element("b", [Attr("c", "1")], []);
    assert Around().name == "a" && Around().attrs == [] && Around().kids == [];
    hide *;
    NestOfOne(enc, Around(), TwiceNamed());
    AroundIsWritten(enc);
    BreakIsWritten(enc);
    BreakText();
  }

  lemma NothingBefore(enc: Encoding)
    ensures NodesFit(enc, []) && NodesLaidOut(enc, [], [""], []) && WriteDocument(enc, [], [""], []) == ""
    ensures EncodingBehind(enc, []) == enc
  {}

  /** An attribute that comes twice ends the element with what was read of it, and the one around it, with an error. */
  lemma TwiceInside(enc: Encoding)
    ensures ParseDocument(enc, true, "<a><b c='1' c='2'/>") ==
            Document([Element("a", [], [Element("b", [Attr("c", "1")], [])])], false, ParsingElement)
  {
    assert BreakError(TwiceNamed()) == ParsingElement;
    hide *;
    AroundIsOk(enc);
    TwiceIsOk(enc);
    TwiceIsWritten(enc);
    NothingBefore(enc);
    FirstFlawDecides(enc, [], [""], [], [Around()], TwiceNamed());
    assert "" + "<a><b c='1' c='2'/>" == "<a><b c='1' c='2'/>";
    var n := BrokenNest([Around()], TwiceNamed());
    assert [] + [n] == [n];
  }
}
