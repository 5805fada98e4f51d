// Documents in any layout: what the parser makes of text that was not written
// by the printer. Runs of the six white-space characters, named one by one, may
// stand between attributes, around '=', at the end of a tag, between nodes and
// between the words of a text, and none of them changes what is read.
module XmlLayout {
  import opened Letters
  import opened Options
  import opened Sequences
  import opened XmlText
  import opened XmlParser
  import opened XmlPrinter
  import opened XmlCodec
  import opened XmlRoundTrip

  // ---- Characters, named one by one ----

  /** Blank, tab, line feed, vertical tab, form feed, carriage return. */
  predicate IsGap(c: char) {
    c == ' ' || c == '\t' || c == '\n' || c == '\U{0B}' || c == '\U{0C}' || c == '\r'
  }

  predicate AllGap(w: string) {
    forall i :: 0 <= i < |w| ==> IsGap(w[i])
  }

  predicate BeginsName(c: char) {
    c in SMALL || c in CAPITAL || c == '_' || c as int >= 127
  }

  predicate GoesOnInName(c: char) {
    BeginsName(c) || c in "0123456789" || c in "-.:"
  }

  lemma GapIsWhite(c: char)
    ensures IsGap(c) <==> IsWhiteSpace(c)
  {}

  /** The characters of names are the letters, the digits, everything from 127 on, and "_-.:". */
  lemma NameCharacters(c: char)
    ensures BeginsName(c) <==> IsNameStart(c)
    ensures GoesOnInName(c) <==> IsNameChar(c)
  {
    LetterCodes(c);
    assert c in "0123456789" <==> '0' <= c <= '9';
  }

  // ---- Layouts ----

  /** How an attribute is written: the gap in front of it, the gaps around '=', and the quotes, if any. */
  datatype AttrLayout = AttrLayout(before: string, left: string, right: string, quote: Option<char>)

  /** How a node is written. An element has a layout for each attribute, a gap before the end of its start tag,
      the choice of the short form, gaps before, between and behind its children, and one in its end tag. A text
      has the parts that it is made of, and the gaps between them. */
  datatype Layout = Layout(attrs: seq<AttrLayout>, close: string, short: bool, gaps: seq<string>, kids: seq<Layout>,
                           end: string, parts: seq<string>)

  /** The value of a written attribute, with or without quotes. */
  function WriteValue(v: string, quote: Option<char>): string {
    if quote.Some? then [quote.value] + (Encode(v) + [quote.value]) else v
  }

  function WriteAttr(a: Attr, lay: AttrLayout): string {
    a.name + (lay.left + ("=" + (lay.right + WriteValue(a.value, lay.quote))))
  }

  function WriteAttrs(attrs: seq<Attr>, lays: seq<AttrLayout>): string
    requires |lays| == |attrs|
  {
    if attrs == [] then "" else lays[0].before + (WriteAttr(attrs[0], lays[0]) + WriteAttrs(attrs[1..], lays[1..]))
  }

  /** A field of a declaration; an empty one is not written. */
  function WriteField(name: string, value: string, lay: AttrLayout): string {
    if value == "" then "" else lay.before + (name + (lay.left + ("=" + (lay.right + ("\"" + (value + "\""))))))
  }

  /** The parts of a text, with gaps between them. */
  function WriteParts(parts: seq<string>, gaps: seq<string>): string
    requires |gaps| + 1 >= |parts|
  {
    if parts == [] then ""
    else if |parts| == 1 then Encode(parts[0])
    else Encode(parts[0]) + (gaps[0] + WriteParts(parts[1..], gaps[1..]))
  }

  /** The same parts with one blank between them: the text that they stand for. */
  function Joined(parts: seq<string>): string {
    if parts == [] then "" else if |parts| == 1 then parts[0] else parts[0] + (" " + Joined(parts[1..]))
  }

  predicate AttrLayoutOk(a: Attr, lay: AttrLayout) {
    && lay.before != "" && AllGap(lay.before) && AllGap(lay.left) && AllGap(lay.right)
    && if lay.quote.Some? then lay.quote.value in {'\"', '\''} else BareOk(a.value)
  }

  /** A value that may stand without quotes. */
  predicate BareOk(v: string) {
    v != "" && v[0] as int < 0x80 && forall i :: 0 <= i < |v| ==> !IsGap(v[i]) && v[i] !in {'/', '>', '\"', '\''}
  }

  predicate PartOk(enc: Encoding, s: string) {
    Whole(enc, s) && NoReference(s) && Tight(s) && !(enc.Utf8? && StartsWithMark(s))
  }

  predicate LayoutOk(enc: Encoding, n: Node, lay: Layout)
    decreases n
  {
    match n
    case Element(_, attrs, kids) =>
      && |lay.attrs| == |attrs| && (forall i :: 0 <= i < |attrs| ==> AttrLayoutOk(attrs[i], lay.attrs[i]))
      && AllGap(lay.close) && AllGap(lay.end) && (lay.short ==> kids == [])
      && |lay.gaps| == |kids| + 1 && (forall i :: 0 <= i < |lay.gaps| ==> AllGap(lay.gaps[i]))
      && |lay.kids| == |kids| && forall i :: 0 <= i < |kids| ==> LayoutOk(enc, kids[i], lay.kids[i])
    case Text(text, cdata) =>
      cdata ||
      (&& lay.parts != [] && Joined(lay.parts) == text && |lay.gaps| + 1 == |lay.parts|
       && (forall i :: 0 <= i < |lay.parts| ==> PartOk(enc, lay.parts[i]))
       && forall i :: 0 <= i < |lay.gaps| ==> lay.gaps[i] != "" && AllGap(lay.gaps[i]))
    case Declaration(_, _, _) =>
      && |lay.attrs| == 3 && AllGap(lay.close)
      && forall i :: 0 <= i < 3 ==>
           AllGap(lay.attrs[i].before) && AllGap(lay.attrs[i].left) && AllGap(lay.attrs[i].right)
    case _ => true
  }

  /** The text of a node in a layout. */
  function Write(enc: Encoding, n: Node, lay: Layout): string
    requires LayoutOk(enc, n, lay)
    decreases n, 1
  {
    match n
    case Element(name, attrs, kids) =>
      "<" + (name + (WriteAttrs(attrs, lay.attrs) + (lay.close +
        (if lay.short then "/>"
         else ">" + (WriteNodes(enc, kids, lay.gaps, lay.kids) + ("</" + (name + (lay.end + ">"))))))))
    case Text(text, cdata) => if cdata then "<![CDATA[" + (text + "]]>") else WriteParts(lay.parts, lay.gaps)
    case Comment(text) => "<!--" + (text + "-->")
    case UnknownTag(text) => "<" + (text + ">")
    case Declaration(version, encoding, standalone) =>
      "<?xml" + (WriteField("version", version, lay.attrs[0]) + (WriteField("encoding", encoding, lay.attrs[1]) +
        (WriteField("standalone", standalone, lay.attrs[2]) + (lay.close + "?>"))))
  }

  /** Nodes with a gap in front of each, and one behind the last. */
  function WriteNodes(enc: Encoding, nodes: seq<Node>, gaps: seq<string>, lays: seq<Layout>): string
    requires |gaps| == |nodes| + 1 && |lays| == |nodes|
    requires forall i :: 0 <= i < |nodes| ==> LayoutOk(enc, nodes[i], lays[i])
    decreases nodes, 0
  {
    if nodes == [] then gaps[0]
    else gaps[0] + (Write(enc, nodes[0], lays[0]) + WriteNodes(enc, nodes[1..], gaps[1..], lays[1..]))
  }

  // ---- What can be written ----

  predicate GoodName(enc: Encoding, name: string) {
    && name != "" && BeginsName(name[0]) && (forall i :: 0 <= i < |name| ==> GoesOnInName(name[i]))
    && !(enc.Utf8? && StartsWithMark(name))
  }

  /** Nodes that any layout leaves alone when white space is condensed. */
  predicate Fit(enc: Encoding, n: Node)
    decreases n
  {
    match n
    case Element(name, attrs, kids) =>
      && GoodName(enc, name)
      && (forall i :: 0 <= i < |attrs| ==>
            GoodName(enc, attrs[i].name) && Whole(enc, attrs[i].value) && NoReference(attrs[i].value))
      && (forall i, j :: 0 <= i < j < |attrs| ==> attrs[i].name != attrs[j].name)
      && Apart(kids) && forall k :: k in kids ==> Fit(enc, k)
    case Text(text, cdata) =>
      if cdata then Lacks(text, "]]>") && NulFree(text) else exists i :: 0 <= i < |text| && !IsGap(text[i])
    case Comment(text) => Lacks(text, "-->") && NulFree(text)
    case UnknownTag(text) => '>' !in text && NulFree(text) && KindOf("<" + text + ">") == UnknownKind
    case Declaration(version, encoding, standalone) =>
      && FieldOk(enc, version) && FieldOk(enc, encoding) && FieldOk(enc, standalone)
      && NulFree(version) && NulFree(encoding) && NulFree(standalone)
  }

  // ---- Gaps and names ----

  lemma GapIsAllWhite(w: string)
    requires AllGap(w)
    ensures AllWhite(w)
  {
    hide IsGap, IsWhiteSpace;
    forall i | 0 <= i < |w|
      ensures IsWhiteSpace(w[i])
    {
      GapIsWhite(w[i]);
    }
  }

  lemma GoodNameOk(enc: Encoding, name: string)
    requires GoodName(enc, name)
    ensures NameOk(enc, name)
  {
    hide BeginsName, GoesOnInName, IsNameStart, IsNameChar;
    forall i | 0 <= i < |name|
      ensures IsNameChar(name[i])
    {
      NameCharacters(name[i]);
    }
    NameCharacters(name[0]);
  }

  /** What can follow in a tag: a gap, or the end of the tag. */
  predicate TagRest(p: string) {
    p != "" && (IsGap(p[0]) || p[0] == '/' || p[0] == '>')
  }

  lemma TagRestIsNoName(p: string)
    requires TagRest(p)
    ensures !IsNameChar(p[0]) && p[0] as int < 0x80
  {}

  lemma GapsSkipped(enc: Encoding, w: string, p: string)
    requires AllGap(w) && p != "" && p[0] as int < 0x80 && !IsGap(p[0])
    ensures SkipWhite(enc, w + p) == p && SkipWhiteSpace(enc, Some(w + p)) == Some(p)
  {
    hide IsGap, IsWhiteSpace;
    GapIsAllWhite(w);
    GapIsWhite(p[0]);
    SkipWhiteRun(enc, w, p);
    SkipWhiteStays(enc, p);
    hide SkipWhite;
  }

  // ---- Attributes ----

  lemma {:induction false} BareRun(v: string, rest: string)
    requires forall i :: 0 <= i < |v| ==> !IsGap(v[i]) && v[i] !in {'/', '>', '\"', '\''}
    requires TagRest(rest)
    ensures BareLength(v + rest) == |v|
  {
    var p := v + rest;
    if v == "" {
      assert p == rest;
      GapIsWhite(rest[0]);
    } else {
      GapIsWhite(v[0]);
      assert p[1..] == v[1..] + rest;
      BareRun(v[1..], rest);
    }
  }

  lemma BareIsRead(enc: Encoding, condense: bool, name: string, v: string, rest: string)
    requires BareOk(v) && TagRest(rest)
    ensures ParseAttrValue(enc, condense, name, v + rest) == AttrResult(Attr(name, v), Some(rest), NoError)
  {
    BareRun(v, rest);
    var p := v + rest;
    assert p[|v|] == rest[0] && p[..|v|] == v && p[|v|..] == rest;
    hide IsGap, BareLength, ReadText;
    TagRestIsNoQuote(rest);
  }

  lemma TagRestIsNoQuote(rest: string)
    requires TagRest(rest)
    ensures rest != "" && !IsQuote(rest[0])
  {}

  lemma ValueIsRead(enc: Encoding, condense: bool, name: string, v: string, quote: Option<char>, rest: string)
    requires Whole(enc, v) && NoReference(v) && TagRest(rest)
    requires if quote.Some? then quote.value in {'\"', '\''} else BareOk(v)
    ensures ParseAttrValue(enc, condense, name, WriteValue(v, quote) + rest) ==
            AttrResult(Attr(name, v), Some(rest), NoError)
  {
    hide Encode, Whole, NoReference, ReadText, ParseAttrValue, IsGap;
    if quote.Some? {
      var q := quote.value;
      ReadQuoted(enc, condense, v, q, rest);
      AttrValueStep(enc, condense, name, q, Encode(v) + [q] + rest);
      assert [q] + (Encode(v) + [q]) + rest == [q] + (Encode(v) + [q] + rest);
    } else {
      BareIsRead(enc, condense, name, v, rest);
    }
  }

  lemma ValueStart(v: string, quote: Option<char>, rest: string)
    requires if quote.Some? then quote.value in {'\"', '\''} else BareOk(v)
    ensures var p := WriteValue(v, quote) + rest; p != "" && p[0] as int < 0x80 && !IsGap(p[0])
  {
    hide Encode;
  }

  lemma AfterNameGaps(enc: Encoding, condense: bool, name: string, left: string, right: string, value: string)
    requires AllGap(left) && AllGap(right) && value != "" && value[0] as int < 0x80 && !IsGap(value[0])
    ensures ParseAfterName(enc, condense, name, left + ("=" + (right + value))) ==
            ParseAttrValue(enc, condense, name, value)
  {
    hide ParseAttrValue, SkipWhiteSpace, Suffix, AllGap;
    var s := "=" + (right + value);
    assert s[1..] == right + value;
    GapsSkipped(enc, left, s);
    GapsSkipped(enc, right, value);
  }

  lemma EqualsBehind(left: string, rest: string)
    requires AllGap(left)
    ensures var p := left + ("=" + rest); p != "" && !IsNameChar(p[0]) && p[0] as int < 0x80
  {
    if left != "" {
      assert IsGap(left[0]);
    }
  }

  /** A written attribute is read, whatever its gaps and quotes. */
  lemma AttrWritten(enc: Encoding, condense: bool, a: Attr, lay: AttrLayout, rest: string)
    requires NameOk(enc, a.name) && Whole(enc, a.value) && NoReference(a.value)
    requires AttrLayoutOk(a, lay) && TagRest(rest)
    ensures var p := WriteAttr(a, lay) + rest;
            && p != "" && IsNameStart(p[0]) && SkipWhite(enc, p) == p
            && ParseAttribute(enc, condense, Some(p)) == AttrResult(a, Some(rest), NoError)
  {
    var value := WriteValue(a.value, lay.quote) + rest;
    var after := lay.left + ("=" + (lay.right + value));
    var p := WriteAttr(a, lay) + rest;
    assert p == a.name + after by {
      hide Encode;
      GlueAttr(a.name, lay.left, lay.right, WriteValue(a.value, lay.quote), rest);
    }
    assert p[0] == a.name[0];
    assert Attr(a.name, a.value) == a;
    hide *;
    AttrLayoutParts(a, lay);
    NameParts(enc, a.name);
    EqualsBehind(lay.left, lay.right + value);
    NameIsRead(enc, a.name, after);
    ValueStart(a.value, lay.quote, rest);
    AttrStep(enc, condense, a.name, after);
    AfterNameGaps(enc, condense, a.name, lay.left, lay.right, value);
    ValueIsRead(enc, condense, a.name, a.value, lay.quote, rest);
  }

  lemma NameParts(enc: Encoding, name: string)
    requires NameOk(enc, name)
    ensures name != "" && IsNameStart(name[0])
  {}

  lemma AttrLayoutParts(a: Attr, lay: AttrLayout)
    requires AttrLayoutOk(a, lay)
    ensures AllGap(lay.left) && AllGap(lay.right) && AllGap(lay.before) && lay.before != ""
    ensures if lay.quote.Some? then lay.quote.value in {'\"', '\''} else BareOk(a.value)
  {}

  lemma GlueAttr(n: string, l: string, r: string, v: string, rest: string)
    ensures (n + (l + ("=" + (r + v)))) + rest == n + (l + ("=" + (r + (v + rest))))
  {
    Glue(n, l + ("=" + (r + v)), rest);
    Glue(l, "=" + (r + v), rest);
    Glue("=", r + v, rest);
    Glue(r, v, rest);
  }

  lemma WrittenStep(enc: Encoding, condense: bool, w: string, p: string, acc: seq<Attr>, a: Attr, rest: string)
    requires AllGap(w) && p != "" && IsNameStart(p[0]) && SkipWhite(enc, p) == p
    requires ParseAttribute(enc, condense, Some(p)) == AttrResult(a, Some(rest), NoError)
    requires rest != "" && forall i :: 0 <= i < |acc| ==> acc[i].name != a.name
    ensures AttributeStep(enc, condense, w + p, acc) == Go(a, rest)
  {
    hide SkipWhite, ParseAttribute, AttrNames, IsNameStart, First, IsGap, IsWhiteSpace;
    GapIsAllWhite(w);
    SkipWhiteRun(enc, w, p);
    NameStartIsNoMark(p[0]);
    FreshName(acc, a.name);
  }

  lemma AttrsRest(attrs: seq<Attr>, lays: seq<AttrLayout>, rest: string)
    requires |lays| == |attrs| && TagRest(rest)
    requires forall i :: 0 <= i < |attrs| ==> AttrLayoutOk(attrs[i], lays[i])
    ensures TagRest(WriteAttrs(attrs, lays) + rest)
  {
    hide WriteAttr, IsGap;
    if attrs != [] {
      assert AttrLayoutOk(attrs[0], lays[0]);
    }
  }

  lemma WriteAttrsStep(attrs: seq<Attr>, lays: seq<AttrLayout>, rest: string)
    requires |lays| == |attrs| && attrs != []
    ensures WriteAttrs(attrs, lays) + rest ==
            lays[0].before + (WriteAttr(attrs[0], lays[0]) + (WriteAttrs(attrs[1..], lays[1..]) + rest))
  {
    hide WriteAttr;
    Glue(lays[0].before, WriteAttr(attrs[0], lays[0]) + WriteAttrs(attrs[1..], lays[1..]), rest);
    Glue(WriteAttr(attrs[0], lays[0]), WriteAttrs(attrs[1..], lays[1..]), rest);
  }

  lemma FirstAttrOk(enc: Encoding, attrs: seq<Attr>, lays: seq<AttrLayout>, acc: seq<Attr>)
    requires attrs != [] && |lays| == |attrs| && AttrsOk(enc, acc + attrs)
    requires forall i :: 0 <= i < |attrs| ==> AttrLayoutOk(attrs[i], lays[i])
    ensures NameOk(enc, attrs[0].name) && Whole(enc, attrs[0].value) && NoReference(attrs[0].value)
    ensures AttrLayoutOk(attrs[0], lays[0]) && forall i :: 0 <= i < |acc| ==> acc[i].name != attrs[0].name
    ensures acc + attrs == acc + [attrs[0]] + attrs[1..]
    ensures forall i :: 0 <= i < |attrs[1..]| ==> AttrLayoutOk(attrs[1..][i], lays[1..][i])
  {
    NextAttrs(enc, attrs, acc);
    hide NameOk, Whole, NoReference, AttrLayoutOk;
  }

  /** The attributes of a tag are read in order, whatever gaps and quotes they are written with. */
  lemma {:induction false} AttrsWritten(enc: Encoding, condense: bool, attrs: seq<Attr>, lays: seq<AttrLayout>,
                                        acc: seq<Attr>, rest: string)
    requires |lays| == |attrs| && AttrsOk(enc, acc + attrs) && TagRest(rest)
    requires forall i :: 0 <= i < |attrs| ==> AttrLayoutOk(attrs[i], lays[i])
    ensures WriteAttrs(attrs, lays) + rest != "" && rest != ""
    ensures ParseAttributes(enc, condense, WriteAttrs(attrs, lays) + rest, acc) ==
            ParseAttributes(enc, condense, rest, acc + attrs)
    decreases |attrs|
  {
    hide *;
    RestIsSome(rest);
    if attrs == [] {
      NothingWritten(rest);
      assert acc + attrs == acc;
    } else {
      FirstAttrOk(enc, attrs, lays, acc);
      WriteAttrsStep(attrs, lays, rest);
      var tail := WriteAttrs(attrs[1..], lays[1..]) + rest;
      var w, p := lays[0].before, WriteAttr(attrs[0], lays[0]) + tail;
      AttrsRest(attrs[1..], lays[1..], rest);
      RestIsSome(tail);
      AttrLayoutParts(attrs[0], lays[0]);
      AttrWritten(enc, condense, attrs[0], lays[0], tail);
      WrittenStep(enc, condense, w, p, acc, attrs[0], tail);
      AttributesGo(enc, condense, w + p, acc, attrs[0], tail);
      AttrsWritten(enc, condense, attrs[1..], lays[1..], acc + [attrs[0]], rest);
    }
  }

  lemma RestIsSome(rest: string)
    requires TagRest(rest)
    ensures rest != ""
  {}

  lemma NothingWritten(rest: string)
    ensures WriteAttrs([], []) + rest == rest
  {}

  // ---- Tags ----

  lemma NameWritten(enc: Encoding, name: string, rest: string)
    requires NameOk(enc, name) && TagRest(rest)
    ensures ParseTagName(enc, "<" + (name + rest)) == Some((name, rest))
  {
    TagRestIsNoName(rest);
    NameIsRead(enc, name, rest);
    hide SkipWhite, NameLength, NameOk, IsNameChar, IsGap;
    var p := "<" + (name + rest);
    assert p[1..] == name + rest && (name + rest)[|name|..] == rest && (name + rest)[..|name|] == name;
    NotEmptyName(enc, name);
  }

  lemma NotEmptyName(enc: Encoding, name: string)
    requires NameOk(enc, name)
    ensures name != ""
  {}

  lemma ShortEnd(enc: Encoding, condense: bool, close: string, attrs: seq<Attr>, tail: string)
    requires AllGap(close)
    ensures var p := close + ("/>" + tail);
            p != "" && AttributeStep(enc, condense, p, attrs) == Stop(EmptyTag(attrs, tail))
  {
    hide SkipWhite, SkipWhiteSpace, ParseAttribute, AttrNames, First, AllGap;
    var s := "/>" + tail;
    assert s[2..] == tail;
    GapsSkipped(enc, close, s);
  }

  lemma OpenEnd(enc: Encoding, condense: bool, close: string, attrs: seq<Attr>, inner: string)
    requires AllGap(close)
    ensures var p := close + (">" + inner);
            p != "" && AttributeStep(enc, condense, p, attrs) == Stop(OpenTag(attrs, inner))
  {
    hide SkipWhite, SkipWhiteSpace, ParseAttribute, AttrNames, First, AllGap;
    var s := ">" + inner;
    assert s[1..] == inner;
    GapsSkipped(enc, close, s);
  }

  lemma EndTagWritten(enc: Encoding, e: Node, w: string, tail: string)
    requires e.Element? && AllGap(w)
    ensures ParseEndTag(enc, e, Some("</" + (e.name + (w + (">" + tail)))), NoError) == Parsed(e, Some(tail), NoError)
  {
    hide StringEqual, SkipWhiteSpace, AllGap;
    var mark, s := "</" + e.name, ">" + tail;
    var p := "</" + (e.name + (w + s));
    assert p == mark + (w + s);
    MarkAhead(mark, w + s);
    GapsSkipped(enc, w, s);
    assert s[1..] == tail;
  }

  lemma CloseIsRest(close: string, rest: string)
    requires AllGap(close) && rest != "" && rest[0] in {'/', '>'}
    ensures TagRest(close + rest)
  {
    if close != "" {
      assert IsGap(close[0]);
    }
  }

  // ---- Texts ----

  lemma {:induction false} PartsAreRead(enc: Encoding, parts: seq<string>, gaps: seq<string>, rest: string, acc: string,
                                        white: bool)
    requires parts != [] && |gaps| + 1 == |parts|
    requires forall i :: 0 <= i < |parts| ==> PartOk(enc, parts[i])
    requires forall i :: 0 <= i < |gaps| ==> gaps[i] != "" && AllGap(gaps[i])
    ensures ReadCondensed(enc, Some(WriteParts(parts, gaps) + rest), "<", acc, white) ==
            ReadCondensed(enc, Some(rest), "<", (if white then acc + " " else acc) + Joined(parts), false)
    decreases |parts|
  {
    hide *;
    PartParts(enc, parts[0]);
    var done := if white then acc + " " else acc;
    if |parts| == 1 {
      OnePart(parts, gaps);
      CondensedTight(enc, parts[0], rest, acc, white);
    } else {
      var more := WriteParts(parts[1..], gaps[1..]);
      FirstPart(parts, gaps, rest);
      CondensedTight(enc, parts[0], gaps[0] + (more + rest), acc, white);
      GapIsAllWhite(gaps[0]);
      CondensedSpaces(enc, gaps[0], more + rest, done + parts[0], false);
      PartsAreRead(enc, parts[1..], gaps[1..], rest, done + parts[0], true);
      assert done + parts[0] + " " + Joined(parts[1..]) == done + (parts[0] + (" " + Joined(parts[1..])));
    }
  }

  lemma PartParts(enc: Encoding, s: string)
    requires PartOk(enc, s)
    ensures Whole(enc, s) && NoReference(s) && Tight(s) && !(enc.Utf8? && StartsWithMark(s))
  {}

  lemma OnePart(parts: seq<string>, gaps: seq<string>)
    requires |parts| == 1 && gaps == []
    ensures WriteParts(parts, gaps) == Encode(parts[0]) && Joined(parts) == parts[0]
  {
    hide Encode;
  }

  lemma FirstPart(parts: seq<string>, gaps: seq<string>, rest: string)
    requires |parts| > 1 && |gaps| + 1 == |parts|
    ensures WriteParts(parts, gaps) + rest ==
            Encode(parts[0]) + (gaps[0] + (WriteParts(parts[1..], gaps[1..]) + rest))
    ensures Joined(parts) == parts[0] + (" " + Joined(parts[1..]))
  {
    hide Encode;
    Glue(Encode(parts[0]), gaps[0] + WriteParts(parts[1..], gaps[1..]), rest);
    Glue(gaps[0], WriteParts(parts[1..], gaps[1..]), rest);
  }

  lemma PartsStart(enc: Encoding, parts: seq<string>, gaps: seq<string>, rest: string)
    requires parts != [] && |gaps| + 1 == |parts| && PartOk(enc, parts[0])
    ensures var p := WriteParts(parts, gaps) + rest; p != "" && SkipWhite(enc, p) == p && p[0] != '<'
  {
    hide *;
    PartParts(enc, parts[0]);
    if |parts| == 1 {
      OnePart(parts, gaps);
      TightStart(enc, parts[0], rest);
    } else {
      FirstPart(parts, gaps, rest);
      TightStart(enc, parts[0], gaps[0] + (WriteParts(parts[1..], gaps[1..]) + rest));
    }
  }

  /** A text is read as its parts with one blank between them, without the gaps around it. */
  lemma TextWritten(enc: Encoding, parts: seq<string>, gaps: seq<string>, a: string, b: string, tail: string,
                    acc: seq<Node>)
    requires parts != [] && |gaps| + 1 == |parts| && !Blank(Joined(parts))
    requires forall i :: 0 <= i < |parts| ==> PartOk(enc, parts[i])
    requires forall i :: 0 <= i < |gaps| ==> gaps[i] != "" && AllGap(gaps[i])
    requires AllGap(a) && AllGap(b) && StartsTag(tail)
    ensures ReadValue(enc, true, Some(a + (WriteParts(parts, gaps) + (b + tail))), acc) ==
            ReadValue(enc, true, Some(tail), acc + [Text(Joined(parts), false)])
  {
    var s := Joined(parts);
    var p := WriteParts(parts, gaps) + (b + tail);
    assert |tail| > 1 && tail[0] == '<';
    assert Suffix(tail, p) by { hide WriteParts; }
    assert "" + s == s;
    hide *;
    PartsStart(enc, parts, gaps, b + tail);
    SkipIsNoSkip(enc, p);
    PartsAreRead(enc, parts, gaps, b + tail, "", false);
    GapIsAllWhite(a);
    GapIsAllWhite(b);
    CondensedWhite(enc, b, tail, s, false);
    ReadCondensedText(enc, p, p, tail, s);
    RunFromText(enc, true, p, s, tail);
    SkipWhiteRun(enc, a, p);
    SomethingLonger(a, p);
    ValueRun(enc, true, a + p, p, acc, s, tail);
  }

  lemma SomethingLonger(a: string, p: string)
    requires p != ""
    ensures a + p != ""
  {}

  lemma GapBefore(enc: Encoding, condense: bool, w: string, tail: string, acc: seq<Node>)
    requires AllGap(w) && StartsTag(tail)
    ensures ReadValue(enc, condense, Some(w + tail), acc) == ReadValue(enc, condense, Some(tail), acc)
  {
    hide ReadValue;
    GapIsAllWhite(w);
    ValueWhite(enc, condense, w, tail, acc);
  }

  // ---- Declarations ----

  lemma FieldAnyGap(enc: Encoding, condense: bool, field: string, v: string, left: string, right: string, rest: string)
    requires field in {"version", "encoding", "standalone"} && FieldOk(enc, v)
    requires AllGap(left) && AllGap(right) && rest != ""
    ensures ParseAttribute(enc, condense, Some(field + (left + ("=" + (right + ("\"" + (v + "\"" + rest))))))) ==
            AttrResult(Attr(field, v), Some(rest), NoError)
  {
    FieldNames(enc, field);
    hide *;
    var s := v + "\"" + rest;
    QuoteStarts(s);
    EqualsBehind(left, right + ("\"" + s));
    AttrStep(enc, condense, field, left + ("=" + (right + ("\"" + s))));
    AfterNameGaps(enc, condense, field, left, right, "\"" + s);
    AttrValueStep(enc, condense, field, '\"', s);
    ReadFieldValue(enc, condense, v, rest);
  }

  lemma QuoteStarts(s: string)
    ensures var p := "\"" + s; p != "" && p[0] as int < 0x80 && !IsGap(p[0])
  {}

  /** What one pass of the declaration loop does, once white space is skipped. */
  function LoopNext(enc: Encoding, condense: bool, q: string, d: Node): (Ptr, Node)
    requires d.Declaration?
  {
    if StringEqual(q, "version", true) then
      var a := ParseAttribute(enc, condense, Some(q)); (a.rest, d.(version := CString(a.attr.value)))
    else if StringEqual(q, "encoding", true) then
      var a := ParseAttribute(enc, condense, Some(q)); (a.rest, d.(encoding := CString(a.attr.value)))
    else if StringEqual(q, "standalone", true) then
      var a := ParseAttribute(enc, condense, Some(q)); (a.rest, d.(standalone := CString(a.attr.value)))
    else (Some(q[JunkLength(q)..]), d)
  }

  lemma LoopPass(enc: Encoding, condense: bool, p: string, d: Node)
    requires d.Declaration? && p != "" && p[0] != '>'
    ensures var next := LoopNext(enc, condense, SkipWhite(enc, p), d);
            ParseDeclarationLoop(enc, condense, Some(p), d) ==
            if next.0.None? then Parsed(next.1, None, NoError) else ParseDeclarationLoop(enc, condense, next.0, next.1)
  {
    hide SkipWhite, ParseAttribute, StringEqual, JunkLength, CString, Suffix, Behind;
  }

  lemma LoopGap(enc: Encoding, condense: bool, w: string, q: string, d: Node)
    requires d.Declaration? && AllGap(w) && q != "" && SkipWhite(enc, q) == q && q[0] != '>'
    ensures ParseDeclarationLoop(enc, condense, Some(w + q), d) == ParseDeclarationLoop(enc, condense, Some(" " + q), d)
  {
    assert (w + q)[0] != '>' && (" " + q)[0] != '>';
    hide *;
    GapIsAllWhite(w);
    SkipWhiteRun(enc, w, q);
    SkipBlank(enc, q);
    LoopPass(enc, condense, w + q, d);
    LoopPass(enc, condense, " " + q, d);
  }

  lemma GlueField(b: string, n: string, l: string, r: string, v: string, rest: string)
    ensures (b + (n + (l + ("=" + (r + ("\"" + (v + "\""))))))) + rest ==
            b + (n + (l + ("=" + (r + ("\"" + (v + "\"" + rest))))))
  {
    var x := "\"" + (v + "\"");
    Glue(b, n + (l + ("=" + (r + x))), rest);
    Glue(n, l + ("=" + (r + x)), rest);
    Glue(l, "=" + (r + x), rest);
    Glue("=", r + x, rest);
    Glue(r, x, rest);
    Glue("\"", v + "\"", rest);
  }

  /** One written field sets its part of the declaration. */
  lemma FieldWritten(enc: Encoding, condense: bool, d: Node, field: string, v: string, lay: AttrLayout, rest: string)
    requires d.Declaration? && field in {"version", "encoding", "standalone"} && FieldOk(enc, v) && NulFree(v)
    requires AllGap(lay.before) && AllGap(lay.left) && AllGap(lay.right) && rest != ""
    requires v == "" ==>
               (if field == "version" then d.version
                else if field == "encoding" then d.encoding
                else d.standalone) == ""
    ensures ParseDeclarationLoop(enc, condense, Some(WriteField(field, v, lay) + rest), d) ==
            ParseDeclarationLoop(enc, condense, Some(rest),
              if field == "version" then d.(version := v)
              else if field == "encoding" then d.(encoding := v)
              else d.(standalone := v))
  {
    if v == "" {
      assert WriteField(field, v, lay) + rest == rest;
      hide *;
    } else {
      var q := field + (lay.left + ("=" + (lay.right + ("\"" + (v + "\"" + rest)))));
      assert WriteField(field, v, lay) + rest == lay.before + q by {
        GlueField(lay.before, field, lay.left, lay.right, v, rest);
      }
      hide *;
      CStringIs(v);
      FieldAhead(enc, field, lay.left + ("=" + (lay.right + ("\"" + (v + "\"" + rest)))));
      OneField(q, field);
      FieldAnyGap(enc, condense, field, v, lay.left, lay.right, rest);
      LoopGap(enc, condense, lay.before, q, d);
      LoopStep(enc, condense, q, d, field, AttrResult(Attr(field, v), Some(rest), NoError), rest);
    }
  }

  lemma DeclarationEnd(enc: Encoding, condense: bool, d: Node, close: string, tail: string)
    requires d.Declaration? && AllGap(close)
    ensures ParseDeclarationLoop(enc, condense, Some(close + ("?>" + tail)), d) == Parsed(d, Some(tail), NoError)
  {
    MarkStays(enc, tail);
    hide *;
    LoopGap(enc, condense, close, "?>" + tail, d);
    LoopJunk(enc, condense, d, tail);
    LoopClose(enc, condense, d, tail);
  }

  lemma MarkStays(enc: Encoding, tail: string)
    ensures var q := "?>" + tail; q != "" && SkipWhite(enc, q) == q && q[0] != '>'
  {
    SkipWhiteStays(enc, "?>" + tail);
  }

  lemma GlueDeclaration(f: string, g: string, h: string, c: string, tail: string)
    ensures ("<?xml" + (f + (g + (h + (c + "?>"))))) + tail == "<?xml" + (f + (g + (h + (c + ("?>" + tail)))))
  {
    Glue("<?xml", f + (g + (h + (c + "?>"))), tail);
    Glue(f, g + (h + (c + "?>")), tail);
    Glue(g, h + (c + "?>"), tail);
    Glue(h, c + "?>", tail);
    Glue(c, "?>", tail);
  }

  lemma WriteDeclaration(enc: Encoding, d: Node, lay: Layout)
    requires d.Declaration? && LayoutOk(enc, d, lay)
    ensures Write(enc, d, lay) ==
            "<?xml" + (WriteField("version", d.version, lay.attrs[0]) +
              (WriteField("encoding", d.encoding, lay.attrs[1]) +
                (WriteField("standalone", d.standalone, lay.attrs[2]) + (lay.close + "?>"))))
  {
    hide WriteField, AllGap;
  }

  lemma DeclarationParts(enc: Encoding, d: Node, lay: Layout)
    requires d.Declaration? && Fit(enc, d) && LayoutOk(enc, d, lay)
    ensures FieldOk(enc, d.version) && FieldOk(enc, d.encoding) && FieldOk(enc, d.standalone)
    ensures NulFree(d.version) && NulFree(d.encoding) && NulFree(d.standalone)
    ensures |lay.attrs| == 3 && AllGap(lay.close)
    ensures AllGap(lay.attrs[0].before) && AllGap(lay.attrs[0].left) && AllGap(lay.attrs[0].right)
    ensures AllGap(lay.attrs[1].before) && AllGap(lay.attrs[1].left) && AllGap(lay.attrs[1].right)
    ensures AllGap(lay.attrs[2].before) && AllGap(lay.attrs[2].left) && AllGap(lay.attrs[2].right)
    ensures !Plain(d) && forall tail :: After(d, tail) == Some(tail)
  {
    hide FieldOk, NulFree, AllGap;
  }

  lemma DeclarationWritten(enc: Encoding, d: Node, lay: Layout, tail: string)
    requires d.Declaration? && Fit(enc, d) && LayoutOk(enc, d, lay)
    ensures IsRead(enc, true, d, Write(enc, d, lay) + tail, tail)
  {
    hide *;
    DeclarationParts(enc, d, lay);
    var f, g := WriteField("version", d.version, lay.attrs[0]), WriteField("encoding", d.encoding, lay.attrs[1]);
    var h, end := WriteField("standalone", d.standalone, lay.attrs[2]), lay.close + ("?>" + tail);
    var p := Write(enc, d, lay) + tail;
    WriteDeclaration(enc, d, lay);
    GlueDeclaration(f, g, h, lay.close, tail);
    KindsOfMarks(f + (g + (h + end)));
    DeclarationStart(enc, true, f + (g + (h + end)));
    EndIsLong(lay.close, tail);
    SomethingLonger(h, end);
    SomethingLonger(g, h + end);
    FieldWritten(enc, true, Declaration("", "", ""), "version", d.version, lay.attrs[0], g + (h + end));
    FieldWritten(enc, true, Declaration(d.version, "", ""), "encoding", d.encoding, lay.attrs[1], h + end);
    FieldWritten(enc, true, Declaration(d.version, d.encoding, ""), "standalone", d.standalone, lay.attrs[2], end);
    DeclarationEnd(enc, true, d, lay.close, tail);
    NodeByKind(enc, true, p);
    XmlStarts(f + (g + (h + end)));
    ReadBy(enc, true, d, p, DeclarationKind, Parsed(d, Some(tail), NoError), tail);
  }

  lemma EndIsLong(close: string, tail: string)
    ensures close + ("?>" + tail) != ""
  {}

  lemma XmlStarts(rest: string)
    ensures StartsTag("<?xml" + rest)
  {}

  // ---- Nodes ----

  lemma LeafIsCore(enc: Encoding, n: Node, lay: Layout)
    requires !Plain(n) && !n.Element? && !n.Declaration? && Fit(enc, n) && LayoutOk(enc, n, lay)
    ensures Write(enc, n, lay) == Core(Style("", ""), n, 0)
    ensures NodeOk(enc, true, Style("", ""), false, n)
  {
    hide KindOf, Lacks, NulFree;
  }

  lemma WriteElement(enc: Encoding, n: Node, lay: Layout, tail: string)
    requires n.Element? && LayoutOk(enc, n, lay)
    ensures Write(enc, n, lay) + tail ==
            "<" + (n.name + (WriteAttrs(n.attrs, lay.attrs) + (lay.close +
              (if lay.short then "/>" + tail
               else ">" + (WriteNodes(enc, n.kids, lay.gaps, lay.kids) +
                           ("</" + (n.name + (lay.end + (">" + tail)))))))))
  {
    var a, c := WriteAttrs(n.attrs, lay.attrs), lay.close;
    if lay.short {
      hide WriteAttrs, WriteNodes, AllGap;
      Glue("<", n.name + (a + (c + "/>")), tail);
      Glue(n.name, a + (c + "/>"), tail);
      Glue(a, c + "/>", tail);
      Glue(c, "/>", tail);
    } else {
      var k := WriteNodes(enc, n.kids, lay.gaps, lay.kids);
      assert Write(enc, n, lay) == "<" + (n.name + (a + (c + (">" + (k + ("</" + (n.name + (lay.end + ">")))))))) by {
        hide WriteAttrs, WriteNodes, AllGap;
      }
      hide *;
      var e := "</" + (n.name + (lay.end + ">"));
      Glue("<", n.name + (a + (c + (">" + (k + e)))), tail);
      Glue(n.name, a + (c + (">" + (k + e))), tail);
      Glue(a, c + (">" + (k + e)), tail);
      Glue(c, ">" + (k + e), tail);
      Glue(">", k + e, tail);
      Glue(k, e, tail);
      Glue("</", n.name + (lay.end + ">"), tail);
      Glue(n.name, lay.end + ">", tail);
      Glue(lay.end, ">", tail);
    }
  }

  lemma FitElement(enc: Encoding, n: Node, lay: Layout)
    requires n.Element? && Fit(enc, n) && LayoutOk(enc, n, lay)
    ensures NameOk(enc, n.name) && AttrsOk(enc, n.attrs) && Apart(n.kids) && forall k :: k in n.kids ==> Fit(enc, k)
    ensures |lay.attrs| == |n.attrs| && forall i :: 0 <= i < |n.attrs| ==> AttrLayoutOk(n.attrs[i], lay.attrs[i])
    ensures AllGap(lay.close) && AllGap(lay.end) && (lay.short ==> n.kids == [])
    ensures KidsLaidOut(enc, n.kids, lay.gaps, lay.kids)
    ensures !Plain(n) && forall tail :: After(n, tail) == Some(tail)
  {
    hide GoodName, NameOk, Whole, NoReference, AttrLayoutOk, AllGap, Apart;
    GoodNameOk(enc, n.name);
    forall i | 0 <= i < |n.attrs|
      ensures AttrOk(enc, n.attrs[i])
    {
      GoodNameOk(enc, n.attrs[i].name);
    }
    hide AttrOk;
  }

  /** The layouts fit the nodes, one by one, and there is one more gap than nodes. */
  predicate KidsLaidOut(enc: Encoding, nodes: seq<Node>, gaps: seq<string>, lays: seq<Layout>) {
    && |gaps| == |nodes| + 1 && (forall i :: 0 <= i < |gaps| ==> AllGap(gaps[i]))
    && |lays| == |nodes| && forall i :: 0 <= i < |nodes| ==> LayoutOk(enc, nodes[i], lays[i])
  }

  lemma FirstLaidOut(enc: Encoding, nodes: seq<Node>, gaps: seq<string>, lays: seq<Layout>)
    requires nodes != [] && KidsLaidOut(enc, nodes, gaps, lays)
    ensures |gaps| > 0 && |lays| > 0 && LayoutOk(enc, nodes[0], lays[0]) && AllGap(gaps[0])
    ensures KidsLaidOut(enc, nodes[1..], gaps[1..], lays[1..])
  {
    hide LayoutOk, AllGap;
  }

  lemma NoneLaidOut(enc: Encoding, gaps: seq<string>, lays: seq<Layout>)
    requires KidsLaidOut(enc, [], gaps, lays)
    ensures |gaps| == 1 && AllGap(gaps[0]) && lays == [] && WriteNodes(enc, [], gaps, lays) == gaps[0]
  {
    hide AllGap;
  }

  lemma LaidOut(enc: Encoding, nodes: seq<Node>, gaps: seq<string>, lays: seq<Layout>)
    requires KidsLaidOut(enc, nodes, gaps, lays)
    ensures |gaps| == |nodes| + 1 && |lays| == |nodes|
    ensures forall i :: 0 <= i < |nodes| ==> LayoutOk(enc, nodes[i], lays[i])
  {
    hide LayoutOk, AllGap;
  }

  lemma WriteNodesStep(enc: Encoding, nodes: seq<Node>, gaps: seq<string>, lays: seq<Layout>, end: string)
    requires nodes != [] && |gaps| == |nodes| + 1 && |lays| == |nodes|
    requires forall i :: 0 <= i < |nodes| ==> LayoutOk(enc, nodes[i], lays[i])
    ensures forall i :: 0 <= i < |nodes[1..]| ==> LayoutOk(enc, nodes[1..][i], lays[1..][i])
    ensures WriteNodes(enc, nodes, gaps, lays) + end ==
            gaps[0] + (Write(enc, nodes[0], lays[0]) + (WriteNodes(enc, nodes[1..], gaps[1..], lays[1..]) + end))
  {
    assert forall i :: 0 <= i < |nodes[1..]| ==> nodes[1..][i] == nodes[i + 1] && lays[1..][i] == lays[i + 1];
    hide Write, LayoutOk;
    var w, more := Write(enc, nodes[0], lays[0]), WriteNodes(enc, nodes[1..], gaps[1..], lays[1..]);
    assert WriteNodes(enc, nodes, gaps, lays) == gaps[0] + (w + more);
    hide WriteNodes;
    Glue(gaps[0], w + more, end);
    Glue(w, more, end);
  }

  lemma WrittenStarts(enc: Encoding, n: Node, lay: Layout, tail: string)
    requires !Plain(n) && Fit(enc, n) && LayoutOk(enc, n, lay)
    ensures var p := Write(enc, n, lay) + tail;
            StartsTag(p) && (p[1] == '/' ==> LikeEndTag(n))
  {
    hide WriteAttrs, WriteNodes, WriteField, Lacks, KindOf, AllGap, Apart, AttrLayoutOk, Whole, NoReference;
    if n.Element? {
      GoodNameOk(enc, n.name);
      NameStartIsNoMark(n.name[0]);
    }
  }

  lemma ElementAhead(enc: Encoding, name: string, rest: string)
    requires NameOk(enc, name)
    ensures StartsTag("<" + (name + rest)) && KindOf("<" + (name + rest)) == ElementKind
  {
    var c, r := name[0], name[1..] + rest;
    assert "<" + (name + rest) == "<" + [c] + r;
    KindOfElement(c, r);
    hide KindOf;
  }

  lemma ShortIsRead(enc: Encoding, n: Node, lay: Layout, tail: string)
    requires n.Element? && Fit(enc, n) && LayoutOk(enc, n, lay) && lay.short
    ensures ParseElement(enc, true, Write(enc, n, lay) + tail) == Parsed(n, Some(tail), NoError)
  {
    hide *;
    FitElement(enc, n, lay);
    WriteElement(enc, n, lay, tail);
    var a, c := WriteAttrs(n.attrs, lay.attrs), lay.close + ("/>" + tail);
    var p := "<" + (n.name + (a + c));
    StartsLess(n.name + (a + c));
    CloseIsRest(lay.close, "/>" + tail);
    AttrsRest(n.attrs, lay.attrs, c);
    NameWritten(enc, n.name, a + c);
    assert [] + n.attrs == n.attrs;
    AttrsWritten(enc, true, n.attrs, lay.attrs, [], c);
    ShortEnd(enc, true, lay.close, n.attrs, tail);
    AttributesStop(enc, true, c, n.attrs);
    ElementEmpty(enc, true, p, n.name, a + c, n.attrs, tail);
    SameElement(n);
  }

  lemma SameElement(n: Node)
    requires n.Element?
    ensures n == Element(n.name, n.attrs, n.kids)
  {}

  lemma StartsLess(rest: string)
    ensures var p := "<" + rest; p != "" && p[0] == '<'
  {}

  lemma LongIsRead(enc: Encoding, n: Node, lay: Layout, tail: string)
    requires n.Element? && Fit(enc, n) && LayoutOk(enc, n, lay) && !lay.short
    requires ReadValue(enc, true, Some(WriteNodes(enc, n.kids, lay.gaps, lay.kids) +
                                       ("</" + (n.name + (lay.end + (">" + tail))))), []) ==
             Content(n.kids, Some("</" + (n.name + (lay.end + (">" + tail)))), NoError)
    ensures ParseElement(enc, true, Write(enc, n, lay) + tail) == Parsed(n, Some(tail), NoError)
  {
    hide *;
    FitElement(enc, n, lay);
    LaidOut(enc, n.kids, lay.gaps, lay.kids);
    WriteElement(enc, n, lay, tail);
    var inner := WriteNodes(enc, n.kids, lay.gaps, lay.kids) + ("</" + (n.name + (lay.end + (">" + tail))));
    var a, c := WriteAttrs(n.attrs, lay.attrs), lay.close + (">" + inner);
    var p := "<" + (n.name + (a + c));
    StartsLess(n.name + (a + c));
    CloseIsRest(lay.close, ">" + inner);
    AttrsRest(n.attrs, lay.attrs, c);
    NameWritten(enc, n.name, a + c);
    assert [] + n.attrs == n.attrs;
    AttrsWritten(enc, true, n.attrs, lay.attrs, [], c);
    OpenEnd(enc, true, lay.close, n.attrs, inner);
    AttributesStop(enc, true, c, n.attrs);
    ElementOpen(enc, true, p, n.name, a + c, n.attrs, inner);
    SameElement(n);
    EndTagWritten(enc, n, lay.end, tail);
  }

  lemma FitKids(enc: Encoding, kids: seq<Node>)
    requires kids != [] && Apart(kids) && forall k :: k in kids ==> Fit(enc, k)
    ensures Fit(enc, kids[0]) && Apart(kids[1..]) && forall k :: k in kids[1..] ==> Fit(enc, k)
    ensures (Plain(kids[0]) && |kids| > 1 ==> !Plain(kids[1])) && !LikeEndTag(kids[0])
  {
    hide Fit;
    assert kids[0] in kids;
    assert forall i :: 0 <= i < |kids[1..]| ==> kids[1..][i] == kids[i + 1];
  }

  lemma PlainParts(enc: Encoding, n: Node, lay: Layout)
    requires Plain(n) && Fit(enc, n) && LayoutOk(enc, n, lay)
    ensures lay.parts != [] && |lay.gaps| + 1 == |lay.parts| && Joined(lay.parts) == n.text
    ensures forall i :: 0 <= i < |lay.parts| ==> PartOk(enc, lay.parts[i])
    ensures forall i :: 0 <= i < |lay.gaps| ==> lay.gaps[i] != "" && AllGap(lay.gaps[i])
    ensures Write(enc, n, lay) == WriteParts(lay.parts, lay.gaps) && n == Text(n.text, false) && !Blank(n.text)
  {
    var i :| 0 <= i < |n.text| && !IsGap(n.text[i]);
    GapIsWhite(n.text[i]);
    hide PartOk, AllGap, Joined, IsGap, IsWhiteSpace;
  }

  /** What follows a text: a gap and then a tag. */
  lemma TagBehind(enc: Encoding, kids: seq<Node>, gaps: seq<string>, lays: seq<Layout>, end: string)
    returns (c: string, y: string)
    requires KidsLaidOut(enc, kids, gaps, lays) && (kids != [] ==> Fit(enc, kids[0]) && !Plain(kids[0]))
    requires StartsTag(end)
    ensures |gaps| == |kids| + 1 && |lays| == |kids|
    ensures forall i :: 0 <= i < |kids| ==> LayoutOk(enc, kids[i], lays[i])
    ensures WriteNodes(enc, kids, gaps, lays) + end == c + y && AllGap(c) && StartsTag(y)
  {
    hide *;
    LaidOut(enc, kids, gaps, lays);
    if kids == [] {
      NoneLaidOut(enc, gaps, lays);
      c, y := gaps[0], end;
    } else {
      FirstLaidOut(enc, kids, gaps, lays);
      WriteNodesStep(enc, kids, gaps, lays, end);
      var more := WriteNodes(enc, kids[1..], gaps[1..], lays[1..]) + end;
      WrittenStarts(enc, kids[0], lays[0], more);
      c, y := gaps[0], Write(enc, kids[0], lays[0]) + more;
    }
  }

  lemma EndIsTag(end: string)
    requires StartsEnd(end)
    ensures StartsTag(end)
  {}

  lemma WrittenNode(enc: Encoding, w: string, p: string, acc: seq<Node>, n: Node, tail: string)
    requires AllGap(w) && IsRead(enc, true, n, p, tail) && tail != "" && StartsTag(p) && p[1] != '/'
    ensures ReadValue(enc, true, Some(w + p), acc) == ReadValue(enc, true, Some(tail), acc + [n])
  {
    hide *;
    GapBefore(enc, true, w, p, acc);
    NodeValue(enc, true, p, acc, n, tail);
  }

  lemma WrittenEnd(enc: Encoding, end: string, acc: seq<Node>)
    requires StartsEnd(end)
    ensures ReadValue(enc, true, Some(end), acc) == Content(acc, Some(end), NoError)
  {
    hide ReadValue, SkipWhite;
    SkipWhiteStays(enc, end);
    ValueEnd(enc, true, end, end, acc);
  }

  /** The children of an element are read in order up to the next tag, whatever gaps stand between them. */
  lemma {:induction false} KidsAhead(enc: Encoding, kids: seq<Node>, gaps: seq<string>, lays: seq<Layout>,
                                     end: string, acc: seq<Node>)
    requires Apart(kids) && (forall k :: k in kids ==> Fit(enc, k)) && KidsLaidOut(enc, kids, gaps, lays)
    requires StartsTag(end)
    ensures |gaps| == |kids| + 1 && |lays| == |kids|
    ensures forall i :: 0 <= i < |kids| ==> LayoutOk(enc, kids[i], lays[i])
    ensures ReadValue(enc, true, Some(WriteNodes(enc, kids, gaps, lays) + end), acc) ==
            ReadValue(enc, true, Some(end), acc + kids)
    decreases kids, 0
  {
    hide *;
    LaidOut(enc, kids, gaps, lays);
    if kids == [] {
      NoneLaidOut(enc, gaps, lays);
      GapBefore(enc, true, gaps[0], end, acc);
      assert acc + kids == acc;
    } else {
      var n, w := kids[0], gaps[0];
      FitKids(enc, kids);
      FirstLaidOut(enc, kids, gaps, lays);
      WriteNodesStep(enc, kids, gaps, lays, end);
      var more := WriteNodes(enc, kids[1..], gaps[1..], lays[1..]) + end;
      assert acc + [n] + kids[1..] == acc + kids;
      KidsAhead(enc, kids[1..], gaps[1..], lays[1..], end, acc + [n]);
      if Plain(n) {
        SecondFits(enc, kids);
        var c, y := TagBehind(enc, kids[1..], gaps[1..], lays[1..], end);
        PlainParts(enc, n, lays[0]);
        TextWritten(enc, lays[0].parts, lays[0].gaps, w, c, y, acc);
        GapBefore(enc, true, c, y, acc + [n]);
      } else {
        var p := Write(enc, n, lays[0]) + more;
        NodeWritten(enc, n, lays[0], more);
        WrittenStarts(enc, n, lays[0], more);
        MoreIsSome(WriteNodes(enc, kids[1..], gaps[1..], lays[1..]), end);
        WrittenNode(enc, w, p, acc, n, more);
      }
    }
  }

  /** The children of an element are read in order up to its end tag. */
  lemma KidsWritten(enc: Encoding, kids: seq<Node>, gaps: seq<string>, lays: seq<Layout>, end: string, acc: seq<Node>)
    requires Apart(kids) && (forall k :: k in kids ==> Fit(enc, k)) && KidsLaidOut(enc, kids, gaps, lays)
    requires StartsEnd(end)
    ensures |gaps| == |kids| + 1 && |lays| == |kids|
    ensures forall i :: 0 <= i < |kids| ==> LayoutOk(enc, kids[i], lays[i])
    ensures ReadValue(enc, true, Some(WriteNodes(enc, kids, gaps, lays) + end), acc) ==
            Content(acc + kids, Some(end), NoError)
    decreases kids, 1
  {
    hide *;
    EndIsTag(end);
    KidsAhead(enc, kids, gaps, lays, end, acc);
    WrittenEnd(enc, end, acc + kids);
  }

  lemma MoreIsSome(a: string, end: string)
    requires StartsTag(end)
    ensures a + end != ""
  {}

  lemma SecondFits(enc: Encoding, kids: seq<Node>)
    requires kids != [] && (Plain(kids[0]) && |kids| > 1 ==> !Plain(kids[1])) && Plain(kids[0])
    requires forall k :: k in kids ==> Fit(enc, k)
    ensures kids[1..] != [] ==> Fit(enc, kids[1..][0]) && !Plain(kids[1..][0])
  {
    hide Fit;
    if |kids| > 1 {
      assert kids[1] in kids;
    }
  }

  /** A node is read in whatever layout it is written. */
  lemma {:induction false} NodeWritten(enc: Encoding, n: Node, lay: Layout, tail: string)
    requires !Plain(n) && Fit(enc, n) && LayoutOk(enc, n, lay)
    ensures IsRead(enc, true, n, Write(enc, n, lay) + tail, tail)
    decreases n, 1
  {
    hide *;
    var p := Write(enc, n, lay) + tail;
    if n.Element? {
      FitElement(enc, n, lay);
      if lay.short {
        ShortIsRead(enc, n, lay, tail);
      } else {
        var end := "</" + (n.name + (lay.end + (">" + tail)));
        EndAhead(n.name + (lay.end + (">" + tail)));
        KidsWritten(enc, n.kids, lay.gaps, lay.kids, end, []);
        assert [] + n.kids == n.kids;
        LongIsRead(enc, n, lay, tail);
      }
      WriteElement(enc, n, lay, tail);
      ElementAhead(enc, n.name, WriteAttrs(n.attrs, lay.attrs) + (lay.close +
        (if lay.short then "/>" + tail
         else ">" + (WriteNodes(enc, n.kids, lay.gaps, lay.kids) + ("</" + (n.name + (lay.end + (">" + tail))))))));
      NodeByKind(enc, true, p);
      ReadBy(enc, true, n, p, ElementKind, Parsed(n, Some(tail), NoError), tail);
    } else if n.Declaration? {
      DeclarationWritten(enc, n, lay, tail);
    } else {
      LeafIsCore(enc, n, lay);
      LeafIsRead(enc, true, Style("", ""), false, n, 0, tail);
    }
  }

  lemma EndAhead(rest: string)
    ensures StartsEnd("</" + rest)
  {}

  // ---- Documents ----

  /** The nodes of a document, each under the encoding in force when it is read; text has no place there. */
  predicate NodesFit(enc: Encoding, nodes: seq<Node>)
    decreases nodes
  {
    nodes == [] || (!Plain(nodes[0]) && Fit(enc, nodes[0]) && NodesFit(NextEncoding(enc, nodes[0]), nodes[1..]))
  }

  predicate NodesLaidOut(enc: Encoding, nodes: seq<Node>, gaps: seq<string>, lays: seq<Layout>)
    decreases nodes
  {
    && |gaps| == |nodes| + 1 && |lays| == |nodes| && AllGap(gaps[0])
    && (nodes == [] || (LayoutOk(enc, nodes[0], lays[0]) &&
                        NodesLaidOut(NextEncoding(enc, nodes[0]), nodes[1..], gaps[1..], lays[1..])))
  }

  /** A document with gaps before, between and behind its nodes. */
  function WriteDocument(enc: Encoding, nodes: seq<Node>, gaps: seq<string>, lays: seq<Layout>): string
    requires NodesLaidOut(enc, nodes, gaps, lays)
    decreases nodes
  {
    if nodes == [] then gaps[0]
    else gaps[0] + (Write(enc, nodes[0], lays[0]) +
                    WriteDocument(NextEncoding(enc, nodes[0]), nodes[1..], gaps[1..], lays[1..]))
  }

  lemma FirstNodeFits(enc: Encoding, nodes: seq<Node>, gaps: seq<string>, lays: seq<Layout>)
    requires nodes != [] && NodesFit(enc, nodes) && NodesLaidOut(enc, nodes, gaps, lays)
    ensures !Plain(nodes[0]) && Fit(enc, nodes[0]) && NodesFit(NextEncoding(enc, nodes[0]), nodes[1..])
    ensures |gaps| == |nodes| + 1 && |lays| == |nodes| && AllGap(gaps[0]) && LayoutOk(enc, nodes[0], lays[0])
    ensures NodesLaidOut(NextEncoding(enc, nodes[0]), nodes[1..], gaps[1..], lays[1..])
    ensures WriteDocument(enc, nodes, gaps, lays) ==
            gaps[0] + (Write(enc, nodes[0], lays[0]) +
                       WriteDocument(NextEncoding(enc, nodes[0]), nodes[1..], gaps[1..], lays[1..]))
  {
    hide Fit, LayoutOk, Write, NextEncoding, AllGap;
  }

  lemma NoNodes(enc: Encoding, condense: bool, gaps: seq<string>, lays: seq<Layout>, acc: seq<Node>)
    requires NodesLaidOut(enc, [], gaps, lays)
    ensures var r := ParseNodes(enc, condense, SkipWhiteSpace(enc, Some(WriteDocument(enc, [], gaps, lays))), acc);
            r.kids == acc && r.err == NoError
  {
    GapIsAllWhite(gaps[0]);
    SkipWhiteRun(enc, gaps[0], "");
    assert gaps[0] + "" == gaps[0];
  }

  lemma TagSkipped(enc: Encoding, w: string, p: string)
    requires AllGap(w) && StartsTag(p)
    ensures SkipWhiteSpace(enc, Some(w + p)) == Some(p)
  {
    GapIsAllWhite(w);
    SkipWhiteRun(enc, w, p);
    SkipWhiteStays(enc, p);
    hide SkipWhite;
  }

  lemma NothingMore(enc: Encoding, condense: bool, n: Node, more: string, acc: seq<Node>)
    requires !Plain(n) && SkipWhiteSpace(enc, After(n, more)).None?
    ensures var r := ParseNodes(enc, condense, SkipWhiteSpace(enc, Some(more)), acc); r.kids == acc && r.err == NoError
    ensures more == ""
  {}

  lemma MoreBehind(n: Node, more: string)
    ensures After(n, more) == Some(more) || (After(n, more) == None && more == "")
  {}

  lemma NodeStep(enc: Encoding, condense: bool, w: string, p: string, acc: seq<Node>, n: Node, more: string)
    requires AllGap(w) && IsRead(enc, condense, n, p, more) && !Plain(n)
    ensures var enc' := NextEncoding(enc, n);
            var r := ParseNodes(enc, condense, SkipWhiteSpace(enc, Some(w + p)), acc);
            var s := ParseNodes(enc', condense, SkipWhiteSpace(enc', Some(more)), acc + [n]);
            r.kids == s.kids && r.err == s.err
  {
    var enc' := NextEncoding(enc, n);
    hide *;
    ReadIsTag(enc, condense, n, p, more);
    TagSkipped(enc, w, p);
    DocumentStep(enc, condense, p, acc, n, more);
    MoreBehind(n, more);
    if SkipWhiteSpace(enc', After(n, more)).None? {
      NothingMore(enc', condense, n, more, acc + [n]);
    }
  }

  /** Top-level nodes are read in order, whatever gaps stand before, between and behind them. */
  lemma {:induction false} NodesWritten(enc: Encoding, nodes: seq<Node>, gaps: seq<string>, lays: seq<Layout>,
                                        acc: seq<Node>)
    requires NodesFit(enc, nodes) && NodesLaidOut(enc, nodes, gaps, lays)
    ensures var r := ParseNodes(enc, true, SkipWhiteSpace(enc, Some(WriteDocument(enc, nodes, gaps, lays))), acc);
            r.kids == acc + nodes && r.err == NoError
    decreases nodes
  {
    hide *;
    if nodes == [] {
      NoNodes(enc, true, gaps, lays, acc);
      assert acc + nodes == acc;
    } else {
      FirstNodeFits(enc, nodes, gaps, lays);
      var n, enc' := nodes[0], NextEncoding(enc, nodes[0]);
      var more := WriteDocument(enc', nodes[1..], gaps[1..], lays[1..]);
      NodeWritten(enc, n, lays[0], more);
      NodeStep(enc, true, gaps[0], Write(enc, n, lays[0]) + more, acc, n, more);
      NodesWritten(enc', nodes[1..], gaps[1..], lays[1..], acc + [n]);
      assert acc + [n] + nodes[1..] == acc + nodes;
    }
  }

  lemma DocumentStarts(enc: Encoding, nodes: seq<Node>, gaps: seq<string>, lays: seq<Layout>)
    requires nodes != [] && NodesFit(enc, nodes) && NodesLaidOut(enc, nodes, gaps, lays)
    ensures var p := WriteDocument(enc, nodes, gaps, lays); p != "" && p[0] as int < 0x80
  {
    hide *;
    FirstNodeFits(enc, nodes, gaps, lays);
    var more := WriteDocument(NextEncoding(enc, nodes[0]), nodes[1..], gaps[1..], lays[1..]);
    WrittenStarts(enc, nodes[0], lays[0], more);
    GapThenTag(gaps[0], Write(enc, nodes[0], lays[0]) + more);
  }

  lemma GapThenTag(w: string, p: string)
    requires AllGap(w) && StartsTag(p)
    ensures w + p != "" && (w + p)[0] as int < 0x80
  {
    if w != "" {
      assert IsGap(w[0]);
    }
  }

  lemma DocumentOf(enc: Encoding, condense: bool, p: string)
    requires p != "" && p[0] as int < 0x80
    ensures var r := ParseNodes(enc, condense, SkipWhiteSpace(enc, Some(p)), []);
            r.kids != [] ==> ParseDocument(enc, condense, p) == Document(r.kids, false, r.err)
  {
    hide ParseNodes, SkipWhiteSpace;
  }

  /** Layout does not matter. A document that is written with any runs of blanks, tabs, line feeds, vertical tabs,
      form feeds and carriage returns between its attributes, around '=', at the ends of its tags, between its nodes
      and between the words of its texts, with either kind of quotes or with none, and with either form of an empty
      element, is parsed into the same nodes without an error when white space is condensed. */
  lemma LayoutDoesNotMatter(enc: Encoding, nodes: seq<Node>, gaps: seq<string>, lays: seq<Layout>)
    requires nodes != [] && NodesFit(enc, nodes) && NodesLaidOut(enc, nodes, gaps, lays)
    ensures ParseDocument(enc, true, WriteDocument(enc, nodes, gaps, lays)) == Document(nodes, false, NoError)
  {
    hide *;
    var p := WriteDocument(enc, nodes, gaps, lays);
    NodesWritten(enc, nodes, gaps, lays, []);
    DocumentStarts(enc, nodes, gaps, lays);
    DocumentOf(enc, true, p);
    assert [] + nodes == nodes;
  }

  // ---- An instance ----

  function TabbedLayout(): Layout {
    Layout([AttrLayout("\t", "", "", Some('\''))], "", true, [""], [], "", [])
  }

  function TabbedNode(): Node {
    Element("a", [Attr("b", "1")], [])
  }

  lemma PlainDigit(enc: Encoding)
    ensures Whole(enc, "1") && NoReference("1") && Encode("1") == "1"
  {
    assert "1"[1..] == "" && Whole(enc, "");
    assert forall i :: 0 <= i < 1 ==> |"1"[i..]| <= 1;
    EncodeOne('1');
  }

  lemma LetterIsName(enc: Encoding, name: string)
    requires name in {"a", "b"}
    ensures GoodName(enc, name)
  {
    assert 'a' == SMALL[0] && 'b' == SMALL[1];
  }

  lemma TabIsGap()
    ensures AllGap("\t") && AllGap("")
  {
    assert IsGap('\t');
  }

  lemma TabbedFits(enc: Encoding)
    ensures Fit(enc, TabbedNode())
  {
    var a := Attr("b", "1");
    PlainDigit(enc);
    LetterIsName(enc, "a");
    LetterIsName(enc, "b");
    hide GoodName, Whole, NoReference;
    assert TabbedNode().attrs == [a] && TabbedNode().kids == [] && Apart([]);
  }

  lemma TabbedAttr()
    ensures AttrLayoutOk(Attr("b", "1"), AttrLayout("\t", "", "", Some('\'')))
  {
    TabIsGap();
    hide AllGap;
  }

  lemma TabbedIsLaidOut(enc: Encoding)
    ensures LayoutOk(enc, TabbedNode(), TabbedLayout())
  {
    TabbedAttr();
    TabIsGap();
    hide AttrLayoutOk, AllGap, Joined, PartOk;
    var lay := TabbedLayout();
    assert lay.gaps == [""] && lay.kids == [] && |lay.attrs| == 1;
  }

  lemma TabbedIsWritten(enc: Encoding)
    requires LayoutOk(enc, TabbedNode(), TabbedLayout())
    ensures Write(enc, TabbedNode(), TabbedLayout()) == "<a\tb='1'/>"
  {
    var a, lay := Attr("b", "1"), AttrLayout("\t", "", "", Some('\''));
    PlainDigit(enc);
    hide LayoutOk, Encode, Whole, NoReference;
    assert WriteAttr(a, lay) == "b='1'" by {
      assert WriteValue("1", Some('\'')) == "'1'";
    }
    hide WriteAttr;
    assert [a][1..] == [] && [lay][1..] == [];
    assert WriteAttrs([a], [lay]) == "\t" + ("b='1'" + WriteAttrs([], []));
    assert WriteAttrs([], []) == "";
    hide WriteAttrs, WriteNodes;
  }

  lemma OneNodeLaidOut(enc: Encoding, n: Node, lay: Layout)
    requires !Plain(n) && Fit(enc, n) && LayoutOk(enc, n, lay)
    ensures NodesFit(enc, [n]) && NodesLaidOut(enc, [n], ["", ""], [lay])
    ensures WriteDocument(enc, [n], ["", ""], [lay]) == Write(enc, n, lay)
  {
    assert [n][1..] == [] && ["", ""][1..] == [""] && [lay][1..] == [];
    hide Fit, LayoutOk, Write, NextEncoding;
  }

  /** A tab in front of an attribute is white space in every encoding. */
  lemma TabInTag(enc: Encoding)
    ensures ParseDocument(enc, true, "<a\tb='1'/>") == Document([Element("a", [Attr("b", "1")], [])], false, NoError)
  {
    assert !Plain(TabbedNode()) && TabbedNode() == Element("a", [Attr("b", "1")], []);
    hide *;
    TabbedFits(enc);
    TabbedIsLaidOut(enc);
    TabbedIsWritten(enc);
    OneNodeLaidOut(enc, TabbedNode(), TabbedLayout());
    LayoutDoesNotMatter(enc, [TabbedNode()], ["", ""], [TabbedLayout()]);
  }
}
