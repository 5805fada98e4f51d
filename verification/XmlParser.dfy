// The document parser of TinyXML (tinyxmlparser.cpp) as functions on the text
// behind the current pointer: node by node what is built, where the pointer
// ends up, and which error is recorded.
module XmlParser {
  import opened Options
  import opened Sequences
  import opened XmlText

  datatype Attr = Attr(name: string, value: string)

  datatype Node =
    | Element(name: string, attrs: seq<Attr>, kids: seq<Node>)
    | Text(text: string, cdata: bool)
    | Comment(text: string)
    | UnknownTag(text: string)
    | Declaration(version: string, encoding: string, standalone: string)

  /** The error numbers that parsing can record. */
  datatype Error =
    | NoError
    | ParsingElement
    | FailedToReadElementName
    | ReadingElementValue
    | ReadingAttributes
    | ParsingEmpty
    | ReadingEndTag
    | ParsingUnknown
    | ParsingComment
    | ParsingDeclaration
    | DocumentEmpty
    | ParsingCdata

  /** SetError keeps the first error of a chain. */
  function First(e: Error, f: Error): Error {
    if e.NoError? then f else e
  }

  // ---- Attributes ----

  datatype AttrResult = AttrResult(attr: Attr, rest: Ptr, err: Error)

  predicate IsQuote(c: char) {
    c == '\'' || c == '\"'
  }

  /** A value without quotes goes up to white space, a tag end or a quote. */
  function BareLength(p: string): (n: nat)
    ensures n <= |p|
    ensures forall i :: 0 <= i < n ==> !IsWhiteSpace(p[i]) && p[i] != '/' && p[i] != '>' && !IsQuote(p[i])
    ensures n < |p| ==> IsWhiteSpace(p[n]) || p[n] == '/' || p[n] == '>' || IsQuote(p[n])
  {
    if p == "" || IsWhiteSpace(p[0]) || p[0] == '/' || p[0] == '>' || IsQuote(p[0]) then 0
    else 1 + BareLength(p[1..])
  }

  /** The value part of an attribute, behind the '='. */
  function ParseAttrValue(enc: Encoding, condense: bool, name: string, p: string): (r: AttrResult)
    requires p != ""
    ensures r.attr.name == name
    ensures r.rest.Some? ==> Suffix(r.rest.value, p) && r.err == NoError
  {
    if IsQuote(p[0]) then
      var t := ReadText(enc, condense, Some(p[1..]), false, [p[0]]);
      if t.rest.Some? then SuffixTrans(t.rest.value, p[1..], p); AttrResult(Attr(name, t.text), t.rest, NoError)
      else AttrResult(Attr(name, t.text), None, NoError)
    else
      var n := BareLength(p);
      if n < |p| && IsQuote(p[n]) then AttrResult(Attr(name, p[..n]), None, ReadingAttributes)
      else AttrResult(Attr(name, p[..n]), Some(p[n..]), NoError)
  }

  /** The part of an attribute behind its name. */
  function ParseAfterName(enc: Encoding, condense: bool, name: string, p: string): (r: AttrResult)
    ensures r.rest.Some? ==> Suffix(r.rest.value, p) && r.err == NoError
  {
    var s := SkipWhiteSpace(enc, Some(p));
    if s.None? || s.value == "" || s.value[0] != '=' then AttrResult(Attr(name, ""), None, ReadingAttributes)
    else
      var v := SkipWhiteSpace(enc, Some(s.value[1..]));
      if v.None? || v.value == "" then AttrResult(Attr(name, ""), None, ReadingAttributes)
      else
        var r := ParseAttrValue(enc, condense, name, v.value);
        if r.rest.Some? then
          SuffixTrans(r.rest.value, v.value, s.value[1..]);
          SuffixTrans(s.value[1..], s.value, p);
          SuffixTrans(r.rest.value, s.value[1..], p);
          r
        else r
  }

  /** TiXmlAttribute::Parse. */
  function ParseAttribute(enc: Encoding, condense: bool, p: Ptr): (r: AttrResult)
    ensures r.rest.Some? ==> p.Some? && Behind(r.rest, p.value) && r.err == NoError
  {
    hide ParseAfterName, SkipWhite;
    var q := SkipWhiteSpace(enc, p);
    if q.None? || q.value == "" then AttrResult(Attr("", ""), None, NoError)
    else
      var n := NameLength(q);
      if n.None? then AttrResult(Attr("", ""), None, ReadingAttributes)
      else if n.value == |q.value| then AttrResult(Attr(q.value, ""), None, ReadingAttributes)
      else
        var r := ParseAfterName(enc, condense, q.value[..n.value], q.value[n.value..]);
        if r.rest.Some? then
          SuffixTrans(r.rest.value, q.value[n.value..], q.value);
          SuffixTrans(r.rest.value, q.value, p.value);
          r
        else r
  }

  function AttrNames(attrs: seq<Attr>): (names: set<string>) {
    set a | a in attrs :: a.name
  }

  /** How the attribute loop of an element ends. */
  datatype TagEnd =
    | BadTag(attrs: seq<Attr>, err: Error)
    | EmptyTag(attrs: seq<Attr>, rest: string)
    | OpenTag(attrs: seq<Attr>, rest: string)

  /** One pass of the attribute loop: it ends the tag or reads one attribute. */
  datatype TagStep = Stop(end: TagEnd) | Go(attr: Attr, rest: string)

  function AttributeStep(enc: Encoding, condense: bool, p: string, attrs: seq<Attr>): (r: TagStep)
    requires p != ""
    ensures r.Stop? && !r.end.BadTag? ==> |r.end.rest| < |p| && Suffix(r.end.rest, p)
    ensures r.Go? ==> r.rest != "" && |r.rest| < |p| && Suffix(r.rest, p)
  {
    var q := SkipWhiteSpace(enc, Some(p));
    if q.value == "" then Stop(BadTag(attrs, ReadingAttributes))
    else if q.value[0] == '/' then
      if |q.value| > 1 && q.value[1] == '>' then
        SuffixTrans(q.value[2..], q.value, p);
        Stop(EmptyTag(attrs, q.value[2..]))
      else Stop(BadTag(attrs, ParsingEmpty))
    else if q.value[0] == '>' then
      SuffixTrans(q.value[1..], q.value, p);
      Stop(OpenTag(attrs, q.value[1..]))
    else
      var a := ParseAttribute(enc, condense, q);
      if a.rest.None? || a.rest.value == "" then Stop(BadTag(attrs, First(a.err, ParsingElement)))
      else if a.attr.name in AttrNames(attrs) then Stop(BadTag(attrs, ParsingElement))
      else
        SuffixTrans(a.rest.value, q.value, p);
        Go(a.attr, a.rest.value)
  }

  /** The attribute loop of TiXmlElement::Parse. */
  function ParseAttributes(enc: Encoding, condense: bool, p: string, attrs: seq<Attr>): (r: TagEnd)
    requires p != ""
    ensures !r.BadTag? ==> |r.rest| < |p| && Suffix(r.rest, p)
    decreases |p|
  {
    hide AttributeStep;
    match AttributeStep(enc, condense, p, attrs)
    case Stop(end) => end
    case Go(a, rest) =>
      var r := ParseAttributes(enc, condense, rest, attrs + [a]);
      if !r.BadTag? then SuffixTrans(r.rest, rest, p); r else r
  }

  // ---- Leaves ----

  datatype Parsed = Parsed(node: Node, rest: Ptr, err: Error)

  /** The raw text up to `end`, or up to the terminator. */
  function RawLength(p: string, end: string): (n: nat)
    ensures n <= |p|
    ensures n < |p| ==> StringEqual(p[n..], end, false)
    ensures forall i :: 0 <= i < n ==> !StringEqual(p[i..], end, false)
  {
    if p == "" || StringEqual(p, end, false) then assert p[0..] == p; 0
    else
      var n := RawLength(p[1..], end);
      assert forall i :: 0 < i <= |p| ==> p[1..][i - 1..] == p[i..];
      assert p[0..] == p;
      n + 1
  }

  /** TiXmlComment::Parse at the '<'. */
  function ParseComment(enc: Encoding, p: string): (r: Parsed)
    ensures Behind(r.rest, p)
    ensures r.node.Comment?
  {
    var q := SkipWhiteSpace(enc, Some(p));
    if q.None? || !StringEqual(q.value, "<!--", false) then Parsed(Comment(""), None, ParsingComment)
    else
      var body := q.value[4..];
      var n := RawLength(body, "-->");
      var rest := if n < |body| then body[n + 3..] else "";
      SuffixTrans(rest, q.value, p);
      Parsed(Comment(body[..n]), Some(rest), NoError)
  }

  /** TiXmlUnknown::Parse at the '<'. */
  function ParseUnknown(enc: Encoding, p: string): (r: Parsed)
    ensures Behind(r.rest, p)
    ensures r.node.UnknownTag?
  {
    hide SkipWhite, StringEqual, RawLength;
    var q := SkipWhiteSpace(enc, Some(p));
    if q.None? || q.value == "" || q.value[0] != '<' then Parsed(UnknownTag(""), None, ParsingUnknown)
    else
      var body := q.value[1..];
      var n := RawLength(body, ">");
      var rest := if n < |body| then body[n + 1..] else "";
      SuffixTrans(rest, q.value, p);
      Parsed(UnknownTag(body[..n]), Some(rest), NoError)
  }

  /** TiXmlText::Parse for a CDATA section. */
  function ParseCdata(enc: Encoding, condense: bool, p: string): (r: Parsed)
    ensures Behind(r.rest, p)
    ensures r.node.Text? && r.node.cdata
  {
    if !StringEqual(p, "<![CDATA[", false) then Parsed(Text("", true), None, ParsingCdata)
    else
      var body := p[9..];
      var n := RawLength(body, "]]>");
      var t := ReadText(enc, condense, Some(body[n..]), false, "]]>");
      if t.rest.Some? then SuffixTrans(t.rest.value, body[n..], p); Parsed(Text(body[..n], true), t.rest, NoError)
      else Parsed(Text(body[..n], true), None, NoError)
  }

  /** TiXmlText::Parse for running text, which stops in front of the next '<'. */
  function ParseRun(enc: Encoding, condense: bool, p: string): (r: Parsed)
    ensures r.rest.Some? ==> Suffix(r.rest.value, p) && |r.rest.value| > 1
    ensures r.node.Text? && !r.node.cdata
  {
    var t := ReadText(enc, condense, Some(p), true, "<");
    var s := if t.rest.Some? then Some(p[|p| - |t.rest.value| - 1..]) else None;
    Parsed(Text(t.text, false), s, NoError)
  }

  /** TiXmlText::Blank. */
  predicate Blank(text: string) {
    forall i :: 0 <= i < |text| ==> IsWhiteSpace(text[i])
  }

  /** Characters passed over in a declaration: up to '>' or white space. */
  function JunkLength(p: string): (n: nat)
    ensures n <= |p|
  {
    if p == "" || p[0] == '>' || IsWhiteSpace(p[0]) then 0 else 1 + JunkLength(p[1..])
  }

  lemma BehindWhite(enc: Encoding, r: Ptr, p: string)
    requires p != "" && Behind(r, SkipWhite(enc, p))
    ensures Behind(r, p)
  {
    if r.Some? {
      SuffixTrans(r.value, SkipWhite(enc, p), p);
    }
  }

  lemma JunkMoves(enc: Encoding, p: string)
    requires p != "" && p[0] != '>'
    ensures var q := SkipWhite(enc, p); q == p ==> JunkLength(q) > 0
  {}

  lemma JunkIsBehind(enc: Encoding, p: string)
    requires p != "" && p[0] != '>'
    ensures var q := SkipWhite(enc, p); Behind(Some(q[JunkLength(q)..]), p)
  {
    JunkMoves(enc, p);
    hide SkipWhite, JunkLength;
    var q := SkipWhite(enc, p);
    SuffixTrans(q[JunkLength(q)..], q, p);
  }

  /** The loop of TiXmlDeclaration::Parse; the fields take their values as C strings. */
  function ParseDeclarationLoop(enc: Encoding, condense: bool, p: Ptr, d: Node): (r: Parsed)
    requires d.Declaration?
    ensures r.node.Declaration? && r.err == NoError
    ensures r.rest.Some? ==> p.Some? && Behind(r.rest, p.value)
    decreases if p.Some? then |p.value| else 0, 1
  {
    hide ParseAttribute;
    if p.None? || p.value == "" then Parsed(d, None, NoError)
    else if p.value[0] == '>' then Parsed(d, Some(p.value[1..]), NoError)
    else
      var q := SkipWhiteSpace(enc, p).value;
      if StringEqual(q, "version", true) then
        var a := ParseAttribute(enc, condense, Some(q));
        BehindWhite(enc, a.rest, p.value);
        DeclarationStep(enc, condense, p.value, a.rest, d.(version := CString(a.attr.value)))
      else if StringEqual(q, "encoding", true) then
        var a := ParseAttribute(enc, condense, Some(q));
        BehindWhite(enc, a.rest, p.value);
        DeclarationStep(enc, condense, p.value, a.rest, d.(encoding := CString(a.attr.value)))
      else if StringEqual(q, "standalone", true) then
        var a := ParseAttribute(enc, condense, Some(q));
        BehindWhite(enc, a.rest, p.value);
        DeclarationStep(enc, condense, p.value, a.rest, d.(standalone := CString(a.attr.value)))
      else
        SuffixTrans(q[JunkLength(q)..], q, p.value);
        DeclarationStep(enc, condense, p.value, Some(q[JunkLength(q)..]), d)
  }

  /** One more pass of that loop, from a pointer behind `p`. */
  function DeclarationStep(enc: Encoding, condense: bool, p: string, next: Ptr, d: Node): (r: Parsed)
    requires d.Declaration? && Behind(next, p)
    ensures r.node.Declaration? && r.err == NoError
    ensures Behind(r.rest, p)
    decreases |p|, 0
  {
    if next.None? then Parsed(d, None, NoError)
    else
      var r := ParseDeclarationLoop(enc, condense, next, d);
      if r.rest.Some? then SuffixTrans(r.rest.value, next.value, p); r else r
  }

  /** TiXmlDeclaration::Parse at the '<'. */
  function ParseDeclaration(enc: Encoding, condense: bool, p: string): (r: Parsed)
    ensures Behind(r.rest, p)
    ensures r.node.Declaration?
  {
    var d := Declaration("", "", "");
    var q := SkipWhiteSpace(enc, Some(p));
    if q.None? || !StringEqual(q.value, "<?xml", true) then Parsed(d, None, ParsingDeclaration)
    else
      SuffixTrans(q.value[5..], q.value, p);
      var r := ParseDeclarationLoop(enc, condense, Some(q.value[5..]), d);
      if r.rest.Some? then SuffixTrans(r.rest.value, q.value[5..], p); r else r
  }

  // ---- Elements ----

  datatype Kind = DeclarationKind | CommentKind | CdataKind | UnknownKind | ElementKind

  /** Identify, once the pointer is known to stand at '<'. */
  function KindOf(p: string): Kind {
    if StringEqual(p, "<?xml", true) then DeclarationKind
    else if StringEqual(p, "<!--", false) then CommentKind
    else if StringEqual(p, "<![CDATA[", false) then CdataKind
    else if StringEqual(p, "<!", false) then UnknownKind
    else if |p| > 1 && IsNameStart(p[1]) then ElementKind
    else UnknownKind
  }

  /** Identify: None where there is no '<'. */
  function Identify(enc: Encoding, p: string): Option<Kind> {
    var q := SkipWhiteSpace(enc, Some(p));
    if q.None? || q.value == "" || q.value[0] != '<' then None else Some(KindOf(q.value))
  }

  /** What ReadValue collects: children in order, the pointer, the first error. */
  datatype Content = Content(kids: seq<Node>, rest: Ptr, err: Error)

  /** The end tag, behind the content of element `e`. */
  function ParseEndTag(enc: Encoding, e: Node, p: Ptr, err: Error): (r: Parsed)
    requires e.Element?
    ensures r.rest.Some? ==> p.Some? && Behind(r.rest, p.value)
    ensures r.node == e
  {
    if p.None? || p.value == "" || !StringEqual(p.value, "</" + e.name, false) then
      Parsed(e, None, First(err, ReadingEndTag))
    else
      var s := p.value[2 + |e.name|..];
      var q := SkipWhiteSpace(enc, Some(s));
      if q.Some? && q.value != "" && q.value[0] == '>' then
        SuffixTrans(q.value[1..], q.value, s);
        SuffixTrans(q.value[1..], s, p.value);
        Parsed(e, Some(q.value[1..]), err)
      else Parsed(e, None, First(err, ReadingEndTag))
  }

  /** The name of an element: where it starts and ends, or None. */
  function ParseTagName(enc: Encoding, p: string): (r: Option<(string, string)>)
    requires p != ""
    ensures r.Some? ==> r.value.1 != "" && |r.value.1| < |p| && Suffix(r.value.1, p)
  {
    var s := SkipWhiteSpace(enc, Some(p[1..]));
    var n := NameLength(s);
    if n.None? || n.value == |s.value| then None
    else
      SuffixTrans(s.value[n.value..], s.value, p[1..]);
      SuffixTrans(s.value[n.value..], p[1..], p);
      Some((s.value[..n.value], s.value[n.value..]))
  }

  /** The name left in an element whose tag could not be read to the end. */
  function PartialName(enc: Encoding, p: string): string
    requires p != ""
  {
    var s := SkipWhiteSpace(enc, Some(p[1..]));
    var n := NameLength(s);
    if n.None? then "" else s.value[..n.value]
  }

  /** TiXmlElement::Parse at the '<'. */
  function ParseElement(enc: Encoding, condense: bool, p: string): (r: Parsed)
    ensures Behind(r.rest, p)
    ensures r.node.Element?
    decreases |p|, 1
  {
    var q := SkipWhiteSpace(enc, Some(p));
    if q.None? || q.value == "" || q.value[0] != '<' then Parsed(Element("", [], []), None, ParsingElement)
    else
      var t := ParseTagName(enc, q.value);
      if t.None? then Parsed(Element(PartialName(enc, q.value), [], []), None, FailedToReadElementName)
      else
        SuffixTrans(t.value.1, q.value, p);
        match ParseAttributes(enc, condense, t.value.1, [])
        case BadTag(attrs, err) => Parsed(Element(t.value.0, attrs, []), None, err)
        case EmptyTag(attrs, rest) =>
          SuffixTrans(rest, t.value.1, p);
          Parsed(Element(t.value.0, attrs, []), Some(rest), NoError)
        case OpenTag(attrs, rest) =>
          SuffixTrans(rest, t.value.1, p);
          var c := ReadValue(enc, condense, Some(rest), []);
          var r := ParseEndTag(enc, Element(t.value.0, attrs, c.kids), c.rest, c.err);
          if r.rest.Some? then
            SuffixTrans(r.rest.value, c.rest.value, rest);
            SuffixTrans(r.rest.value, rest, p);
            r
          else r
  }

  /** Any node, by its kind. */
  function ParseNode(enc: Encoding, condense: bool, kind: Kind, p: string): (r: Parsed)
    ensures Behind(r.rest, p)
    decreases |p|, 2
  {
    match kind
    case DeclarationKind => ParseDeclaration(enc, condense, p)
    case CommentKind => ParseComment(enc, p)
    case CdataKind => ParseCdata(enc, condense, p)
    case UnknownKind => ParseUnknown(enc, p)
    case ElementKind => ParseElement(enc, condense, p)
  }

  /** TiXmlElement::ReadValue: text and child nodes in any order, up to an end tag. */
  function ReadValue(enc: Encoding, condense: bool, withWhite: Ptr, kids: seq<Node>): (r: Content)
    ensures r.rest.Some? ==> withWhite.Some? && Suffix(r.rest.value, withWhite.value)
    decreases if withWhite.Some? then |withWhite.value| else 0, 3
  {
    var p := SkipWhiteSpace(enc, withWhite);
    if p.None? then Content(kids, None, ReadingElementValue)
    else if p.value == "" then Content(kids, p, NoError)
    else if p.value[0] != '<' then
      var t := ParseRun(enc, condense, if condense then p.value else withWhite.value);
      RunIsBehind(enc, condense, if condense then p.value else withWhite.value, p.value, withWhite.value);
      NextValue(enc, condense, withWhite.value, t, if Blank(t.node.text) then kids else kids + [t.node])
    else if StringEqual(p.value, "</", false) then Content(kids, p, NoError)
    else
      var n := ParseNode(enc, condense, KindOf(p.value), p.value);
      BehindSkipped(n.rest, p.value, withWhite.value);
      NextValue(enc, condense, withWhite.value, n, kids + [n.node])
  }

  /** One more pass of the loop of ReadValue, after the node `n`. */
  function NextValue(enc: Encoding, condense: bool, was: string, n: Parsed, kids: seq<Node>): (r: Content)
    requires was != "" && Behind(n.rest, was)
    ensures r.rest.Some? ==> Suffix(r.rest.value, was)
    decreases |was|, 0
  {
    var r := ReadValue(enc, condense, n.rest, kids);
    if r.rest.Some? then
      SuffixTrans(r.rest.value, n.rest.value, was);
      r.(err := First(n.err, r.err))
    else r.(err := First(n.err, r.err))
  }

  lemma BehindSkipped(r: Ptr, p: string, was: string)
    requires Behind(r, p) && Suffix(p, was)
    ensures Behind(r, was)
  {
    if r.Some? {
      SuffixTrans(r.value, p, was);
    }
  }

  lemma NoTagAhead(p: string)
    requires p != "" && p[0] != '<'
    ensures !StringEqual(p, "<", false)
  {}

  /** The loops of ReadText move on from a text that does not start with their end mark. */
  lemma KeepMovesOn(enc: Encoding, p: string, acc: string)
    requires p != "" && p[0] != '<'
    ensures var r := ReadKeep(enc, Some(p), "<", acc).rest; r.Some? ==> |r.value| < |p|
  {
    NoTagAhead(p);
    hide GetChar, StringEqual;
  }

  lemma CondensedMovesOn(enc: Encoding, p: string, acc: string, white: bool)
    requires p != "" && p[0] != '<'
    ensures var r := ReadCondensed(enc, Some(p), "<", acc, white).rest; r.Some? ==> |r.value| < |p|
  {
    NoTagAhead(p);
    hide GetChar, StringEqual;
  }

  lemma SkipsOrStays(enc: Encoding, p: string)
    ensures SkipWhite(enc, p) == p || |SkipWhite(enc, p)| < |p|
  {}

  /** The pointer in front of the tag that ends a running text. */
  lemma TextMovesOn(enc: Encoding, condense: bool, p: string)
    requires p != "" && p[0] != '<'
    ensures var t := ReadText(enc, condense, Some(p), true, "<"); t.rest.Some? ==> |t.rest.value| + 1 < |p|
  {
    hide ReadKeep, ReadCondensed, SkipWhite;
    if condense {
      var q := SkipWhiteSpace(enc, Some(p)).value;
      SkipsOrStays(enc, p);
      if q == p {
        CondensedMovesOn(enc, q, "", false);
      }
    } else {
      KeepMovesOn(enc, p, "");
    }
  }

  /** Running text always moves the pointer on: it stops at a '<', and did not start at one. */
  lemma RunIsBehind(enc: Encoding, condense: bool, from: string, p: string, was: string)
    requires Suffix(from, was) && from != "" && (from[0] != '<')
    ensures Behind(ParseRun(enc, condense, from).rest, was)
  {
    hide ReadText, Suffix;
    TextMovesOn(enc, condense, from);
    var r := ParseRun(enc, condense, from).rest;
    if r.Some? {
      SuffixTrans(r.value, from, was);
    }
    ShorterSuffix(from, was);
  }

  lemma ShorterSuffix(t: string, s: string)
    requires Suffix(t, s)
    ensures |t| <= |s|
  {}

  // ---- Documents ----

  /** The encoding in force after a top-level node. */
  function NextEncoding(enc: Encoding, node: Node): Encoding {
    if enc.Unknown? && node.Declaration? then
      if node.encoding == "" || StringEqual(node.encoding, "UTF-8", true) || StringEqual(node.encoding, "UTF8", true)
      then Utf8
      else Legacy
    else enc
  }

  /** The loop of TiXmlDocument::Parse; it breaks off at text outside of any node. */
  function ParseNodes(enc: Encoding, condense: bool, p: Ptr, kids: seq<Node>): (r: Content)
    ensures r.rest.Some? ==> p.Some? && Suffix(r.rest.value, p.value)
    ensures kids <= r.kids
    decreases if p.Some? then |p.value| else 0
  {
    if p.None? || p.value == "" then Content(kids, p, NoError)
    else
      var kind := Identify(enc, p.value);
      if kind.None? then Content(kids, p, NoError)
      else
        var n := ParseNode(enc, condense, kind.value, p.value);
        var enc' := NextEncoding(enc, n.node);
        var q := SkipWhiteSpace(enc', n.rest);
        if q.Some? then
          SuffixTrans(q.value, n.rest.value, p.value);
          var r := ParseNodes(enc', condense, q, kids + [n.node]);
          if r.rest.Some? then SuffixTrans(r.rest.value, q.value, p.value); r.(err := First(n.err, r.err))
          else r.(err := First(n.err, r.err))
        else Content(kids + [n.node], None, n.err)
  }

  /** What TiXmlDocument::Parse builds: the nodes, the byte order mark, the error recorded. */
  datatype Document = Document(nodes: seq<Node>, bom: bool, err: Error)

  function ParseDocument(enc: Encoding, condense: bool, p: string): (d: Document) {
    if p == "" then Document([], false, DocumentEmpty)
    else
      var bom := enc.Unknown? && |p| >= 3 && p[0] as int == 0xef && p[1] as int == 0xbb && p[2] as int == 0xbf;
      var enc' := if bom then Utf8 else enc;
      var r := ParseNodes(enc', condense, SkipWhiteSpace(enc', Some(p)), []);
      Document(r.kids, bom, if r.kids == [] then First(r.err, DocumentEmpty) else r.err)
  }
}
