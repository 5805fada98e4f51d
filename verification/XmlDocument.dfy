// TiXmlDocument and the Parse methods of the nodes (tinyxmlparser.cpp): the
// document keeps its nodes and the first error while the parsers move over
// the text. Each parser agrees with the function of its name in XmlParser.
module XmlDocument {
  import opened Options
  import opened Sequences
  import P = XmlParser
  import R = XmlReader
  import opened XmlText
  import opened XmlParser

  /** The error after one that an attribute has reported. */
  function Recorded(linked: bool, was: Error, err: Error): Error {
    if linked then First(was, err) else was
  }

  class TiXmlDocument {
    var condenseWhiteSpace: bool
    var error: Error
    var useMicrosoftBOM: bool
    var nodes: seq<Node>

    constructor ()
      ensures error == NoError && nodes == [] && !useMicrosoftBOM && condenseWhiteSpace
    {
      error, nodes, useMicrosoftBOM, condenseWhiteSpace := NoError, [], false, true;
    }

    /** The first error in a chain is kept. */
    method SetError(err: Error)
      modifies this`error
      ensures error == First(old(error), err)
    {
      if error != NoError {
        return;
      }
      error := err;
    }

    // ---- Attributes ----

    /** An attribute reports to its document, if it is linked to one. */
    method Report(linked: bool, err: Error)
      modifies this`error
      ensures error == Recorded(linked, old(error), err)
    {
      if linked {
        SetError(err);
      }
    }

    /** A value without quotes. */
    method ReadBareValue(start: string, linked: bool) returns (p: Ptr, value: string)
      modifies this`error
      ensures var n := BareLength(start);
              && value == start[..n]
              && if n < |start| && IsQuote(start[n])
                 then p == None && error == Recorded(linked, old(error), ReadingAttributes)
                 else p == Some(start[n..]) && error == old(error)
    {
      var s, n := start, 0;
      value := "";
      assert start[..0] == "" && start[0..] == start;
      while s != "" && !IsWhiteSpace(s[0]) && s[0] != '/' && s[0] != '>'
        invariant 0 <= n <= |start| && s == start[n..] && value == start[..n] && error == old(error)
        invariant BareLength(start) == n + BareLength(s)
        decreases |s|
      {
        if s[0] == '\'' || s[0] == '\"' {
          Report(linked, ReadingAttributes);
          return None, value;
        }
        value := value + [s[0]];
        s := s[1..];
        n := n + 1;
      }
      p := Some(s);
    }

    /** The quoted or bare value of an attribute. */
    method ReadAttrValue(enc: Encoding, name: string, start: string, linked: bool) returns (p: Ptr, value: string)
      requires start != ""
      modifies this`error
      ensures AttrResult(Attr(name, value), p, error) ==
              var r := ParseAttrValue(enc, condenseWhiteSpace, name, start);
              r.(err := Recorded(linked, old(error), r.err))
    {
      hide ReadText, BareLength;
      if start[0] == '\'' {
        p, value := R.ReadText(enc, condenseWhiteSpace, Some(start[1..]), false, "\'");
      } else if start[0] == '\"' {
        p, value := R.ReadText(enc, condenseWhiteSpace, Some(start[1..]), false, "\"");
      } else {
        p, value := ReadBareValue(start, linked);
      }
    }

    /** The '=' of an attribute and its value. */
    method ReadAfterName(enc: Encoding, name: string, start: string, linked: bool) returns (p: Ptr, value: string)
      modifies this`error
      ensures AttrResult(Attr(name, value), p, error) ==
              var r := ParseAfterName(enc, condenseWhiteSpace, name, start);
              r.(err := Recorded(linked, old(error), r.err))
    {
      hide ParseAttrValue, SkipWhite;
      p := R.SkipWhiteSpace(enc, Some(start));
      if p.None? || p.value == "" || p.value[0] != '=' {
        Report(linked, ReadingAttributes);
        return None, "";
      }
      p := R.SkipWhiteSpace(enc, Some(p.value[1..]));
      if p.None? || p.value == "" {
        Report(linked, ReadingAttributes);
        return None, "";
      }
      p, value := ReadAttrValue(enc, name, p.value, linked);
    }

    /** TiXmlAttribute::Parse. */
    method ParseAttribute(enc: Encoding, start: Ptr, linked: bool) returns (p: Ptr, a: Attr)
      modifies this`error
      ensures AttrResult(a, p, error) ==
              var r := P.ParseAttribute(enc, condenseWhiteSpace, start); r.(err := Recorded(linked, old(error), r.err))
    {
      hide ParseAfterName, SkipWhite, NameRun, IsNameStart;
      p := R.SkipWhiteSpace(enc, start);
      if p.None? || p.value == "" {
        return None, Attr("", "");
      }
      var name;
      p, name := R.ReadName(p);
      if p.None? || p.value == "" {
        Report(linked, ReadingAttributes);
        return None, Attr(name, "");
      }
      var value;
      p, value := ReadAfterName(enc, name, p.value, linked);
      a := Attr(name, value);
    }

    // ---- Leaves ----

    /** TiXmlComment::Parse. */
    method ParseComment(enc: Encoding, start: string) returns (p: Ptr, n: Node)
      modifies this`error
      ensures Parsed(n, p, error) == var r := P.ParseComment(enc, start); r.(err := First(old(error), r.err))
    {
      hide StringEqual, SkipWhite, RawLength;
      p := R.SkipWhiteSpace(enc, Some(start));
      var eq := false;
      if p.Some? {
        eq := R.StringEqual(p.value, "<!--", false);
      }
      if !eq {
        SetError(ParsingComment);
        return None, Comment("");
      }
      MarkFits(p.value, "<!--", false);
      var s, value := R.ReadRaw(p.value[4..], "-->");
      if s != "" {
        MarkFits(s, "-->", false);
        s := s[3..];
      }
      p, n := Some(s), Comment(value);
    }

    /** TiXmlUnknown::Parse. */
    method ParseUnknown(enc: Encoding, start: string) returns (p: Ptr, n: Node)
      modifies this`error
      ensures Parsed(n, p, error) == var r := P.ParseUnknown(enc, start); r.(err := First(old(error), r.err))
    {
      hide StringEqual, SkipWhite, RawLength;
      p := R.SkipWhiteSpace(enc, Some(start));
      if p.None? || p.value == "" || p.value[0] != '<' {
        SetError(ParsingUnknown);
        return None, UnknownTag("");
      }
      var s, value := R.ReadRaw(p.value[1..], ">");
      if s != "" {
        MarkFits(s, ">", false);
        s := s[1..];
      }
      p, n := Some(s), UnknownTag(value);
    }

    /** TiXmlText::Parse of a CDATA section. */
    method ParseCdata(enc: Encoding, start: string) returns (p: Ptr, n: Node)
      modifies this`error
      ensures Parsed(n, p, error) ==
              var r := P.ParseCdata(enc, condenseWhiteSpace, start); r.(err := First(old(error), r.err))
    {
      hide StringEqual, ReadText, RawLength;
      var eq := R.StringEqual(start, "<![CDATA[", false);
      if !eq {
        SetError(ParsingCdata);
        return None, Text("", true);
      }
      MarkFits(start, "<![CDATA[", false);
      var s, value := R.ReadRaw(start[9..], "]]>");
      var dummy;
      p, dummy := R.ReadText(enc, condenseWhiteSpace, Some(s), false, "]]>");
      n := Text(value, true);
    }

    /** TiXmlText::Parse of running text, which does not take the '<' with it. */
    method ParseRun(enc: Encoding, start: string) returns (p: Ptr, n: Node)
      ensures Parsed(n, p, NoError) == P.ParseRun(enc, condenseWhiteSpace, start)
    {
      hide ReadText;
      var value;
      p, value := R.ReadText(enc, condenseWhiteSpace, Some(start), true, "<");
      if p.Some? {
        p := Some(start[|start| - |p.value| - 1..]);
      }
      n := Text(value, false);
    }

    /** Whatever else stands in a declaration is read over. */
    method SkipJunk(start: string) returns (s: string)
      ensures s == start[JunkLength(start)..]
    {
      hide IsWhiteSpace;
      s := start;
      ghost var n := 0;
      while s != "" && s[0] != '>' && !IsWhiteSpace(s[0])
        invariant n <= |start| && s == start[n..] && JunkLength(start) == n + JunkLength(s)
        decreases |s|
      {
        s := s[1..];
        n := n + 1;
      }
    }

    /** The fields of a declaration. Their attributes are not linked to the document. */
    method ParseFields(enc: Encoding, start: string) returns (p: Ptr, d: Node)
      modifies this`error
      ensures Parsed(d, p, NoError) ==
              ParseDeclarationLoop(enc, condenseWhiteSpace, Some(start), Declaration("", "", ""))
      ensures error == old(error)
    {
      hide StringEqual, SkipWhite, P.ParseAttribute, JunkLength, ParseDeclarationLoop;
      p, d := Some(start), Declaration("", "", "");
      while p.Some? && p.value != ""
        invariant d.Declaration? && error == old(error)
        invariant ParseDeclarationLoop(enc, condenseWhiteSpace, p, d) ==
                  ParseDeclarationLoop(enc, condenseWhiteSpace, Some(start), Declaration("", "", ""))
        decreases if p.Some? then |p.value| else -1
      {
        LoopEnds(enc, condenseWhiteSpace, p, d);
        if p.value[0] == '>' {
          return Some(p.value[1..]), d;
        }
        DeclarationPass(enc, condenseWhiteSpace, p.value, d);
        p, d := ParseField(enc, p.value, d);
      }
      LoopEnds(enc, condenseWhiteSpace, p, d);
      p := None;
    }

    /** One field, or what else stands at this place. */
    method ParseField(enc: Encoding, start: string, was: Node) returns (p: Ptr, d: Node)
      requires was.Declaration? && start != ""
      modifies this`error
      ensures var q := SkipWhiteSpace(enc, Some(start)).value;
              var a := P.ParseAttribute(enc, condenseWhiteSpace, Some(q));
              if StringEqual(q, "version", true) then p == a.rest && d == was.(version := CString(a.attr.value))
              else if StringEqual(q, "encoding", true) then p == a.rest && d == was.(encoding := CString(a.attr.value))
              else if StringEqual(q, "standalone", true) then
                p == a.rest && d == was.(standalone := CString(a.attr.value))
              else p == Some(q[JunkLength(q)..]) && d == was
      ensures error == old(error)
    {
      hide StringEqual, SkipWhite, P.ParseAttribute, JunkLength;
      d := was;
      p := R.SkipWhiteSpace(enc, Some(start));
      var s := p.value;
      var a;
      var version := R.StringEqual(s, "version", true);
      var encoding := R.StringEqual(s, "encoding", true);
      var standalone := R.StringEqual(s, "standalone", true);
      if version {
        p, a := ParseAttribute(enc, p, false);
        d := d.(version := CString(a.value));
      } else if encoding {
        p, a := ParseAttribute(enc, p, false);
        d := d.(encoding := CString(a.value));
      } else if standalone {
        p, a := ParseAttribute(enc, p, false);
        d := d.(standalone := CString(a.value));
      } else {
        s := SkipJunk(s);
        p := Some(s);
      }
    }

    /** TiXmlDeclaration::Parse. */
    method ParseDeclaration(enc: Encoding, start: string) returns (p: Ptr, n: Node)
      modifies this`error
      ensures Parsed(n, p, error) ==
              var r := P.ParseDeclaration(enc, condenseWhiteSpace, start); r.(err := First(old(error), r.err))
    {
      hide StringEqual, SkipWhite, ParseDeclarationLoop;
      p := R.SkipWhiteSpace(enc, Some(start));
      var eq := false;
      if p.Some? && p.value != "" {
        eq := R.StringEqual(p.value, "<?xml", true);
      }
      if !eq {
        EmptyIsNoMark(p, "<?xml");
        SetError(ParsingDeclaration);
        return None, Declaration("", "", "");
      }
      MarkFits(p.value, "<?xml", true);
      p, n := ParseFields(enc, p.value[5..]);
    }

    // ---- Elements ----

    /** The attribute loop of TiXmlElement::Parse, up to the end of the start tag. */
    method ParseAttributes(enc: Encoding, start: string)
      returns (ok: bool, empty: bool, rest: string, attributeSet: seq<Attr>)
      requires start != ""
      modifies this`error
      ensures var end := P.ParseAttributes(enc, condenseWhiteSpace, start, []);
              && attributeSet == end.attrs && ok == !end.BadTag?
              && (ok ==> rest == end.rest && empty == end.EmptyTag?)
              && error == if end.BadTag? then First(old(error), end.err) else old(error)
    {
      hide SkipWhite, P.ParseAttribute, P.AttributeStep;
      var p := start;
      attributeSet := [];
      ok, empty, rest := false, false, "";
      while true
        invariant p != "" && error == old(error) && !ok
        invariant P.ParseAttributes(enc, condenseWhiteSpace, p, attributeSet) ==
                  P.ParseAttributes(enc, condenseWhiteSpace, start, [])
        decreases |p|
      {
        StepOf(enc, condenseWhiteSpace, p, attributeSet);
        var q := R.SkipWhiteSpace(enc, Some(p));
        if q.None? || q.value == "" {
          SetError(ReadingAttributes);
          return;
        }
        if q.value[0] == '/' {
          if |q.value| == 1 || q.value[1] != '>' {
            SetError(ParsingEmpty);
            return;
          }
          return true, true, q.value[2..], attributeSet;
        } else if q.value[0] == '>' {
          return true, false, q.value[1..], attributeSet;
        }
        var next, a := ParseAttribute(enc, q, true);
        if next.None? || next.value == "" {
          SetError(ParsingElement);
          return;
        }
        if a.name in AttrNames(attributeSet) {
          SetError(ParsingElement);
          return;
        }
        attributeSet := attributeSet + [a];
        p := next.value;
      }
    }

    /** The end tag of an element. */
    method ParseEndTag(enc: Encoding, name: string, start: Ptr) returns (p: Ptr)
      modifies this`error
      ensures forall e: Node :: e.Element? && e.name == name ==>
                var r := P.ParseEndTag(enc, e, start, NoError);
                p == r.rest && error == First(old(error), r.err)
    {
      hide StringEqual, SkipWhite;
      p := start;
      if p.None? || p.value == "" {
        SetError(ReadingEndTag);
        return None;
      }
      var endTag := "</" + name;
      var eq := R.StringEqual(p.value, endTag, false);
      if eq {
        MarkFits(p.value, endTag, false);
        p := R.SkipWhiteSpace(enc, Some(p.value[|endTag|..]));
        if p.Some? && p.value != "" && p.value[0] == '>' {
          return Some(p.value[1..]);
        }
      }
      SetError(ReadingEndTag);
      p := None;
    }

    /** The name of an element, behind its '<'. */
    method ReadTagName(enc: Encoding, start: string) returns (p: Ptr, name: string)
      requires start != ""
      ensures var r := ParseTagName(enc, start);
              if r.Some? then p == Some(r.value.1) && name == r.value.0
              else (p.None? || p.value == "") && name == PartialName(enc, start)
    {
      hide SkipWhite, NameRun;
      p := R.SkipWhiteSpace(enc, Some(start[1..]));
      p, name := R.ReadName(p);
    }

    /** TiXmlElement::Parse. */
    method ParseElement(enc: Encoding, start: string) returns (p: Ptr, n: Node)
      modifies this`error
      ensures Parsed(n, p, error) ==
              var r := P.ParseElement(enc, condenseWhiteSpace, start); r.(err := First(old(error), r.err))
      decreases |start|, 1
    {
      hide *;
      ElementUnfolds(enc, condenseWhiteSpace, start);
      FirstNone(error);
      ghost var was := error;
      p := R.SkipWhiteSpace(enc, Some(start));
      if p.None? || p.value == "" || p.value[0] != '<' {
        SetError(ParsingElement);
        return None, Element("", [], []);
      }
      var s := p.value;
      var name;
      p, name := ReadTagName(enc, s);
      if p.None? || p.value == "" {
        SetError(FailedToReadElementName);
        return None, Element(name, [], []);
      }
      var ok, empty, rest, attributeSet := ParseAttributes(enc, p.value);
      if !ok {
        return None, Element(name, attributeSet, []);
      }
      if empty {
        return Some(rest), Element(name, attributeSet, []);
      }
      var kids;
      p, kids := ReadValue(enc, Some(rest));
      n := Element(name, attributeSet, kids);
      ghost var c := P.ReadValue(enc, condenseWhiteSpace, Some(rest), []);
      EndTagError(enc, n, p, c.err);
      p := ParseEndTag(enc, name, p);
      FirstTwice(was, c.err, P.ParseEndTag(enc, n, c.rest, NoError).err);
    }

    /** Parse of a node that Identify has made for a kind. */
    method ParseNode(enc: Encoding, kind: Kind, start: string) returns (p: Ptr, n: Node)
      modifies this`error
      ensures Parsed(n, p, error) ==
              var r := P.ParseNode(enc, condenseWhiteSpace, kind, start); r.(err := First(old(error), r.err))
      decreases |start|, 2
    {
      hide P.ParseDeclaration, P.ParseComment, P.ParseCdata, P.ParseUnknown, P.ParseElement;
      match kind
      case DeclarationKind => p, n := ParseDeclaration(enc, start);
      case CommentKind => p, n := ParseComment(enc, start);
      case CdataKind => p, n := ParseCdata(enc, start);
      case UnknownKind => p, n := ParseUnknown(enc, start);
      case ElementKind => p, n := ParseElement(enc, start);
    }

    /** TiXmlNode::Identify, at a '<'. */
    method Identify(p: string) returns (kind: Kind)
      ensures kind == KindOf(p)
    {
      hide StringEqual;
      var eq := R.StringEqual(p, "<?xml", true);
      if eq {
        return DeclarationKind;
      }
      eq := R.StringEqual(p, "<!--", false);
      if eq {
        return CommentKind;
      }
      eq := R.StringEqual(p, "<![CDATA[", false);
      if eq {
        return CdataKind;
      }
      eq := R.StringEqual(p, "<!", false);
      kind := if !eq && |p| > 1 && IsNameStart(p[1]) then ElementKind else UnknownKind;
    }

    /** Running text in an element, which is dropped if it is blank. */
    method ReadTextNode(enc: Encoding, start: string, before: seq<Node>) returns (p: Ptr, kids: seq<Node>)
      ensures var t := P.ParseRun(enc, condenseWhiteSpace, start);
              p == t.rest && kids == if P.Blank(t.node.text) then before else before + [t.node]
    {
      hide P.ParseRun, P.Blank;
      kids := before;
      var textNode;
      p, textNode := ParseRun(enc, start);
      var blank := R.Blank(textNode.text);
      if !blank {
        kids := kids + [textNode];
      }
    }

    /** TiXmlElement::ReadValue. */
    method ReadValue(enc: Encoding, start: Ptr) returns (p: Ptr, kids: seq<Node>)
      modifies this`error
      ensures Content(kids, p, error) ==
              var r := P.ReadValue(enc, condenseWhiteSpace, start, []); r.(err := First(old(error), r.err))
      decreases if start.Some? then |start.value| else 0, 3
    {
      hide *;
      kids := [];
      var pWithWhiteSpace := start;
      p := R.SkipWhiteSpace(enc, start);
      ghost var all := P.ReadValue(enc, condenseWhiteSpace, start, []);
      while p.Some? && p.value != ""
        invariant p == SkipWhiteSpace(enc, pWithWhiteSpace)
        invariant var r := P.ReadValue(enc, condenseWhiteSpace, pWithWhiteSpace, kids);
                  all.(err := First(old(error), all.err)) == r.(err := First(error, r.err))
        invariant pWithWhiteSpace.Some? ==> start.Some? && |pWithWhiteSpace.value| <= |start.value|
        decreases if pWithWhiteSpace.Some? then |pWithWhiteSpace.value| else -1
      {
        ValuePass(enc, condenseWhiteSpace, pWithWhiteSpace.value, kids);
        FirstNone(error);
        ghost var was := error;
        if p.value[0] != '<' {
          p, kids := ReadTextNode(enc, if condenseWhiteSpace then p.value else pWithWhiteSpace.value, kids);
        } else {
          var eq := R.StringEqual(p.value, "</", false);
          if eq {
            return;
          }
          var kind := Identify(p.value);
          var n;
          ghost var r := P.ParseNode(enc, condenseWhiteSpace, kind, p.value);
          p, n := ParseNode(enc, kind, p.value);
          kids := kids + [n];
          FirstTwice(was, r.err, P.ReadValue(enc, condenseWhiteSpace, p, kids).err);
        }
        pWithWhiteSpace := p;
        p := R.SkipWhiteSpace(enc, p);
      }
      ValueEnds(enc, condenseWhiteSpace, pWithWhiteSpace, kids);
      FirstNone(error);
      if p.None? {
        SetError(ReadingElementValue);
      }
    }

    // ---- The document ----

    /** The check of the encoding that a declaration names. */
    method EncodingAfter(enc: Encoding, node: Node) returns (enc': Encoding)
      ensures enc' == NextEncoding(enc, node)
    {
      hide StringEqual;
      enc' := enc;
      if enc.Unknown? && node.Declaration? {
        if node.encoding == "" {
          return Utf8;
        }
        var eq := R.StringEqual(node.encoding, "UTF-8", true);
        if eq {
          return Utf8;
        }
        eq := R.StringEqual(node.encoding, "UTF8", true);
        enc' := if eq then Utf8 else Legacy;
      }
    }

    /** The loop of TiXmlDocument::Parse. */
    method ParseNodes(encoding: Encoding, start: Ptr)
      modifies this`error, this`nodes
      ensures var r := P.ParseNodes(encoding, condenseWhiteSpace, start, []);
              nodes == old(nodes) + r.kids && error == First(old(error), r.err)
    {
      hide *;
      var enc, p := encoding, start;
      ghost var kids: seq<Node> := [];
      ghost var all := P.ParseNodes(encoding, condenseWhiteSpace, start, []);
      FirstNone(error);
      while p.Some? && p.value != ""
        invariant nodes == old(nodes) + kids
        invariant var r := P.ParseNodes(enc, condenseWhiteSpace, p, kids);
                  all.kids == r.kids && First(old(error), all.err) == First(error, r.err)
        decreases if p.Some? then |p.value| else -1
      {
        DocumentPass(enc, condenseWhiteSpace, p.value, kids);
        FirstNone(error);
        ghost var was, err := p.value, error;
        var q := R.SkipWhiteSpace(enc, p);
        if q.None? || q.value == "" || q.value[0] != '<' {
          return;
        }
        var kind := Identify(q.value);
        ghost var r := P.ParseNode(enc, condenseWhiteSpace, kind, was);
        var n;
        p, n := ParseNode(enc, kind, p.value);
        nodes := nodes + [n];
        kids := kids + [n];
        assert old(nodes) + kids == nodes;
        enc := EncodingAfter(enc, n);
        p := R.SkipWhiteSpace(enc, p);
        FirstTwice(err, r.err, P.ParseNodes(enc, condenseWhiteSpace, p, kids).err);
      }
      DocumentEnds(enc, condenseWhiteSpace, p, kids);
      FirstNone(error);
    }

    /** TiXmlDocument::Parse: what it reads is added to the nodes that are there. */
    method Parse(p: string, encoding: Encoding)
      modifies this
      ensures condenseWhiteSpace == old(condenseWhiteSpace)
      ensures var d := ParseDocument(encoding, condenseWhiteSpace, p);
              && nodes == old(nodes) + d.nodes
              && useMicrosoftBOM == (old(useMicrosoftBOM) || d.bom)
              && (old(nodes) == [] || p == "" || d.nodes != [] ==> error == d.err)
              && (old(nodes) != [] && p != "" && d.nodes == [] ==> error == NoError)
    {
      hide P.ParseNodes, SkipWhite;
      error := NoError;
      if p == "" {
        SetError(DocumentEmpty);
        return;
      }
      var enc := encoding;
      if enc.Unknown? && |p| > 2 && p[0] as int == 0xef && p[1] as int == 0xbb && p[2] as int == 0xbf {
        enc := Utf8;
        useMicrosoftBOM := true;
      }
      var q := R.SkipWhiteSpace(enc, Some(p));
      NoNodesNoError(enc, condenseWhiteSpace, q);
      ParseNodes(enc, q);
      if nodes == [] {
        SetError(DocumentEmpty);
      }
    }
  }

  /** One pass of the loop of TiXmlDocument::Parse, spelled out. */
  lemma DocumentPass(enc: Encoding, condense: bool, p: string, kids: seq<Node>)
    requires p != ""
    ensures var q := SkipWhiteSpace(enc, Some(p));
            if q.None? || q.value == "" || q.value[0] != '<' then
              P.ParseNodes(enc, condense, Some(p), kids) == Content(kids, Some(p), NoError)
            else
              var n := P.ParseNode(enc, condense, KindOf(q.value), p);
              var enc' := NextEncoding(enc, n.node);
              var next := SkipWhiteSpace(enc', n.rest);
              && (next.Some? ==> |next.value| < |p|)
              && var r := P.ParseNodes(enc', condense, next, kids + [n.node]);
                 var all := P.ParseNodes(enc, condense, Some(p), kids);
                 all.kids == r.kids && all.err == First(n.err, r.err)
  {
    hide SkipWhite, P.ParseNode, KindOf, NextEncoding;
  }

  lemma DocumentEnds(enc: Encoding, condense: bool, p: Ptr, kids: seq<Node>)
    ensures p.None? || p.value == "" ==> P.ParseNodes(enc, condense, p, kids) == Content(kids, p, NoError)
  {}

  lemma NoNodesNoError(enc: Encoding, condense: bool, p: Ptr)
    ensures var r := P.ParseNodes(enc, condense, p, []); r.kids == [] ==> r.err == NoError
  {
    hide SkipWhite, P.ParseNode, KindOf, NextEncoding;
  }

  lemma FirstTwice(e: Error, f: Error, g: Error)
    ensures First(First(e, f), g) == First(e, First(f, g))
  {}

  lemma FirstNone(e: Error)
    ensures First(e, NoError) == e == First(NoError, e)
  {}

  /** The error before an end tag is carried through its parser. */
  lemma EndTagError(enc: Encoding, e: Node, p: Ptr, err: Error)
    requires e.Element?
    ensures var r, r0 := P.ParseEndTag(enc, e, p, err), P.ParseEndTag(enc, e, p, NoError);
            r == r0.(err := First(err, r0.err)) && r.node == e
  {
    hide StringEqual, SkipWhite;
  }

  /** TiXmlElement::Parse, spelled out. */
  lemma ElementUnfolds(enc: Encoding, condense: bool, p: string)
    ensures var q := SkipWhiteSpace(enc, Some(p));
            (q.Some? ==> |q.value| <= |p|) &&
            P.ParseElement(enc, condense, p) ==
            if q.None? || q.value == "" || q.value[0] != '<' then Parsed(Element("", [], []), None, ParsingElement)
            else
              var t := ParseTagName(enc, q.value);
              if t.None? then Parsed(Element(PartialName(enc, q.value), [], []), None, FailedToReadElementName)
              else
                var end := P.ParseAttributes(enc, condense, t.value.1, []);
                if end.BadTag? then Parsed(Element(t.value.0, end.attrs, []), None, end.err)
                else if end.EmptyTag? then Parsed(Element(t.value.0, end.attrs, []), Some(end.rest), NoError)
                else
                  var c := P.ReadValue(enc, condense, Some(end.rest), []);
                  P.ParseEndTag(enc, Element(t.value.0, end.attrs, c.kids), c.rest, c.err)
  {
    hide SkipWhiteSpace, ParseTagName, PartialName, P.ParseAttributes, P.ReadValue, P.ParseEndTag;
  }

  lemma TagIsNoWhite(enc: Encoding, p: string)
    ensures p != "" && p[0] == '<' ==> SkipWhite(enc, p) == p
  {}

  /** One pass of the loop of ReadValue, spelled out. */
  lemma ValuePass(enc: Encoding, condense: bool, was: string, kids: seq<Node>)
    requires var p := SkipWhiteSpace(enc, Some(was)); p.Some? && p.value != ""
    ensures var p := SkipWhiteSpace(enc, Some(was)).value;
            && |p| <= |was|
            && if p[0] != '<' then
                 var t := P.ParseRun(enc, condense, if condense then p else was);
                 && (t.rest.Some? ==> |t.rest.value| < |was|) && t.err == NoError
                 && P.ReadValue(enc, condense, Some(was), kids) ==
                    P.ReadValue(enc, condense, t.rest, if P.Blank(t.node.text) then kids else kids + [t.node])
               else if StringEqual(p, "</", false) then
                 P.ReadValue(enc, condense, Some(was), kids) == Content(kids, Some(p), NoError)
               else
                 var n := P.ParseNode(enc, condense, KindOf(p), p);
                 && (n.rest.Some? ==> |n.rest.value| < |was|)
                 && P.ReadValue(enc, condense, Some(was), kids) ==
                    var r := P.ReadValue(enc, condense, n.rest, kids + [n.node]); r.(err := First(n.err, r.err))
  {
    hide SkipWhiteSpace, StringEqual, P.ParseNode, KindOf, P.ParseRun, P.Blank, P.ReadValue;
    var p := SkipWhiteSpace(enc, Some(was)).value;
    SuffixIsShorter(p, was);
    if p[0] != '<' {
      RunPass(enc, condense, was, kids);
    } else if !StringEqual(p, "</", false) {
      NodePass(enc, condense, was, kids);
    } else {
      EndPass(enc, condense, was, kids);
    }
  }

  lemma SuffixIsShorter(p: string, was: string)
    requires Suffix(p, was)
    ensures |p| <= |was|
  {}

  lemma EndPass(enc: Encoding, condense: bool, was: string, kids: seq<Node>)
    requires var p := SkipWhiteSpace(enc, Some(was));
             p.Some? && p.value != "" && p.value[0] == '<' && StringEqual(p.value, "</", false)
    ensures P.ReadValue(enc, condense, Some(was), kids) == Content(kids, SkipWhiteSpace(enc, Some(was)), NoError)
  {
    hide SkipWhiteSpace, StringEqual, P.ParseNode, KindOf, P.ParseRun, P.Blank, Suffix;
  }

  lemma RunPass(enc: Encoding, condense: bool, was: string, kids: seq<Node>)
    requires var p := SkipWhiteSpace(enc, Some(was)); p.Some? && p.value != "" && p.value[0] != '<'
    ensures var p := SkipWhiteSpace(enc, Some(was)).value;
            var t := P.ParseRun(enc, condense, if condense then p else was);
            && (t.rest.Some? ==> |t.rest.value| < |was|) && t.err == NoError
            && P.ReadValue(enc, condense, Some(was), kids) ==
               P.ReadValue(enc, condense, t.rest, if P.Blank(t.node.text) then kids else kids + [t.node])
  {
    hide SkipWhite, StringEqual, P.ParseNode, KindOf, P.ParseRun, P.Blank, Suffix;
    var p := SkipWhiteSpace(enc, Some(was)).value;
    TagIsNoWhite(enc, was);
    RunStarts(p, was);
    RunIsBehind(enc, condense, if condense then p else was, p, was);
    RunHasNoError(enc, condense, if condense then p else was);
    FirstNone(P.ReadValue(enc, condense, P.ParseRun(enc, condense, if condense then p else was).rest,
      if P.Blank(P.ParseRun(enc, condense, if condense then p else was).node.text) then kids
      else kids + [P.ParseRun(enc, condense, if condense then p else was).node]).err);
  }

  lemma RunStarts(p: string, was: string)
    ensures Suffix(was, was)
  {
    assert was[0..] == was;
  }

  lemma RunHasNoError(enc: Encoding, condense: bool, p: string)
    ensures P.ParseRun(enc, condense, p).err == NoError
  {
    hide ReadText;
  }

  lemma NodePass(enc: Encoding, condense: bool, was: string, kids: seq<Node>)
    requires var p := SkipWhiteSpace(enc, Some(was));
             p.Some? && p.value != "" && p.value[0] == '<' && !StringEqual(p.value, "</", false)
    ensures var p := SkipWhiteSpace(enc, Some(was)).value;
            var n := P.ParseNode(enc, condense, KindOf(p), p);
            && (n.rest.Some? ==> |n.rest.value| < |was|)
            && P.ReadValue(enc, condense, Some(was), kids) ==
               var r := P.ReadValue(enc, condense, n.rest, kids + [n.node]); r.(err := First(n.err, r.err))
  {
    hide SkipWhite, StringEqual, P.ParseNode, KindOf, P.ParseRun, P.Blank, Suffix;
    var p := SkipWhiteSpace(enc, Some(was)).value;
    BehindSkipped(P.ParseNode(enc, condense, KindOf(p), p).rest, p, was);
  }

  lemma ValueEnds(enc: Encoding, condense: bool, was: Ptr, kids: seq<Node>)
    ensures var p := SkipWhiteSpace(enc, was);
            && (p.None? ==> P.ReadValue(enc, condense, was, kids) == Content(kids, None, ReadingElementValue))
            && (p.Some? && p.value == "" ==> P.ReadValue(enc, condense, was, kids) == Content(kids, p, NoError))
  {
    hide SkipWhite;
  }

  /** One pass of the attribute loop, spelled out. */
  lemma StepOf(enc: Encoding, condense: bool, p: string, attrs: seq<Attr>)
    requires p != ""
    ensures var q := SkipWhiteSpace(enc, Some(p));
            var a := P.ParseAttribute(enc, condense, q);
            AttributeStep(enc, condense, p, attrs) ==
            if q.value == "" then Stop(BadTag(attrs, ReadingAttributes))
            else if q.value[0] == '/' then
              if |q.value| > 1 && q.value[1] == '>' then Stop(EmptyTag(attrs, q.value[2..]))
              else Stop(BadTag(attrs, ParsingEmpty))
            else if q.value[0] == '>' then Stop(OpenTag(attrs, q.value[1..]))
            else if a.rest.None? || a.rest.value == "" then Stop(BadTag(attrs, First(a.err, ParsingElement)))
            else if a.attr.name in AttrNames(attrs) then Stop(BadTag(attrs, ParsingElement))
            else Go(a.attr, a.rest.value)
  {
    hide SkipWhite, P.ParseAttribute;
  }

  /** One pass of the loop over a declaration, spelled out. */
  lemma DeclarationPass(enc: Encoding, condense: bool, p: string, d: Node)
    requires d.Declaration? && p != "" && p[0] != '>'
    ensures var q := SkipWhiteSpace(enc, Some(p)).value;
            var a := P.ParseAttribute(enc, condense, Some(q));
            && Behind(a.rest, p) && Behind(Some(q[JunkLength(q)..]), p)
            && ParseDeclarationLoop(enc, condense, Some(p), d) ==
               if StringEqual(q, "version", true) then
                 ParseDeclarationLoop(enc, condense, a.rest, d.(version := CString(a.attr.value)))
               else if StringEqual(q, "encoding", true) then
                 ParseDeclarationLoop(enc, condense, a.rest, d.(encoding := CString(a.attr.value)))
               else if StringEqual(q, "standalone", true) then
                 ParseDeclarationLoop(enc, condense, a.rest, d.(standalone := CString(a.attr.value)))
               else ParseDeclarationLoop(enc, condense, Some(q[JunkLength(q)..]), d)
  {
    hide StringEqual, P.ParseAttribute, JunkLength, SkipWhite;
    var q := SkipWhiteSpace(enc, Some(p)).value;
    BehindWhite(enc, P.ParseAttribute(enc, condense, Some(q)).rest, p);
    JunkIsBehind(enc, p);
  }

  lemma LoopEnds(enc: Encoding, condense: bool, p: Ptr, d: Node)
    requires d.Declaration?
    ensures p.None? || p.value == "" ==> ParseDeclarationLoop(enc, condense, p, d) == Parsed(d, None, NoError)
    ensures p.Some? && p.value != "" && p.value[0] == '>' ==>
            ParseDeclarationLoop(enc, condense, p, d) == Parsed(d, Some(p.value[1..]), NoError)
  {}

  lemma EmptyIsNoMark(p: Ptr, mark: string)
    ensures p.Some? && p.value == "" ==> !StringEqual(p.value, mark, true)
  {}

  lemma MarkFits(p: string, mark: string, ignoreCase: bool)
    requires StringEqual(p, mark, ignoreCase)
    ensures |mark| <= |p|
  {}
}
