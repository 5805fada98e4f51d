// What the parser can build at all, from any text: names are names, marks do not
// occur in what they end, and running texts never stand side by side. So these
// conditions on documents that come back are necessary.
module XmlRange {
  import opened Options
  import opened Sequences
  import opened XmlText
  import opened XmlParser
  import opened XmlCodec
  import opened XmlRoundTrip

  // ---- Where reading stops ----

  lemma {:induction false} SkipStops(enc: Encoding, p: string)
    ensures var q := SkipWhite(enc, p);
            q == "" || (!IsWhiteSpace(q[0]) && !(enc.Utf8? && StartsWithMark(q)))
    decreases |p|
  {
    hide SkipWhite, IsWhiteSpace, StartsWithMark;
    if p == "" {
      SkipNothing(enc);
    } else {
      SkipStep(enc, p);
      if enc.Utf8? && StartsWithMark(p) {
        SkipStops(enc, p[3..]);
      } else if IsWhiteSpace(p[0]) {
        SkipStops(enc, p[1..]);
      }
    }
  }

  lemma SkipTwice(enc: Encoding, p: string)
    ensures SkipWhite(enc, SkipWhite(enc, p)) == SkipWhite(enc, p)
  {
    SkipStops(enc, p);
    var q := SkipWhite(enc, p);
    if q != "" {
      SkipStep(enc, q);
    }
  }

  lemma {:induction false} KeepStops(enc: Encoding, p: Ptr, end: string, acc: string)
    ensures var r := ReadKeep(enc, p, end, acc);
            r.rest.Some? ==> r.rest.value == "" || StringEqual(r.rest.value, end, false)
    decreases if p.Some? then |p.value| else 0
  {
    if p.None? || p.value == "" || StringEqual(p.value, end, false) {
    } else {
      var c := GetChar(enc, p.value);
      if c.rest.Some? {
        KeepStops(enc, c.rest, end, acc + c.out);
      }
      hide GetChar, StringEqual;
    }
  }

  lemma {:induction false} CondensedStops(enc: Encoding, p: Ptr, end: string, acc: string, white: bool)
    ensures var r := ReadCondensed(enc, p, end, acc, white);
            r.rest.Some? ==> r.rest.value == "" || StringEqual(r.rest.value, end, false)
    decreases if p.Some? then |p.value| else 0
  {
    if p.None? || p.value == "" || StringEqual(p.value, end, false) {
    } else if IsWhiteSpace(p.value[0]) {
      CondensedStops(enc, Some(p.value[1..]), end, acc, true);
    } else {
      var c := GetChar(enc, p.value);
      if c.rest.Some? {
        CondensedStops(enc, c.rest, end, (if white then acc + " " else acc) + c.out, false);
      }
      hide GetChar, StringEqual;
    }
  }

  lemma TagOf(r: Ptr)
    requires r.Some? ==> r.value == "" || StringEqual(r.value, "<", false)
    ensures PastEnd(r, "<").Some? ==>
              r.Some? && |r.value| > 1 && r.value[0] == '<' && PastEnd(r, "<").value == r.value[1..]
  {}

  lemma EndOfText(enc: Encoding, condense: bool, p: string) returns (r: Ptr)
    ensures ReadText(enc, condense, Some(p), true, "<").rest == PastEnd(r, "<")
    ensures r.Some? ==> (r.value == "" || StringEqual(r.value, "<", false)) && Suffix(r.value, p)
  {
    hide ReadKeep, ReadCondensed, SkipWhite, StringEqual;
    if condense {
      var q := SkipWhiteSpace(enc, Some(p));
      CondensedStops(enc, q, "<", "", false);
      r := ReadCondensed(enc, q, "<", "", false).rest;
      if r.Some? {
        SuffixTrans(r.value, q.value, p);
      }
    } else {
      KeepStops(enc, Some(p), "<", "");
      r := ReadKeep(enc, Some(p), "<", "").rest;
    }
  }

  /** Running text always ends in front of a tag, or where nothing follows. */
  lemma RunStopsAtTag(enc: Encoding, condense: bool, p: string)
    ensures var r := ParseRun(enc, condense, p).rest; r.Some? ==> r.value[0] == '<'
  {
    var r := EndOfText(enc, condense, p);
    TagOf(r);
    hide ReadText, StringEqual;
    var t := ReadText(enc, condense, Some(p), true, "<").rest;
    if t.Some? {
      assert p[|p| - |t.value| - 1..] == r.value;
    }
  }

  // ---- Names and attributes ----

  lemma NameInRange(enc: Encoding, p: string, n: nat)
    requires SkipWhite(enc, p) == p && NameLength(Some(p)) == Some(n)
    ensures NameOk(enc, p[..n])
  {
    SkipStops(enc, p);
    var name := p[..n];
    assert StartsWithMark(name) ==> StartsWithMark(p);
  }

  lemma AttrNameInRange(enc: Encoding, condense: bool, p: Ptr)
    requires ParseAttribute(enc, condense, p).rest.Some?
    ensures NameOk(enc, ParseAttribute(enc, condense, p).attr.name)
  {
    hide SkipWhite, NameLength, ParseAfterName, NameOk;
    var q := SkipWhiteSpace(enc, p).value;
    SkipTwice(enc, p.value);
    var n := NameLength(Some(q)).value;
    NameInRange(enc, q, n);
    AfterNameKeeps(enc, condense, q[..n], q[n..]);
  }

  lemma AfterNameKeeps(enc: Encoding, condense: bool, name: string, p: string)
    ensures ParseAfterName(enc, condense, name, p).attr.name == name
  {
    hide SkipWhite, ReadText, BareLength;
  }

  lemma StepInRange(enc: Encoding, condense: bool, p: string, attrs: seq<Attr>)
    requires p != ""
    ensures var r := AttributeStep(enc, condense, p, attrs);
            && (r.Go? ==> NameOk(enc, r.attr.name) && forall i :: 0 <= i < |attrs| ==> attrs[i].name != r.attr.name)
            && (r.Stop? ==> r.end.attrs == attrs && (r.end.BadTag? ==> r.end.err != NoError))
  {
    hide SkipWhite, ParseAttribute, NameOk;
    var q := SkipWhiteSpace(enc, Some(p));
    if q.value != "" && ParseAttribute(enc, condense, q).rest.Some? {
      AttrNameInRange(enc, condense, q);
    }
  }

  lemma AddAttr(enc: Encoding, attrs: seq<Attr>, a: Attr)
    requires AttrsShaped(enc, attrs) && NameOk(enc, a.name) && forall i :: 0 <= i < |attrs| ==> attrs[i].name != a.name
    ensures AttrsShaped(enc, attrs + [a])
  {
    hide NameOk;
  }

  /** The attribute loop collects attributes with different names, and only appends. */
  lemma {:induction false} AttrsInRange(enc: Encoding, condense: bool, p: string, attrs: seq<Attr>)
    requires p != "" && AttrsShaped(enc, attrs)
    ensures var r := ParseAttributes(enc, condense, p, attrs);
            AttrsShaped(enc, r.attrs) && attrs <= r.attrs && (r.BadTag? ==> r.err != NoError)
    decreases |p|
  {
    hide AttributeStep, AttrsShaped, NameOk, Suffix;
    StepInRange(enc, condense, p, attrs);
    match AttributeStep(enc, condense, p, attrs)
    case Stop(end) =>
    case Go(a, rest) =>
      AddAttr(enc, attrs, a);
      AttrsInRange(enc, condense, rest, attrs + [a]);
  }

  // ---- Leaves ----

  lemma PrefixMark(p: string, n: nat, i: nat, mark: string)
    requires i <= n <= |p| && mark != ""
    ensures StringEqual(p[..n][i..], mark, false) ==> StringEqual(p[i..], mark, false)
  {
    assert p[..n][i..] == p[i..][..n - i];
  }

  lemma PrefixLacks(p: string, mark: string)
    requires mark != ""
    ensures Lacks(p[..RawLength(p, mark)], mark)
  {
    hide RawLength, StringEqual;
    var n := RawLength(p, mark);
    forall i | 0 <= i < n
      ensures !StringEqual(p[..n][i..], mark, false)
    {
      PrefixMark(p, n, i, mark);
    }
  }

  lemma CommentInRange(enc: Encoding, p: string)
    ensures var r := ParseComment(enc, p); r.err == NoError ==> Lacks(r.node.text, "-->")
  {
    hide SkipWhite, RawLength, Lacks;
    var q := SkipWhiteSpace(enc, Some(p));
    if q.Some? && |q.value| >= 4 {
      PrefixLacks(q.value[4..], "-->");
    }
  }

  lemma CdataInRange(enc: Encoding, condense: bool, p: string)
    ensures var r := ParseCdata(enc, condense, p); r.err == NoError ==> Lacks(r.node.text, "]]>")
  {
    hide RawLength, Lacks, ReadText;
    if |p| >= 9 {
      PrefixLacks(p[9..], "]]>");
    }
  }

  lemma CutMark(q: string, n: nat, mark: string, ignoreCase: bool)
    requires 0 < n <= |q| && '>' !in mark
    ensures StringEqual(q[..n] + ">", mark, ignoreCase) ==> StringEqual(q, mark, ignoreCase)
  {
    var c := q[..n] + ">";
    if |mark| > n {
      assert mark[n] in mark;
      if |c| > n {
        Differ(c, mark, ignoreCase, n);
      }
    } else {
      assert forall i :: 0 <= i < |mark| ==> c[i] == q[i];
    }
  }

  /** A tag cut off behind its text is of the same kind. */
  lemma KindOfCut(q: string, n: nat)
    requires KindOf(q) == UnknownKind && 0 < n <= |q| && q[0] == '<'
    ensures KindOf(q[..n] + ">") == UnknownKind
  {
    var c := q[..n] + ">";
    CutMark(q, n, "<?xml", true);
    CutMark(q, n, "<!--", false);
    CutMark(q, n, "<![CDATA[", false);
    assert c[1] == if n > 1 then q[1] else '>';
    assert StringEqual(q, "<!", false) ==> q[1] == '!';
    hide StringEqual;
  }

  lemma UnknownRead(enc: Encoding, p: string)
    requires p != "" && p[0] == '<'
    ensures var r := ParseUnknown(enc, p);
            r.err == NoError && r.node == UnknownTag(p[1..][..RawLength(p[1..], ">")])
  {
    SkipWhiteStays(enc, p);
    hide SkipWhite, RawLength;
  }

  lemma UnknownShaped(enc: Encoding, p: string, n: nat)
    requires n < |p| && p[0] == '<' && '>' !in p[1..][..n] && KindOf("<" + p[1..][..n] + ">") == UnknownKind
    ensures Shaped(enc, UnknownTag(p[1..][..n]))
    ensures LikeEndTag(UnknownTag(p[1..][..n])) ==> StringEqual(p, "</", false)
  {
    hide KindOf;
  }

  lemma UnknownInRange(enc: Encoding, p: string)
    requires p != "" && p[0] == '<' && KindOf(p) == UnknownKind
    ensures var r := ParseUnknown(enc, p);
            && r.err == NoError && Shaped(enc, r.node)
            && (LikeEndTag(r.node) ==> StringEqual(p, "</", false))
  {
    hide *;
    var body := p[1..];
    var n := RawLength(body, ">");
    UnknownRead(enc, p);
    PrefixLacks(body, ">");
    BracketLacks(body[..n]);
    KindOfCut(p, n + 1);
    assert p[..n + 1] == "<" + body[..n];
    UnknownShaped(enc, p, n);
  }

  /** The fields of a declaration are C strings. */
  predicate FieldsCut(d: Node)
    requires d.Declaration?
  {
    NulFree(d.version) && NulFree(d.encoding) && NulFree(d.standalone)
  }

  lemma {:induction false} FieldsInRange(enc: Encoding, condense: bool, p: Ptr, d: Node)
    requires d.Declaration? && FieldsCut(d)
    ensures FieldsCut(ParseDeclarationLoop(enc, condense, p, d).node)
    decreases if p.Some? then |p.value| else 0, 1
  {
    hide ParseAttribute, StringEqual, SkipWhite, JunkLength, CString, Suffix;
    if p.Some? && p.value != "" && p.value[0] != '>' {
      var q := SkipWhiteSpace(enc, p).value;
      var a := ParseAttribute(enc, condense, Some(q));
      BehindWhite(enc, a.rest, p.value);
      CStringIs(a.attr.value);
      var v := CString(a.attr.value);
      if StringEqual(q, "version", true) {
        FieldsAfter(enc, condense, p.value, a.rest, d.(version := v));
      } else if StringEqual(q, "encoding", true) {
        FieldsAfter(enc, condense, p.value, a.rest, d.(encoding := v));
      } else if StringEqual(q, "standalone", true) {
        FieldsAfter(enc, condense, p.value, a.rest, d.(standalone := v));
      } else {
        JunkIsBehind(enc, p.value);
        FieldsAfter(enc, condense, p.value, Some(q[JunkLength(q)..]), d);
      }
    }
  }

  lemma {:induction false} FieldsAfter(enc: Encoding, condense: bool, p: string, next: Ptr, d: Node)
    requires d.Declaration? && FieldsCut(d) && Behind(next, p)
    ensures FieldsCut(DeclarationStep(enc, condense, p, next, d).node)
    decreases |p|, 0
  {
    if next.Some? {
      FieldsInRange(enc, condense, next, d);
    }
    hide ParseDeclarationLoop;
  }

  /** The fields of a declaration never hold a NUL. */
  lemma DeclarationInRange(enc: Encoding, condense: bool, p: string)
    ensures FieldsCut(ParseDeclaration(enc, condense, p).node)
  {
    hide ParseDeclarationLoop, SkipWhite;
    var q := SkipWhiteSpace(enc, Some(p));
    if q.Some? && |q.value| >= 5 {
      FieldsInRange(enc, condense, Some(q.value[5..]), Declaration("", "", ""));
    }
  }

  // ---- Elements and their content ----

  ghost predicate AllShaped(enc: Encoding, kids: seq<Node>) {
    forall k :: k in kids ==> Shaped(enc, k)
  }

  lemma Join(enc: Encoding, kids: seq<Node>, n: Node)
    requires Apart(kids) && !LikeEndTag(n) && (kids != [] && Plain(n) ==> !Plain(kids[|kids| - 1]))
    ensures Apart(kids + [n])
    ensures AllShaped(enc, kids) && Shaped(enc, n) ==> AllShaped(enc, kids + [n])
  {
    hide Plain, LikeEndTag, Shaped;
  }

  lemma ElementShaped(enc: Encoding, name: string, attrs: seq<Attr>, kids: seq<Node>)
    requires NameOk(enc, name) && AttrsShaped(enc, attrs) && Apart(kids) && AllShaped(enc, kids)
    ensures Shaped(enc, Element(name, attrs, kids))
  {}

  lemma TagNameInRange(enc: Encoding, p: string)
    requires p != "" && ParseTagName(enc, p).Some?
    ensures NameOk(enc, ParseTagName(enc, p).value.0)
  {
    hide SkipWhite, NameLength, NameOk;
    var s := SkipWhiteSpace(enc, Some(p[1..])).value;
    SkipTwice(enc, p[1..]);
    NameInRange(enc, s, NameLength(Some(s)).value);
  }

  lemma EndTagInRange(enc: Encoding, e: Node, p: Ptr, err: Error)
    requires e.Element?
    ensures var r := ParseEndTag(enc, e, p, err); r.node == e && (r.err == NoError ==> err == NoError)
  {
    hide SkipWhite, StringEqual;
  }

  lemma NoAttrsShaped(enc: Encoding)
    ensures AttrsShaped(enc, []) && Apart([]) && AllShaped(enc, [])
  {}

  /** An element that was read without an error is shaped. */
  lemma {:induction false} ElementInRange(enc: Encoding, condense: bool, p: string)
    ensures var r := ParseElement(enc, condense, p); r.err == NoError ==> Shaped(enc, r.node)
    decreases |p|, 1
  {
    hide ParseTagName, PartialName, ParseAttributes, ReadValue, ParseEndTag, SkipWhite, Shaped, Apart, AllShaped,
         NameOk, AttrsShaped;
    NoAttrsShaped(enc);
    var q := SkipWhiteSpace(enc, Some(p));
    if q.Some? && q.value != "" && q.value[0] == '<' {
      var t := ParseTagName(enc, q.value);
      if t.Some? {
        TagNameInRange(enc, q.value);
        AttrsInRange(enc, condense, t.value.1, []);
        match ParseAttributes(enc, condense, t.value.1, [])
        case BadTag(_, _) =>
        case EmptyTag(attrs, _) => ElementShaped(enc, t.value.0, attrs, []);
        case OpenTag(attrs, rest) =>
          var c := ReadValue(enc, condense, Some(rest), []);
          ContentInRange(enc, condense, Some(rest), []);
          EndTagInRange(enc, Element(t.value.0, attrs, c.kids), c.rest, c.err);
          if c.err == NoError {
            ElementShaped(enc, t.value.0, attrs, c.kids);
          }
      }
    }
  }

  lemma LeafKinds(enc: Encoding, condense: bool, p: string)
    ensures !Plain(ParseComment(enc, p).node) && !Plain(ParseCdata(enc, condense, p).node)
    ensures !Plain(ParseUnknown(enc, p).node) && !Plain(ParseDeclaration(enc, condense, p).node)
    ensures !Plain(ParseElement(enc, condense, p).node)
  {
    hide ParseComment, ParseCdata, ParseUnknown, ParseDeclaration, ParseElement;
  }

  lemma LeafShaped(enc: Encoding, n: Node)
    ensures n.Comment? && Lacks(n.text, "-->") ==> Shaped(enc, n)
    ensures n.Text? && n.cdata && Lacks(n.text, "]]>") ==> Shaped(enc, n)
    ensures n.Declaration? && FieldsCut(n) ==> Shaped(enc, n)
    ensures n.Text? && !n.cdata && !Blank(n.text) ==> Shaped(enc, n)
    ensures !n.UnknownTag? ==> !LikeEndTag(n)
  {}

  /** Any node that was read without an error is shaped, and no tag yields running text. */
  lemma {:induction false} NodeInRange(enc: Encoding, condense: bool, p: string)
    requires p != "" && p[0] == '<'
    ensures var r := ParseNode(enc, condense, KindOf(p), p);
            && (r.err == NoError ==> Shaped(enc, r.node)) && !Plain(r.node)
            && (LikeEndTag(r.node) ==> StringEqual(p, "</", false))
    decreases |p|, 2
  {
    hide KindOf, Shaped, StringEqual, LikeEndTag, Plain, Lacks, Suffix;
    LeafKinds(enc, condense, p);
    NodeByKind(enc, condense, p);
    var n := ParseNode(enc, condense, KindOf(p), p).node;
    match KindOf(p)
    case DeclarationKind =>
      DeclarationInRange(enc, condense, p);
      LeafShaped(enc, n);
    case CommentKind =>
      CommentInRange(enc, p);
      LeafShaped(enc, n);
    case CdataKind =>
      CdataInRange(enc, condense, p);
      LeafShaped(enc, n);
    case UnknownKind => UnknownInRange(enc, p);
    case ElementKind =>
      ElementInRange(enc, condense, p);
      LeafShaped(enc, n);
  }

  /** Running text comes last only in front of a tag, or where nothing follows. */
  ghost predicate TagNext(kids: seq<Node>, p: Ptr) {
    kids != [] && Plain(kids[|kids| - 1]) ==> p.None? || (p.value != "" && p.value[0] == '<')
  }

  /** The content of an element: running texts never stand side by side, even if an error is found later. */
  lemma {:induction false} ContentInRange(enc: Encoding, condense: bool, withWhite: Ptr, kids: seq<Node>)
    requires Apart(kids) && TagNext(kids, withWhite)
    ensures var r := ReadValue(enc, condense, withWhite, kids);
            Apart(r.kids) && kids <= r.kids && (r.err == NoError && AllShaped(enc, kids) ==> AllShaped(enc, r.kids))
    decreases if withWhite.Some? then |withWhite.value| else 0, 3
  {
    hide *;
    var p := SkipWhiteSpace(enc, withWhite);
    SkippedPtr(enc, withWhite);
    if p.None? || p.value == "" {
      ValueStops(enc, condense, withWhite, kids);
    } else if p.value[0] != '<' {
      var from := if condense then p.value else withWhite.value;
      var t := ParseRun(enc, condense, from);
      TextNext(enc, kids, withWhite, p.value);
      RunStopsAtTag(enc, condense, from);
      RunStep(enc, condense, withWhite, kids);
      LeafShaped(enc, t.node);
      Join(enc, kids, t.node);
      var kids' := if Blank(t.node.text) then kids else kids + [t.node];
      LastIs(kids, t.node);
      ContentInRange(enc, condense, t.rest, kids');
    } else if StringEqual(p.value, "</", false) {
      ValueStops(enc, condense, withWhite, kids);
    } else {
      var n := ParseNode(enc, condense, KindOf(p.value), p.value);
      NodeInRange(enc, condense, p.value);
      NodeStep(enc, condense, withWhite, kids);
      Join(enc, kids, n.node);
      LastIs(kids, n.node);
      ContentInRange(enc, condense, n.rest, kids + [n.node]);
    }
  }

  lemma SkippedPtr(enc: Encoding, p: Ptr)
    ensures var q := SkipWhiteSpace(enc, p);
            && (q.Some? ==> p.Some? && p.value != "" && Suffix(q.value, p.value) && |q.value| <= |p.value|)
            && (p.Some? && p.value != "" ==> q.Some?)
  {}

  lemma LastIs(kids: seq<Node>, n: Node)
    ensures kids <= kids + [n]
    ensures !Plain(n) ==> forall p :: TagNext(kids + [n], p)
    ensures forall p: Ptr :: p.None? || (p.value != "" && p.value[0] == '<') ==>
              TagNext(kids, p) && TagNext(kids + [n], p)
    ensures n.Text? ==> !LikeEndTag(n)
  {}

  /** Text is read only where the last child is no text. */
  lemma TextNext(enc: Encoding, kids: seq<Node>, withWhite: Ptr, p: string)
    requires TagNext(kids, withWhite) && SkipWhiteSpace(enc, withWhite) == Some(p) && p != "" && p[0] != '<'
    ensures kids != [] ==> !Plain(kids[|kids| - 1])
  {
    if kids != [] && Plain(kids[|kids| - 1]) {
      SkipWhiteStays(enc, withWhite.value);
    }
  }

  lemma ValueStops(enc: Encoding, condense: bool, withWhite: Ptr, kids: seq<Node>)
    requires var p := SkipWhiteSpace(enc, withWhite);
             p.None? || p.value == "" || (p.value[0] == '<' && StringEqual(p.value, "</", false))
    ensures ReadValue(enc, condense, withWhite, kids).kids == kids
  {
    hide SkipWhite, StringEqual, ParseRun, ParseNode, KindOf;
  }

  lemma RunStep(enc: Encoding, condense: bool, withWhite: Ptr, kids: seq<Node>)
    requires var p := SkipWhiteSpace(enc, withWhite); p.Some? && p.value != "" && p.value[0] != '<'
    ensures var from := if condense then SkipWhiteSpace(enc, withWhite).value else withWhite.value;
            var t := ParseRun(enc, condense, from);
            var r := ReadValue(enc, condense, t.rest, if Blank(t.node.text) then kids else kids + [t.node]);
            && (t.rest.Some? ==> |t.rest.value| < |withWhite.value|) && t.node.Text? && !t.node.cdata && Plain(t.node)
            && ReadValue(enc, condense, withWhite, kids) == r
  {
    hide *;
    SkippedPtr(enc, withWhite);
    var p := SkipWhiteSpace(enc, withWhite).value;
    var from := if condense then p else withWhite.value;
    NoTagInFront(enc, withWhite);
    WholeIsSuffix(withWhite.value);
    RunIsBehind(enc, condense, from, p, withWhite.value);
    RunHasNoError(enc, condense, from);
    BehindIs(ParseRun(enc, condense, from).rest, withWhite.value);
    RunUnfolds(enc, condense, withWhite, kids);
    AfterRun(enc, condense, withWhite.value, ParseRun(enc, condense, from),
             if Blank(ParseRun(enc, condense, from).node.text) then kids
             else kids + [ParseRun(enc, condense, from).node]);
  }

  lemma NoTagInFront(enc: Encoding, p: Ptr)
    requires var q := SkipWhiteSpace(enc, p); q.Some? && q.value != "" && q.value[0] != '<'
    ensures p.Some? && p.value != "" && p.value[0] != '<'
  {
    if p.value[0] == '<' {
      SkipWhiteStays(enc, p.value);
    }
  }

  lemma WholeIsSuffix(p: string)
    ensures Suffix(p, p)
  {}

  lemma BehindIs(r: Ptr, p: string)
    ensures Behind(r, p) ==> (r.Some? ==> |r.value| < |p|)
  {}

  lemma RunUnfolds(enc: Encoding, condense: bool, withWhite: Ptr, kids: seq<Node>)
    requires var p := SkipWhiteSpace(enc, withWhite); p.Some? && p.value != "" && p.value[0] != '<'
    ensures var from := if condense then SkipWhiteSpace(enc, withWhite).value else withWhite.value;
            var t := ParseRun(enc, condense, from);
            && Behind(t.rest, withWhite.value)
            && ReadValue(enc, condense, withWhite, kids) ==
               NextValue(enc, condense, withWhite.value, t, if Blank(t.node.text) then kids else kids + [t.node])
  {
    hide SkipWhiteSpace, ParseRun, ParseNode, KindOf, StringEqual, Blank, NextValue;
    SkippedPtr(enc, withWhite);
    NoTagInFront(enc, withWhite);
    WholeIsSuffix(withWhite.value);
    var p := SkipWhiteSpace(enc, withWhite).value;
    RunIsBehind(enc, condense, if condense then p else withWhite.value, p, withWhite.value);
  }

  lemma AfterRun(enc: Encoding, condense: bool, was: string, t: Parsed, kids: seq<Node>)
    requires was != "" && Behind(t.rest, was) && t.err == NoError
    ensures NextValue(enc, condense, was, t, kids) == ReadValue(enc, condense, t.rest, kids)
  {
    hide ReadValue;
  }

  lemma RunHasNoError(enc: Encoding, condense: bool, p: string)
    ensures ParseRun(enc, condense, p).err == NoError && Plain(ParseRun(enc, condense, p).node)
  {
    hide ReadText;
  }

  lemma NodeStep(enc: Encoding, condense: bool, withWhite: Ptr, kids: seq<Node>)
    requires var p := SkipWhiteSpace(enc, withWhite);
             p.Some? && p.value != "" && p.value[0] == '<' && !StringEqual(p.value, "</", false)
    ensures var p := SkipWhiteSpace(enc, withWhite).value;
            var n := ParseNode(enc, condense, KindOf(p), p);
            var r := ReadValue(enc, condense, n.rest, kids + [n.node]);
            && (n.rest.Some? ==> |n.rest.value| < |withWhite.value|)
            && ReadValue(enc, condense, withWhite, kids) == r.(err := First(n.err, r.err))
            && (First(n.err, r.err) == NoError ==> n.err == NoError && r.err == NoError)
  {
    hide SkipWhite, StringEqual, ParseRun, KindOf, ParseNode;
    var p := SkipWhiteSpace(enc, withWhite).value;
    var n := ParseNode(enc, condense, KindOf(p), p);
    BehindSkipped(n.rest, p, withWhite.value);
  }

  // ---- Documents ----

  lemma AddNode(enc: Encoding, n: Node, later: seq<Node>)
    requires !Plain(n) && Shaped(enc, n) && NodesShaped(NextEncoding(enc, n), later)
    ensures NodesShaped(enc, [n] + later)
  {
    hide Shaped, NextEncoding;
    assert ([n] + later)[1..] == later;
  }

  lemma TagIdentified(enc: Encoding, condense: bool, p: string)
    requires p != "" && p[0] == '<'
    ensures Identify(enc, p) == Some(KindOf(p))
    ensures Behind(ParseNode(enc, condense, KindOf(p), p).rest, p)
  {
    SkipWhiteStays(enc, p);
    hide SkipWhite, ParseNode, KindOf;
  }

  lemma DocumentNode(enc: Encoding, condense: bool, p: string, kids: seq<Node>)
    requires p != "" && p[0] == '<'
    ensures var n := ParseNode(enc, condense, KindOf(p), p);
            var enc' := NextEncoding(enc, n.node);
            var q := SkipWhiteSpace(enc', n.rest);
            && (q.Some? ==> |q.value| < |p|)
            && var r := if q.Some? then ParseNodes(enc', condense, q, kids + [n.node])
                        else Content(kids + [n.node], None, NoError);
               ParseNodes(enc, condense, Some(p), kids) == r.(err := First(n.err, r.err))
  {
    TagIdentified(enc, condense, p);
    hide Identify, SkipWhite, ParseNode, KindOf, NextEncoding, First;
  }

  lemma NothingShaped(enc: Encoding)
    ensures NodesShaped(enc, [])
  {}

  lemma NoMoreNodes(enc: Encoding, condense: bool, p: Ptr, kids: seq<Node>)
    requires p.None? || p.value == "" || (p.value[0] != '<' && SkipWhite(enc, p.value) == p.value)
    ensures ParseNodes(enc, condense, p, kids).kids == kids
  {
    hide SkipWhite, ParseNode, KindOf;
  }

  /** The loop over the top-level nodes appends nodes that are shaped, and no running text. */
  lemma {:induction false} NodesInRange(enc: Encoding, condense: bool, p: Ptr, kids: seq<Node>)
    returns (more: seq<Node>)
    requires p.Some? ==> SkipWhite(enc, p.value) == p.value
    ensures var r := ParseNodes(enc, condense, p, kids);
            r.kids == kids + more && (r.err == NoError ==> NodesShaped(enc, more))
    decreases if p.Some? then |p.value| else 0
  {
    hide *;
    NothingShaped(enc);
    more := [];
    assert kids + [] == kids;
    if p.None? || p.value == "" || p.value[0] != '<' {
      NoMoreNodes(enc, condense, p, kids);
    } else {
      NodeInRange(enc, condense, p.value);
      DocumentNode(enc, condense, p.value, kids);
      var n := ParseNode(enc, condense, KindOf(p.value), p.value);
      var enc' := NextEncoding(enc, n.node);
      var q := SkipWhiteSpace(enc', n.rest);
      NothingShaped(enc');
      SkippedPtr(enc', n.rest);
      FirstIs(n.err, ParseNodes(enc', condense, q, kids + [n.node]).err);
      FirstIs(n.err, NoError);
      if q.Some? {
        SkippedStays(enc', n.rest);
        more := NodesInRange(enc', condense, q, kids + [n.node]);
      }
      if n.err == NoError && NodesShaped(enc', more) {
        AddNode(enc, n.node, more);
      }
      more := [n.node] + more;
      assert kids + [n.node] == kids + ([n.node] + []) && [n.node] + [] == [n.node];
    }
  }

  lemma SkippedStays(enc: Encoding, p: Ptr)
    requires SkipWhiteSpace(enc, p).Some?
    ensures var q := SkipWhiteSpace(enc, p).value; SkipWhite(enc, q) == q
  {
    SkipTwice(enc, p.value);
    hide SkipWhite;
  }

  lemma FirstIs(e: Error, f: Error)
    ensures First(e, f) == NoError <==> e == NoError && f == NoError
  {}

  /** Every document that is parsed without an error is shaped: no text outside of an element, names that are
      names, attributes with different names, no end mark in what it ends, no blank or neighbouring texts. */
  lemma DocumentInRange(enc: Encoding, condense: bool, p: string)
    requires ParseDocument(enc, condense, p).err == NoError
    ensures var d := ParseDocument(enc, condense, p);
            d.nodes != [] && NodesShaped(if d.bom then Utf8 else enc, d.nodes)
  {
    hide ParseNodes, NodesShaped, SkipWhite;
    var enc' := if ParseDocument(enc, condense, p).bom then Utf8 else enc;
    var q := SkipWhiteSpace(enc', Some(p));
    if q.Some? {
      SkippedStays(enc', Some(p));
    }
    var more := NodesInRange(enc', condense, q, []);
    FirstIs(ParseNodes(enc', condense, q, []).err, DocumentEmpty);
    assert [] + more == more;
  }
}
