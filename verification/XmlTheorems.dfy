// What printing and parsing promise each other: exactly which documents come
// back, and what becomes of the others.
module XmlTheorems {
  import opened Options
  import opened Sequences
  import opened XmlText
  import opened XmlParser
  import opened XmlPrinter
  import opened XmlDocument
  import opened XmlCodec
  import opened XmlRoundTrip
  import opened XmlExact
  import opened XmlRange
  import opened XmlBack
  import D = XmlDom

  // ---- Whole documents ----

  lemma DocumentEnd(enc: Encoding, condense: bool, acc: seq<Node>)
    ensures ParseNodes(enc, condense, Some(""), acc) == Content(acc, Some(""), NoError)
  {}

  lemma OnlyWhiteLeft(enc: Encoding, n: Node, b: string)
    requires AllWhite(b)
    ensures var q := SkipWhiteSpace(enc, After(n, b)); q.None? || q.value == ""
  {
    SkipWhiteRun(enc, b, "");
    assert b + "" == b;
  }

  lemma NextNode(enc: Encoding, n: Node, b: string, p: string)
    requires AllWhite(b) && StartsTag(p)
    ensures SkipWhiteSpace(enc, After(n, b + p)) == Some(p)
  {
    SkipWhiteRun(enc, b, p);
    SkipWhiteStays(enc, p);
    hide SkipWhite;
  }

  lemma PrintFirst(st: Style, nodes: seq<Node>)
    requires nodes != [] && !Plain(nodes[0])
    ensures PrintDocument(st, nodes) == Core(st, nodes[0], 0) + (st.lineBreak + PrintDocument(st, nodes[1..]))
  {
    PrintIsCore(st, nodes[0], 0, false);
    assert Indent(st, 0) == "";
    hide Print, Indent, Core;
    Glue(Core(st, nodes[0], 0), st.lineBreak, PrintDocument(st, nodes[1..]));
    assert "" + (Core(st, nodes[0], 0) + st.lineBreak) == Core(st, nodes[0], 0) + st.lineBreak;
  }

  lemma FirstOk(enc: Encoding, condense: bool, st: Style, nodes: seq<Node>)
    requires nodes != [] && NodesOk(enc, condense, st, nodes)
    ensures !Plain(nodes[0]) && NodeOk(enc, condense, st, false, nodes[0])
    ensures NodesOk(NextEncoding(enc, nodes[0]), condense, st, nodes[1..])
  {
    hide Shaped, Legible, Settled, NextEncoding;
  }

  lemma PrintNothing(st: Style)
    ensures PrintDocument(st, []) == ""
  {}

  lemma NodeIsSome(enc: Encoding, condense: bool, n: Node, p: string, tail: string)
    requires IsRead(enc, condense, n, p, tail)
    ensures StartsTag(p)
  {
    hide ParseNode, KindOf;
  }

  lemma BreakIsWhite(st: Style)
    requires WhiteStyle(st)
    ensures AllWhite(st.lineBreak)
  {}

  lemma SplitFirst(acc: seq<Node>, nodes: seq<Node>)
    requires nodes != []
    ensures acc + [nodes[0]] + nodes[1..] == acc + nodes
    ensures acc + [nodes[0]] == acc + [nodes[0]] + []
  {}

  lemma NothingAfter(b: string)
    ensures b + "" == b
  {}

  lemma {:induction false} NodesAreRead(enc: Encoding, condense: bool, st: Style, nodes: seq<Node>, acc: seq<Node>)
    requires WhiteStyle(st) && nodes != [] && NodesOk(enc, condense, st, nodes)
    ensures StartsTag(PrintDocument(st, nodes))
    ensures var r := ParseNodes(enc, condense, Some(PrintDocument(st, nodes)), acc);
            r.kids == acc + nodes && r.err == NoError
    decreases |nodes|
  {
    hide *;
    BreakIsWhite(st);
    var n, later, b := nodes[0], nodes[1..], st.lineBreak;
    FirstOk(enc, condense, st, nodes);
    PrintFirst(st, nodes);
    var tail := b + PrintDocument(st, later);
    var p := Core(st, n, 0) + tail;
    NodeIsRead(enc, condense, st, n, 0, false, tail);
    NodeIsSome(enc, condense, n, p, tail);
    DocumentStep(enc, condense, p, acc, n, tail);
    var enc' := NextEncoding(enc, n);
    SplitFirst(acc, nodes);
    if later == [] {
      PrintNothing(st);
      NothingAfter(b);
      OnlyWhiteLeft(enc', n, b);
      DocumentEnd(enc', condense, acc + [n]);
    } else {
      NodesAreRead(enc', condense, st, later, acc + [n]);
      NextNode(enc', n, b, PrintDocument(st, later));
    }
  }

  lemma PartsOfFirst(enc: Encoding, condense: bool, st: Style, nodes: seq<Node>)
    requires nodes != [] && NodesShaped(enc, nodes) && NodesLegible(enc, nodes)
    ensures !Plain(nodes[0]) && Shaped(enc, nodes[0]) && Legible(enc, nodes[0])
    ensures var enc' := NextEncoding(enc, nodes[0]);
            && NodesShaped(enc', nodes[1..]) && NodesLegible(enc', nodes[1..])
            && (Settled(enc, condense, st, false, nodes[0]) && NodesSettled(enc', condense, st, nodes[1..]) ==>
                  NodesSettled(enc, condense, st, nodes))
  {
    hide Shaped, Legible, Settled, NextEncoding;
  }

  lemma NoNodesSettled(enc: Encoding, condense: bool, st: Style)
    ensures NodesSettled(enc, condense, st, [])
  {}

  lemma FirstNodeRead(enc: Encoding, condense: bool, p: string, acc: seq<Node>)
    requires StartsTag(p)
    ensures var kids := ParseNodes(enc, condense, Some(p), acc).kids;
            |kids| > |acc| && kids[|acc|] == ParseNode(enc, condense, KindOf(p), p).node
  {
    DocumentNode(enc, condense, p, acc);
    hide ParseNode, KindOf, SkipWhite, NextEncoding, First, SkipWhiteSpace;
    var n := ParseNode(enc, condense, KindOf(p), p).node;
    At(acc, n, ParseNodes(enc, condense, Some(p), acc).kids);
  }

  lemma PrintedStarts(enc: Encoding, st: Style, nodes: seq<Node>)
    requires nodes != [] && NodesShaped(enc, nodes)
    ensures StartsTag(PrintDocument(st, nodes))
  {
    hide Print, Core, Shaped, NextEncoding;
    PrintFirst(st, nodes);
    CoreIsTag(enc, st, nodes[0], 0, st.lineBreak + PrintDocument(st, nodes[1..]));
  }

  /** Printed nodes that come back in their order are settled. */
  lemma {:induction false} NodesBack(enc: Encoding, condense: bool, st: Style, nodes: seq<Node>, acc: seq<Node>)
    requires WhiteStyle(st) && NodesShaped(enc, nodes) && NodesLegible(enc, nodes) && nodes != []
    requires ParseNodes(enc, condense, Some(PrintDocument(st, nodes)), acc).kids == acc + nodes
    ensures NodesSettled(enc, condense, st, nodes)
    decreases |nodes|
  {
    hide *;
    var n, later, b := nodes[0], nodes[1..], st.lineBreak;
    PartsOfFirst(enc, condense, st, nodes);
    var tail := b + PrintDocument(st, later);
    var p := Core(st, n, 0) + tail;
    PrintFirst(st, nodes);
    CoreIsTag(enc, st, n, 0, tail);
    FirstNodeRead(enc, condense, p, acc);
    NextKid(acc, nodes);
    NodeBack(enc, condense, st, n, 0, false, tail);
    var enc' := NextEncoding(enc, n);
    if later == [] {
      NoNodesSettled(enc', condense, st);
    } else {
      AllOk(enc, condense, st, false, n);
      NodeIsRead(enc, condense, st, n, 0, false, tail);
      DocumentStep(enc, condense, p, acc, n, tail);
      BreakIsWhite(st);
      PrintedStarts(enc', st, later);
      NextNode(enc', n, b, PrintDocument(st, later));
      NodesBack(enc', condense, st, later, acc + [n]);
    }
  }

  /** The document that a printed one should be read as; one without nodes prints to nothing, which is an error. */
  function SameDocument(nodes: seq<Node>): Document {
    Document(nodes, false, if nodes == [] then DocumentEmpty else NoError)
  }

  lemma OkParts(enc: Encoding, condense: bool, st: Style, nodes: seq<Node>)
    ensures NodesOk(enc, condense, st, nodes) <==>
            NodesShaped(enc, nodes) && NodesLegible(enc, nodes) && NodesSettled(enc, condense, st, nodes)
    ensures nodes == [] ==> NodesShaped(enc, nodes) && NodesSettled(enc, condense, st, nodes)
  {}

  lemma SameIs(nodes: seq<Node>)
    ensures SameDocument(nodes) == Document(nodes, false, if nodes == [] then DocumentEmpty else NoError)
  {}

  /** Parsing what a printer printed gives the same document, without an error, exactly if the document is shaped
      like one that was parsed and is settled: no references, and no white space that would be changed. */
  lemma DocumentRoundTrip(enc: Encoding, condense: bool, st: Style, nodes: seq<Node>)
    requires WhiteStyle(st) && NodesLegible(enc, nodes)
    ensures ParseDocument(enc, condense, PrintDocument(st, nodes)) == SameDocument(nodes) <==>
            NodesShaped(enc, nodes) && NodesSettled(enc, condense, st, nodes)
  {
    hide *;
    var p := PrintDocument(st, nodes);
    OkParts(enc, condense, st, nodes);
    SameIs(nodes);
    if nodes == [] {
      PrintNothing(st);
      EmptyDocument(enc, condense);
    } else {
      if NodesOk(enc, condense, st, nodes) {
        NodesAreRead(enc, condense, st, nodes, []);
        DocumentOfNodes(enc, condense, p);
        assert [] + nodes == nodes;
      }
      if ParseDocument(enc, condense, p) == SameDocument(nodes) {
        DocumentInRange(enc, condense, p);
        PrintedStarts(enc, st, nodes);
        DocumentOfNodes(enc, condense, p);
        assert [] + nodes == nodes;
        NodesBack(enc, condense, st, nodes, []);
      }
    }
  }

  lemma EmptyDocument(enc: Encoding, condense: bool)
    ensures ParseDocument(enc, condense, "") == Document([], false, DocumentEmpty)
  {}

  lemma DocumentOfNodes(enc: Encoding, condense: bool, p: string)
    requires StartsTag(p)
    ensures var r := ParseNodes(enc, condense, Some(p), []);
            && (r.kids != [] ==> ParseDocument(enc, condense, p) == Document(r.kids, false, r.err))
            && ParseDocument(enc, condense, p).nodes == r.kids
  {
    hide ParseNodes, SkipWhite, Suffix;
    SkipWhiteStays(enc, p);
  }

  /** Both ways in which TiXmlPrinter prints are covered. */
  lemma PrinterStyles()
    ensures WhiteStyle(Style("    ", "\n")) && WhiteStyle(Style("", ""))
  {}

  /** The text that TiXmlPrinter leaves in its buffer makes a new TiXmlDocument hold the nodes that were visited,
      exactly for the documents of the round trip. */
  method PrintAndParse(enc: Encoding, condense: bool, nodes: seq<Node>, stream: bool) returns (doc: TiXmlDocument)
    requires NodesLegible(enc, nodes)
    ensures fresh(doc)
    ensures Document(doc.nodes, doc.useMicrosoftBOM, doc.error) == SameDocument(nodes) <==>
            && NodesShaped(enc, nodes)
            && NodesSettled(enc, condense, if stream then Style("", "") else Style("    ", "\n"), nodes)
  {
    hide NodesShaped, NodesLegible, NodesSettled, ParseDocument, PrintDocument, WhiteStyle;
    var printer := new TiXmlPrinter();
    if stream {
      printer.SetStreamPrinting();
    }
    ghost var st := if stream then Style("", "") else Style("    ", "\n");
    PrinterStyles();
    DocumentRoundTrip(enc, condense, st, nodes);
    printer.AcceptDocument(nodes);
    assert "" + PrintDocument(st, nodes) == PrintDocument(st, nodes);
    doc := new TiXmlDocument();
    doc.condenseWhiteSpace := condense;
    doc.Parse(printer.buffer, enc);
    assert [] + ParseDocument(enc, condense, PrintDocument(st, nodes)).nodes ==
           ParseDocument(enc, condense, PrintDocument(st, nodes)).nodes;
  }

  // ---- Neighbouring texts ----

  /** Children that each come back by themselves come back together exactly if no two running texts stand side by
      side, and none reads like an end tag: in every style and mode and at every depth. */
  lemma NeighboursMatter(enc: Encoding, condense: bool, st: Style, n: Node, depth: int, tail: string)
    requires WhiteStyle(st) && n.Element? && !Plain(n) && NameOk(enc, n.name) && AttrsOk(enc, n.attrs)
    requires forall k :: k in n.kids ==> NodeOk(enc, condense, st, Simple(n.kids), k)
    ensures ParseElement(enc, condense, Core(st, n, depth) + tail) == Parsed(n, Some(tail), NoError) <==> Apart(n.kids)
  {
    hide *;
    var p := Core(st, n, depth) + tail;
    NodeByKind(enc, condense, p);
    if Apart(n.kids) {
      ElementOk(enc, condense, st, n);
      NodeIsRead(enc, condense, st, n, depth, false, tail);
      ElementStarts(enc, condense, st, n, depth, tail);
      ReadElement(enc, condense, n, p, tail);
    } else {
      ElementInRange(enc, condense, p);
      ShapedIsApart(enc, n);
    }
  }

  lemma ElementOk(enc: Encoding, condense: bool, st: Style, n: Node)
    requires n.Element? && NameOk(enc, n.name) && AttrsOk(enc, n.attrs) && Apart(n.kids)
    requires forall k :: k in n.kids ==> NodeOk(enc, condense, st, Simple(n.kids), k)
    ensures NodeOk(enc, condense, st, false, n)
  {
    assert forall i :: 0 <= i < |n.attrs| ==> AttrOk(enc, n.attrs[i]);
    hide NameOk, Whole, Apart;
  }

  lemma ReadElement(enc: Encoding, condense: bool, n: Node, p: string, tail: string)
    requires n.Element? && IsRead(enc, condense, n, p, tail) && KindOf(p) == ElementKind
    ensures ParseElement(enc, condense, p) == Parsed(n, Some(tail), NoError)
  {
    hide ParseElement, KindOf;
  }

  lemma ShapedIsApart(enc: Encoding, n: Node)
    requires n.Element?
    ensures Shaped(enc, n) ==> Apart(n.kids)
  {
    hide NameOk, AttrsShaped, Apart;
  }

  lemma PrintTwo(st: Style, s: string, t: string, depth: int, rest: string)
    ensures PrintKids(st, [Text(s, false), Text(t, false)], depth, false) + rest ==
            Indent(st, depth) + (Encode(s) + ((st.lineBreak + Indent(st, depth)) + (Encode(t) + (st.lineBreak + rest))))
  {
    hide Encode, Indent, Print;
    var kids := [Text(s, false), Text(t, false)];
    assert kids[1..] == [Text(t, false)] && kids[1..][1..] == [];
    var i, b := Indent(st, depth), st.lineBreak;
    PrintRun(st, s, depth, false, Print(st, kids[1], depth, false) + rest);
    PrintRun(st, t, depth, false, rest);
    Glue(Print(st, kids[0], depth, false), Print(st, kids[1], depth, false), rest);
    Glue(b, i, Encode(t) + (b + rest));
    assert PrintKids(st, kids[1..], depth, false) == Print(st, kids[1], depth, false);
  }

  lemma BothIs(s: string, m: string, t: string)
    ensures (if m != "" then s + " " else s) + t == s + (if m == "" then "" else " ") + t
    ensures "" + s == s
  {}

  /** Two texts with white space between them, condensed: they become one. */
  lemma TwoTexts(enc: Encoding, s: string, m: string, t: string, b: string, y: string)
    requires Whole(enc, s) && NoReference(s) && Tight(s) && !(enc.Utf8? && StartsWithMark(s))
    requires Whole(enc, t) && NoReference(t) && Tight(t) && AllWhite(m) && AllWhite(b) && StartsTag(y)
    ensures ReadText(enc, true, Some(Encode(s) + (m + (Encode(t) + (b + y)))), true, "<") ==
            TextResult(Some(y[1..]), s + (if m == "" then "" else " ") + t)
  {
    assert |y| > 1 && y[0] == '<' && Encode(s) != "";
    hide *;
    var q := Encode(t) + (b + y);
    var p, both := Encode(s) + (m + q), s + (if m == "" then "" else " ") + t;
    TightStart(enc, s, m + q);
    SkipIsNoSkip(enc, p);
    CondensedTight(enc, s, m + q, "", false);
    CondensedSpaces(enc, m, q, s, false);
    CondensedTight(enc, t, b + y, s, m != "");
    BothIs(s, m, t);
    CondensedWhite(enc, b, y, both, false);
    ReadCondensedText(enc, p, p, y, both);
  }

  /** The layout that a printer puts between two texts. */
  function Between(st: Style, depth: int): string {
    st.lineBreak + Indent(st, depth)
  }

  lemma BetweenIsWhite(st: Style, depth: int)
    requires WhiteStyle(st)
    ensures AllWhite(Between(st, depth)) && AllWhite(Indent(st, depth)) && AllWhite(st.lineBreak)
  {
    IndentWhite(st, depth);
    hide Indent;
  }

  lemma NotBlankTogether(s: string, m: string, t: string)
    requires !Blank(s)
    ensures !Blank(s + m + t)
  {
    var i :| 0 <= i < |s| && !IsWhiteSpace(s[i]);
    assert (s + m + t)[i] == s[i];
  }

  lemma TailInside(a: string, b: string, c: string, d: string, e: string, y: string)
    ensures Suffix(y, a + (b + (c + (d + (e + y)))))
  {
    assert (a + (b + (c + (d + (e + y)))))[|a| + |b| + |c| + |d| + |e|..] == y;
  }

  /** Neighbouring texts become one, in every style: with a blank between them if the printer puts layout there. */
  lemma NeighbourTextsMerge(enc: Encoding, st: Style, s: string, t: string, depth: int, w: string, end: string,
                            acc: seq<Node>)
    requires WhiteStyle(st) && AllWhite(w) && StartsTag(end)
    requires Whole(enc, s) && NoReference(s) && Tight(s) && !Blank(s) && !(enc.Utf8? && StartsWithMark(s))
    requires Whole(enc, t) && NoReference(t) && Tight(t)
    ensures var p := PrintKids(st, [Text(s, false), Text(t, false)], depth, false) + (w + end);
            var both := s + (if Between(st, depth) == "" then "" else " ") + t;
            ReadValue(enc, true, Some(p), acc) == ReadValue(enc, true, Some(end), acc + [Text(both, false)])
  {
    hide *;
    var m, b := Between(st, depth), st.lineBreak + w;
    var p := Encode(s) + (m + (Encode(t) + (b + end)));
    var both := s + (if m == "" then "" else " ") + t;
    BetweenIsWhite(st, depth);
    WhiteTogether(st.lineBreak, w);
    PrintTwo(st, s, t, depth, w + end);
    BetweenIs(st, depth);
    Glue(st.lineBreak, w, end);
    TwoTexts(enc, s, m, t, b, end);
    TightStart(enc, s, m + (Encode(t) + (b + end)));
    SkipWhiteRun(enc, Indent(st, depth), p);
    TailInside("", Encode(s), m, Encode(t), b, end);
    assert "" + p == p;
    TagIsLong(end);
    RunFromText(enc, true, p, both, end);
    NotBlankTogether(s, if m == "" then "" else " ", t);
    TightIsLong(s, Indent(st, depth), m + (Encode(t) + (b + end)));
    ValueRun(enc, true, Indent(st, depth) + p, p, acc, both, end);
  }

  lemma WhiteTogether(a: string, b: string)
    requires AllWhite(a) && AllWhite(b)
    ensures AllWhite(a + b)
  {}

  lemma BetweenIs(st: Style, depth: int)
    ensures Between(st, depth) == st.lineBreak + Indent(st, depth)
  {}

  lemma TagIsLong(p: string)
    requires StartsTag(p)
    ensures |p| > 1 && p[0] == '<'
  {}

  lemma TightIsLong(s: string, i: string, rest: string)
    requires Tight(s)
    ensures Encode(s) + rest != "" && i + (Encode(s) + rest) != ""
  {}

  /** With white space kept, they become one as well, with all the layout in it. */
  lemma NeighbourTextsKept(enc: Encoding, a: string, s: string, m: string, t: string, b: string, rest: string)
    requires Whole(enc, s) && NoReference(s) && Whole(enc, t) && NoReference(t)
    requires AllWhite(a) && AllWhite(m) && AllWhite(b) && rest != ""
    ensures ReadText(enc, false, Some(a + (Encode(s) + (m + (Encode(t) + (b + ("<" + rest)))))), true, "<") ==
            TextResult(Some(rest), a + s + m + t + b)
  {
    hide *;
    var tail := "<" + rest;
    var later := Encode(t) + (b + tail);
    EndAhead("<", rest);
    ReadTextKeeps(enc, false, a + (Encode(s) + (m + later)), true, "<");
    KeepWhite(enc, a, Encode(s) + (m + later), "<", "");
    assert "" + a == a;
    KeepPart(enc, s, m + later, "<", a);
    KeepWhite(enc, m, later, "<", a + s);
    KeptRun(enc, t, b, "<", tail, a + s + m);
  }

  /** Beside another node, pretty printing does not preserve a text that is read with its white space; stream
      printing does. */
  lemma PrettyPrintingAddsWhite()
    ensures var nodes := [Element("a", [], [Text("x", false), Comment("")])];
            && ParseDocument(Unknown, false, PrintDocument(Style("    ", "\n"), nodes)) != SameDocument(nodes)
            && ParseDocument(Unknown, false, PrintDocument(Style("", ""), nodes)) == SameDocument(nodes)
  {
    hide *;
    var e := Element("a", [], [Text("x", false), Comment("")]);
    PrinterStyles();
    TextAndComment(Style("    ", "\n"));
    TextAndComment(Style("", ""));
    DocumentRoundTrip(Unknown, false, Style("    ", "\n"), [e]);
    DocumentRoundTrip(Unknown, false, Style("", ""), [e]);
  }

  lemma OneNode(enc: Encoding, condense: bool, st: Style, n: Node)
    ensures NodesShaped(enc, [n]) <==> !Plain(n) && Shaped(enc, n)
    ensures NodesLegible(enc, [n]) <==> Legible(enc, n)
    ensures NodesSettled(enc, condense, st, [n]) <==> Settled(enc, condense, st, false, n)
  {
    hide Shaped, Legible, Settled, NextEncoding;
    assert [n][1..] == [];
  }

  lemma TextAndComment(st: Style)
    ensures var nodes := [Element("a", [], [Text("x", false), Comment("")])];
            && NodesShaped(Unknown, nodes) && NodesLegible(Unknown, nodes)
            && (NodesSettled(Unknown, false, st, nodes) <==> st == Style("", ""))
  {
    hide *;
    var kids := [Text("x", false), Comment("")];
    OneNode(Unknown, false, st, Element("a", [], kids));
    TextParts(st);
    TwoKids(st, kids);
    NoAttrsShaped(Unknown);
    ElementShaped(Unknown, "a", [], kids);
  }

  lemma TwoKids(st: Style, kids: seq<Node>)
    requires kids == [Text("x", false), Comment("")]
    requires Shaped(Unknown, kids[0]) && Legible(Unknown, kids[0])
    ensures !Plain(Element("a", [], kids)) && NameOk(Unknown, "a") && Apart(kids) && AllShaped(Unknown, kids)
    ensures Legible(Unknown, Element("a", [], kids))
    ensures Settled(Unknown, false, st, false, Element("a", [], kids)) <==> Settled(Unknown, false, st, false, kids[0])
  {
    assert kids[0] in kids && forall k :: k in kids ==> k == kids[0] || k == Comment("");
    assert Shaped(Unknown, Comment("")) && Legible(Unknown, Comment("")) && !Simple(kids);
    hide Whole, Closed, Blank, Steady, NoReference;
  }

  lemma TextParts(st: Style)
    ensures Shaped(Unknown, Text("x", false)) && Legible(Unknown, Text("x", false))
    ensures Settled(Unknown, false, st, false, Text("x", false)) <==> st == Style("", "")
  {
    OneLetter();
    hide Encode, SkipWhite, NoReference, Closed, Blank;
  }

  lemma OneLetter()
    ensures NoReference("x") && Closed("x") && SkipWhite(Unknown, Encode("x")) != "" && !Blank("x")
  {
    assert !IsWhiteSpace("x"[0]);
    XIsPlain();
    hide Encode;
  }

  lemma XIsPlain()
    ensures Encode("x") == "x"
  {
    EncodeOne('x');
    PlainEnds('x');
    hide *;
  }

  /** What Next() does not reach is not printed. */
  lemma {:induction false} OnlyReachedIsPrinted(attrs: seq<Attr>)
    ensures PrintAttrs(attrs) == PrintAttrs(D.Reached(attrs))
  {
    hide PrintAttr;
    if |attrs| > 1 {
      if attrs[1] == Attr("", "") {
        assert attrs[..1][0] == attrs[0];
      } else {
        OnlyReachedIsPrinted(attrs[1..]);
        var r := D.Reached(attrs[1..]);
        assert r != [] && r[0] == attrs[1];
        assert ([attrs[0]] + r)[1..] == r;
      }
    }
  }

  // ---- Why the conditions are there ----

  /** A text with a NUL is read from a document and comes back from printing, but Clone cuts it. */
  lemma CloneCutsAtNul(w: string, tail: string, origin: D.Origin)
    requires AllWhite(w) && |tail| > 1 && tail[0] == '<'
    ensures ReadText(Unknown, true, Some("x&#x00;y" + (w + tail)), true, "<") == TextResult(Some(tail[1..]), "x\0y")
    ensures var t := D.Tree(D.TextData("x\0y", false), origin, []);
            && D.Copied(t) == D.Tree(D.TextData("x", false), origin, []) && !D.Copyable(t)
  {
    hide ReadText, AllWhite;
    NulIsEncoded();
    NulIsDense();
    TextBack(Unknown, "x\0y", w, tail);
    NulIsCut();
  }

  lemma NulIsEncoded()
    ensures Encode("x\0y") == "x&#x00;y"
  {
    var s := "x\0y";
    assert s[1..] == "\0y" && s[1..][1..] == "y" && "y"[1..] == "";
    assert EncodeChar('\0') == "&#x00;" && EncodeChar('x') == "x" && EncodeChar('y') == "y";
    hide EncodeChar;
    assert Encode("y") == "y" + Encode("");
    assert Encode("\0y") == "&#x00;" + Encode("y");
  }

  lemma NulIsDense()
    ensures Whole(Unknown, "x\0y") && NoReference("x\0y") && Dense(Unknown, "x\0y")
  {}

  lemma NulIsCut()
    ensures CString("x\0y") == "x"
  {
    assert "x\0y"[1..][0] == '\0';
    assert Strlen("x\0y") == 1;
  }

  /** An attribute value with a reference in it prints to something that is not even an attribute. */
  lemma ReferenceBreaksTheTag()
    ensures ParseAttribute(Unknown, true, Some(PrintAttr(Attr("b", "&#x")) + " />")).rest == None
  {
    hide Encode, ParseAttribute;
    ReferencePasses();
    EncodeName("b");
    assert PrintAttr(Attr("b", "&#x")) + " />" == "b=\"&#x\" />";
    UnfinishedReference();
  }

  lemma ReferencePasses()
    ensures Encode("&#x") == "&#x"
  {
    assert "&#x"[1..] == "#x" && "#x"[1..] == "x";
    EncodeOne('x');
  }

  lemma UnfinishedChar(v: string)
    requires v == "&#x\" />"
    ensures GetChar(Unknown, v) == CharResult(None, "")
  {
    assert v[3..] == "\" />";
    assert Find("\" />", ';') == None by {
      assert ';' !in "\" />";
    }
    hide Find, WalkBack;
  }

  lemma BIsName()
    ensures NameOk(Unknown, "b") && !IsNameChar('=')
  {}

  lemma UnfinishedText(v: string)
    requires v == "&#x\" />"
    ensures ReadText(Unknown, true, Some(v), false, "\"") == TextResult(None, "")
  {
    hide GetChar;
    UnfinishedChar(v);
    assert v[0] == '&' && !StringEqual(v, "\"", false);
    hide StringEqual;
    assert ReadKeep(Unknown, Some(v), "\"", "") == TextResult(None, "");
  }

  lemma UnfinishedReference()
    ensures ParseAttribute(Unknown, true, Some("b=\"&#x\" />")).rest == None
  {
    hide *;
    var v := "&#x\" />";
    UnfinishedText(v);
    AttrValueStep(Unknown, true, "b", '\"', v);
    AfterNameStep(Unknown, true, "b", "\"" + v);
    BIsName();
    AttrStep(Unknown, true, "b", "=" + ("\"" + v));
    assert "b" + ("=" + ("\"" + v)) == "b=\"&#x\" />";
  }
}
