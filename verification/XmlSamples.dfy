// What the printer writes, in literal text: every character, and one document
// with all kinds of nodes in any style.
module XmlSamples {
  import opened Sequences
  import opened XmlParser
  import opened XmlPrinter
  import opened XmlCodec

  // ---- Characters ----

  const DIGITS := "0123456789ABCDEF"

  lemma CapitalDigit(v: nat)
    requires v < 16
    ensures UpperHex(v) == DIGITS[v]
  {}

  /** Five characters are printed as named references, those below the blank as two capital hexadecimal digits, and
      all others as they are. */
  lemma PrintedCharacter(c: char)
    ensures c == '&' ==> Encode([c]) == "&amp;"
    ensures c == '<' ==> Encode([c]) == "&lt;"
    ensures c == '>' ==> Encode([c]) == "&gt;"
    ensures c == '\"' ==> Encode([c]) == "&quot;"
    ensures c == '\'' ==> Encode([c]) == "&apos;"
    ensures c < ' ' ==> Encode([c]) == "&#x" + [DIGITS[c as int / 16], DIGITS[c as int % 16]] + ";"
    ensures c >= ' ' && c !in {'&', '<', '>', '\"', '\''} ==> Encode([c]) == [c]
  {
    EncodeOne(c);
    hide Encode, UpperHex;
    if c < ' ' {
      CapitalDigit(c as int / 16);
      CapitalDigit(c as int % 16);
    }
  }

  /** Away from passed-through references nothing that is printed could end a text or a value, or be lost in it. */
  lemma {:induction false} EncodedIsSafe(s: string, i: nat)
    requires NoReference(s) && i < |Encode(s)|
    ensures Encode(s)[i] >= ' ' && Encode(s)[i] !in {'<', '>', '\"', '\''}
  {
    hide NoReference, PassThrough;
    var out := EncodeChar(s[0]);
    FirstIsNone(s);
    if i < |out| {
      CharIsSafe(s[0], i);
    } else {
      NoReferenceSuffix(s, 1);
      EncodedIsSafe(s[1..], i - |out|);
    }
  }

  lemma FirstIsNone(s: string)
    requires NoReference(s) && s != ""
    ensures !StartsReference(s)
  {
    assert s[0..] == s;
  }

  lemma CharIsSafe(c: char, i: nat)
    requires i < |EncodeChar(c)|
    ensures EncodeChar(c)[i] >= ' ' && EncodeChar(c)[i] !in {'<', '>', '\"', '\''}
  {
    if c < ' ' {
      CapitalDigit(c as int / 16);
      CapitalDigit(c as int % 16);
    }
  }

  lemma PassTo(s: string, t: string)
    requires ';' !in s && s != ""
    ensures PassThrough(s + (";" + t)) == s + Encode(";" + t)
  {
    var p := s + (";" + t);
    assert p[|s|] == ';' && forall i :: 0 <= i < |s| ==> p[i] == s[i] && s[i] in s;
    PassThroughSplit(p);
    assert StopOf(p) == |s|;
    assert p[..|s|] == s && p[|s|..] == ";" + t;
    hide PassThrough, Encode;
  }

  lemma SemicolonStays(t: string)
    ensures Encode(";" + t) == ";" + Encode(t)
  {
    assert (";" + t)[1..] == t;
    hide PassThrough;
  }

  lemma CopiedOrEncoded(p: string)
    requires p != "" && p[0] == '&'
    ensures Encode(p) == if StartsReference(p) then PassThrough(p) else "&amp;" + Encode(p[1..])
  {
    hide PassThrough;
  }

  lemma ReferenceAhead(r: string, t: string)
    ensures var p := "&#x" + (r + (";" + t)); p == ("&#x" + r) + (";" + t) && StartsReference(p) && p[0] == '&'
    ensures ';' !in r ==> ';' !in "&#x" + r
  {}

  lemma NoReferenceAhead(u: string)
    requires !("#x" <= u)
    ensures var p := "&" + u; p[1..] == u && p[0] == '&' && !StartsReference(p)
  {
    var p := "&" + u;
    if |u| >= 2 {
      assert p[1] == u[0] && p[2] == u[1];
      assert u[0] == '#' && u[1] == 'x' ==> "#x" <= u;
    }
  }

  /** What starts with "&#x" and goes up to a semicolon is printed as it stands. */
  lemma ReferencesPass(r: string, t: string)
    requires ';' !in r
    ensures Encode("&#x" + (r + (";" + t))) == "&#x" + (r + (";" + Encode(t)))
  {
    hide *;
    ReferenceAhead(r, t);
    CopiedOrEncoded("&#x" + (r + (";" + t)));
    PassTo("&#x" + r, t);
    SemicolonStays(t);
    assert ("&#x" + r) + (";" + Encode(t)) == "&#x" + (r + (";" + Encode(t)));
  }

  /** Any other ampersand is encoded. */
  lemma OthersAreEncoded(u: string)
    requires !("#x" <= u)
    ensures Encode("&" + u) == "&amp;" + Encode(u)
  {
    hide *;
    NoReferenceAhead(u);
    CopiedOrEncoded("&" + u);
  }

  // ---- A document ----

  function Sample(): seq<Node> {
    [Declaration("1.0", "u", ""),
     Comment(" c "),
     Element("a", [Attr("x", "'"), Attr("y", "\"")], [Text("<t", false)]),
     Element("b", [], Inside())]
  }

  function Inside(): seq<Node> {
    [Element("c", [], [Element("d", [Attr("z", "")], [])]), Text("t", false), Text("<", true), UnknownTag("!u")]
  }

  /** The lines that it is printed as, where `i` is the indent. */
  function SampleLines(i: string): seq<string> {
    [FirstLine()] + (["<!-- c -->"] + ([ThirdLine()] + (["<b>"] + InsideLines(i) + ["</b>"])))
  }

  function FirstLine(): string {
    "<?xml version=\"1.0\" encoding=\"u\" ?>"
  }

  function ThirdLine(): string {
    "<a x=\"&apos;\" y='&quot;'>&lt;t</a>"
  }

  function InsideLines(i: string): seq<string> {
    InnerLines(i) + ([i + "t"] + ([i + "<![CDATA[<]]>"] + [i + "<!u>"]))
  }

  function InnerLines(i: string): seq<string> {
    [i + "<c>", i + i + "<d z=\"\" />", i + "</c>"]
  }

  function Lines(ls: seq<string>, b: string): string {
    if ls == [] then "" else ls[0] + b + Lines(ls[1..], b)
  }

  lemma {:induction false} LinesOfBoth(ls: seq<string>, ms: seq<string>, b: string)
    ensures Lines(ls + ms, b) == Lines(ls, b) + Lines(ms, b)
  {
    if ls == [] {
      assert ls + ms == ms;
    } else {
      assert (ls + ms)[1..] == ls[1..] + ms;
      LinesOfBoth(ls[1..], ms, b);
    }
  }

  lemma OneLine(l: string, b: string)
    ensures Lines([l], b) == l + b
  {
    assert [l][1..] == [];
  }

  lemma Indents(st: Style)
    ensures Indent(st, 0) == "" && Indent(st, 1) == st.indent && Indent(st, 2) == st.indent + st.indent
  {
    assert Indent(st, 1) == Indent(st, 0) + st.indent && Indent(st, 2) == Indent(st, 1) + st.indent;
  }

  lemma TwoChars(c: char, d: char)
    requires c != '&'
    ensures Encode([c, d]) == EncodeChar(c) + EncodeChar(d)
  {
    EncodeOne(d);
    assert [c, d][1..] == [d];
    hide EncodeChar, PassThrough;
  }

  lemma NoText()
    ensures Encode("") == ""
  {}

  lemma TwoAttrs(a: Attr, b: Attr)
    requires b.name != ""
    ensures PrintAttrs([a, b]) == " " + PrintAttr(a) + (" " + PrintAttr(b))
    ensures PrintAttrs([b]) == " " + PrintAttr(b) && PrintAttrs([]) == ""
  {
    assert [a, b][1..] == [b] && [b][1..] == [];
    hide PrintAttr;
    assert PrintAttrs([b]) == " " + PrintAttr(b) + "";
  }

  lemma NoNul(v: string)
    requires |v| <= 1 && NulFree(v)
    ensures CString(v) == v
  {
    CStringIs(v);
  }

  lemma QuotedAttrs()
    ensures PrintAttr(Attr("x", "'")) == "x=\"&apos;\"" && PrintAttr(Attr("y", "\"")) == "y='&quot;'"
    ensures PrintAttr(Attr("z", "")) == "z=\"\""
  {
    NoNul("'");
    NoNul("\"");
    NoNul("");
    PrintedCharacter('\'');
    PrintedCharacter('\"');
    PrintedCharacter('x');
    PrintedCharacter('y');
    PrintedCharacter('z');
    NoText();
    hide Encode, CString;
    assert "x" + "=\"" + "&apos;" + "\"" == "x=\"&apos;\"";
    assert "y" + "='" + "&quot;" + "'" == "y='&quot;'";
    assert "z" + "=\"" + "" + "\"" == "z=\"\"";
  }

  lemma Fields()
    ensures PrintDeclaration(Declaration("1.0", "u", "")) == FirstLine()
  {
    var v, e := "version=\"1.0\" ", "encoding=\"u\" ";
    assert PrintField("version", "1.0") == v by {
      assert "version" + "=\"" + "1.0" + "\" " == v;
    }
    assert PrintField("encoding", "u") == e by {
      assert "encoding" + "=\"" + "u" + "\" " == e;
    }
    assert PrintField("standalone", "") == "";
    hide PrintField;
    assert "<?xml " + v == "<?xml version=\"1.0\" ";
    assert "<?xml version=\"1.0\" " + e == "<?xml version=\"1.0\" encoding=\"u\" ";
    assert "<?xml version=\"1.0\" encoding=\"u\" " + "" + "?>" == "<?xml version=\"1.0\" encoding=\"u\" ?>";
  }

  lemma PrintOneKid(st: Style, n: Node, kids: seq<Node>, depth: int)
    ensures PrintKids(st, [n] + kids, depth, false) == Print(st, n, depth, false) + PrintKids(st, kids, depth, false)
    ensures PrintKids(st, [], depth, false) == ""
  {
    assert ([n] + kids)[1..] == kids;
    hide Print;
  }

  /** An element around other nodes takes a line for each of its tags. */
  lemma PrintAround(st: Style, name: string, attrs: seq<Attr>, kids: seq<Node>, depth: nat, lines: seq<string>)
    requires kids != [] && !Simple(kids) && PrintKids(st, kids, depth + 1, false) == Lines(lines, st.lineBreak)
    ensures var i := Indent(st, depth);
            Print(st, Element(name, attrs, kids), depth, false) ==
            Lines([i + "<" + name + PrintAttrs(attrs) + ">"] + lines + [i + "</" + name + ">"], st.lineBreak)
  {
    var i, b := Indent(st, depth), st.lineBreak;
    var first, last := i + "<" + name + PrintAttrs(attrs) + ">", i + "</" + name + ">";
    var e := Element(name, attrs, kids);
    assert StartText(st, e, depth) == first + b && EndText(st, e, depth) == last + b by {
      hide Indent, PrintAttrs, Simple;
    }
    assert Print(st, e, depth, false) == StartText(st, e, depth) + PrintKids(st, kids, depth + 1, false) +
                                         EndText(st, e, depth) by {
      hide StartText, EndText, PrintKids;
    }
    hide *;
    LinesOfBoth([first], lines, b);
    LinesOfBoth([first] + lines, [last], b);
    OneLine(first, b);
    OneLine(last, b);
  }

  lemma PrintLeaf(st: Style, n: Node, depth: nat, line: string)
    requires line == match n
                     case Element(name, attrs, kids) => "<" + name + PrintAttrs(attrs) + " />"
                     case Text(text, cdata) => if cdata then "<![CDATA[" + text + "]]>" else Encode(text)
                     case Comment(text) => "<!--" + text + "-->"
                     case UnknownTag(text) => "<" + text + ">"
                     case Declaration(_, _, _) => PrintDeclaration(n)
    requires n.Element? ==> n.kids == []
    ensures Print(st, n, depth, false) == Lines([Indent(st, depth) + line], st.lineBreak)
  {
    OneLine(Indent(st, depth) + line, st.lineBreak);
    hide Indent, Encode, PrintAttrs, PrintDeclaration, Lines;
  }

  lemma SimpleKid(st: Style, text: string, depth: int)
    ensures PrintKids(st, [Text(text, false)], depth, true) == Encode(text)
  {
    var t := Text(text, false);
    assert [t][1..] == [];
    assert Print(st, t, depth, true) == Encode(text);
    assert PrintKids(st, [], depth, true) == "";
    hide Encode, Print;
  }

  lemma SimpleTags(st: Style, e: Node, depth: nat)
    requires e.Element? && |e.kids| == 1 && e.kids[0].Text? && !e.kids[0].cdata
    ensures StartText(st, e, depth) == Indent(st, depth) + "<" + e.name + PrintAttrs(e.attrs) + ">"
    ensures EndText(st, e, depth) == "</" + e.name + ">" + st.lineBreak && Simple(e.kids)
  {
    hide Indent, PrintAttrs;
    var i := Indent(st, depth) + "<" + e.name + PrintAttrs(e.attrs);
    assert i + (">" + "") == i + ">";
    assert "" + "</" + e.name + ">" + st.lineBreak == "</" + e.name + ">" + st.lineBreak;
  }

  lemma ElementText(st: Style, e: Node, depth: nat)
    requires e.Element?
    ensures Print(st, e, depth, false) ==
            StartText(st, e, depth) + PrintKids(st, e.kids, depth + 1, Simple(e.kids)) + EndText(st, e, depth)
  {
    hide StartText, EndText, PrintKids, Simple;
  }

  /** A single text is printed on one line with the tags around it. */
  lemma PrintSimple(st: Style, name: string, attrs: seq<Attr>, text: string, depth: nat)
    ensures var i := Indent(st, depth);
            Print(st, Element(name, attrs, [Text(text, false)]), depth, false) ==
            Lines([i + "<" + name + PrintAttrs(attrs) + ">" + Encode(text) + "</" + name + ">"], st.lineBreak)
  {
    var e := Element(name, attrs, [Text(text, false)]);
    hide *;
    SimpleKid(st, text, depth + 1);
    SimpleTags(st, e, depth);
    ElementText(st, e, depth);
    var i := Indent(st, depth) + "<" + name + PrintAttrs(attrs) + ">" + Encode(text);
    OneLine(i + "</" + name + ">", st.lineBreak);
    GlueLine(i, name, st.lineBreak);
  }

  lemma GlueLine(i: string, name: string, b: string)
    ensures i + ("</" + name + ">" + b) == i + "</" + name + ">" + b
  {}

  lemma TagsAround(i: string)
    ensures i + "<" + "c" + "" + ">" == i + "<c>" && i + "</" + "c" + ">" == i + "</c>"
    ensures i + "<" + "b" + "" + ">" == i + "<b>" && i + "</" + "b" + ">" == i + "</b>"
  {}

  lemma PrintInner(st: Style)
    ensures Print(st, Element("c", [], [Element("d", [Attr("z", "")], [])]), 1, false) ==
            Lines([st.indent + "<c>", st.indent + st.indent + "<d z=\"\" />", st.indent + "</c>"], st.lineBreak)
  {
    var d := Element("d", [Attr("z", "")], []);
    assert !Simple([d]) && [d] + [] == [d];
    hide *;
    Indents(st);
    QuotedAttrs();
    TwoAttrs(Attr("z", ""), Attr("z", ""));
    assert "<" + "d" + (" " + "z=\"\"") + " />" == "<d z=\"\" />";
    PrintLeaf(st, d, 2, "<d z=\"\" />");
    PrintOneKid(st, d, [], 2);
    var line := st.indent + st.indent + "<d z=\"\" />";
    assert Print(st, d, 2, false) + "" == Print(st, d, 2, false);
    PrintAround(st, "c", [], [d], 1, [line]);
    TagsAround(st.indent);
    assert [st.indent + "<c>"] + [line] + [st.indent + "</c>"] == [st.indent + "<c>", line, st.indent + "</c>"];
  }

  /** A line and more lines. */
  lemma MoreLines(st: Style, n: Node, kids: seq<Node>, depth: int, ls: seq<string>, ms: seq<string>)
    requires Print(st, n, depth, false) == Lines(ls, st.lineBreak)
    requires PrintKids(st, kids, depth, false) == Lines(ms, st.lineBreak)
    ensures PrintKids(st, [n] + kids, depth, false) == Lines(ls + ms, st.lineBreak)
  {
    hide *;
    PrintOneKid(st, n, kids, depth);
    LinesOfBoth(ls, ms, st.lineBreak);
  }

  lemma NoLines(st: Style, depth: int)
    ensures PrintKids(st, [], depth, false) == Lines([], st.lineBreak)
  {}

  lemma FourNodes(st: Style, ns: seq<Node>, depth: int, ls: seq<seq<string>>)
    requires |ns| == |ls| == 4
    requires forall i :: 0 <= i < 4 ==> Print(st, ns[i], depth, false) == Lines(ls[i], st.lineBreak)
    ensures PrintKids(st, ns, depth, false) == Lines(ls[0] + (ls[1] + (ls[2] + ls[3])), st.lineBreak)
  {
    hide *;
    NoLines(st, depth);
    MoreLines(st, ns[3], [], depth, ls[3], []);
    assert [ns[3]] + [] == [ns[3]] && ls[3] + [] == ls[3];
    MoreLines(st, ns[2], [ns[3]], depth, ls[2], ls[3]);
    MoreLines(st, ns[1], [ns[2]] + [ns[3]], depth, ls[1], ls[2] + ls[3]);
    MoreLines(st, ns[0], [ns[1]] + ([ns[2]] + [ns[3]]), depth, ls[0], ls[1] + (ls[2] + ls[3]));
    assert [ns[0]] + ([ns[1]] + ([ns[2]] + [ns[3]])) == ns;
  }

  lemma PrintLeaves(st: Style)
    ensures Print(st, Text("t", false), 1, false) == Lines([st.indent + "t"], st.lineBreak)
    ensures Print(st, Text("<", true), 1, false) == Lines([st.indent + "<![CDATA[<]]>"], st.lineBreak)
    ensures Print(st, UnknownTag("!u"), 1, false) == Lines([st.indent + "<!u>"], st.lineBreak)
  {
    hide *;
    Indents(st);
    PrintedCharacter('t');
    assert "<![CDATA[" + "<" + "]]>" == "<![CDATA[<]]>" && "<" + "!u" + ">" == "<!u>";
    PrintLeaf(st, UnknownTag("!u"), 1, "<!u>");
    PrintLeaf(st, Text("<", true), 1, "<![CDATA[<]]>");
    PrintLeaf(st, Text("t", false), 1, "t");
  }

  lemma PrintContent(st: Style)
    ensures PrintKids(st, Inside(), 1, false) == Lines(InsideLines(st.indent), st.lineBreak)
  {
    PrintInner(st);
    hide Lines, PrintKids, Print;
    PrintLeaves(st);
    var i := st.indent;
    FourNodes(st, Inside(), 1, [InnerLines(i), [i + "t"], [i + "<![CDATA[<]]>"], [i + "<!u>"]]);
  }

  lemma TagGlue()
    ensures "" + "<" + "a" + (" " + "x=\"&apos;\"" + (" " + "y='&quot;'")) + ">" == "<a x=\"&apos;\" y='&quot;'>"
  {
    assert " " + "x=\"&apos;\"" + (" " + "y='&quot;'") == " x=\"&apos;\" y='&quot;'";
    assert "" + "<" + "a" == "<a";
  }

  lemma ThirdGlue()
    ensures "<a x=\"&apos;\" y='&quot;'>" + "&lt;t" + "</" + "a" + ">" == ThirdLine()
  {}

  lemma LessThenLetter()
    ensures Encode("<t") == "&lt;t"
  {
    TwoChars('<', 't');
    hide Encode;
  }

  lemma PrintFirst(st: Style)
    ensures Print(st, Element("a", [Attr("x", "'"), Attr("y", "\"")], [Text("<t", false)]), 0, false) ==
            Lines([ThirdLine()], st.lineBreak)
  {
    hide *;
    LessThenLetter();
    Indents(st);
    QuotedAttrs();
    TwoAttrs(Attr("x", "'"), Attr("y", "\""));
    TagGlue();
    ThirdGlue();
    PrintSimple(st, "a", [Attr("x", "'"), Attr("y", "\"")], "<t", 0);
  }

  lemma PrintTop(st: Style)
    ensures Print(st, Declaration("1.0", "u", ""), 0, false) == Lines([FirstLine()], st.lineBreak)
    ensures Print(st, Comment(" c "), 0, false) == Lines(["<!-- c -->"], st.lineBreak)
  {
    hide *;
    Indents(st);
    Fields();
    assert "<!--" + " c " + "-->" == "<!-- c -->";
    PrintLeaf(st, Comment(" c "), 0, "<!-- c -->");
    PrintLeaf(st, Declaration("1.0", "u", ""), 0, FirstLine());
    assert "" + "<!-- c -->" == "<!-- c -->";
    assert "" + FirstLine() == FirstLine();
  }

  lemma PrintLast(st: Style, kids: seq<Node>, content: seq<string>)
    requires kids != [] && !Simple(kids) && PrintKids(st, kids, 1, false) == Lines(content, st.lineBreak)
    ensures Print(st, Element("b", [], kids), 0, false) == Lines(["<b>"] + content + ["</b>"], st.lineBreak)
  {
    hide *;
    Indents(st);
    TwoAttrs(Attr("z", ""), Attr("z", ""));
    TagsAround("");
    PrintAround(st, "b", [], kids, 0, content);
    assert "" + "<b>" == "<b>" && "" + "</b>" == "</b>";
  }

  lemma SampleParts()
    ensures Sample() ==
            [Declaration("1.0", "u", ""), Comment(" c "),
             Element("a", [Attr("x", "'"), Attr("y", "\"")], [Text("<t", false)]), Element("b", [], Inside())]
    ensures !Simple(Inside()) && Inside() != []
  {}

  lemma FourLines(i: string)
    ensures SampleLines(i) == [FirstLine()] + (["<!-- c -->"] + ([ThirdLine()] + (["<b>"] + InsideLines(i) + ["</b>"])))
  {}

  lemma DocumentIsKids(st: Style, nodes: seq<Node>)
    ensures PrintDocument(st, nodes) == PrintKids(st, nodes, 0, false)
  {}

  /** The sample is printed as those lines, each with a line break behind it. */
  lemma PrintedSample(st: Style)
    ensures PrintDocument(st, Sample()) == Lines(SampleLines(st.indent), st.lineBreak)
  {
    hide *;
    SampleParts();
    DocumentIsKids(st, Sample());
    FourLines(st.indent);
    PrintContent(st);
    PrintTop(st);
    PrintFirst(st);
    var last := ["<b>"] + InsideLines(st.indent) + ["</b>"];
    PrintLast(st, Inside(), InsideLines(st.indent));
    FourNodes(st, Sample(), 0, [[FirstLine()], ["<!-- c -->"], [ThirdLine()], last]);
  }
}
