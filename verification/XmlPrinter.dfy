// Entity encoding and the visitor-based printer of TinyXML (tinyxml.cpp,
// tinyxml.h): the text that every node prints to, and the class that appends
// it to a buffer while it keeps depth and mode.
module XmlPrinter {
  import opened Sequences
  import opened XmlParser

  // ---- EncodeString ----

  function UpperHex(v: nat): char
    requires v < 16
  {
    if v < 10 then ('0' as int + v) as char else ('A' as int + v - 10) as char
  }

  /** What one character becomes, away from a passed-through reference. */
  function EncodeChar(c: char): (s: string)
    ensures s != ""
  {
    if c == '&' then "&amp;"
    else if c == '<' then "&lt;"
    else if c == '>' then "&gt;"
    else if c == '\"' then "&quot;"
    else if c == '\'' then "&apos;"
    else if c as int < 32 then "&#x" + [UpperHex(c as int / 16), UpperHex(c as int % 16)] + ";"
    else [c]
  }

  /** The text starts with a hexadecimal reference, which is passed through. */
  predicate StartsReference(s: string) {
    |s| > 2 && s[0] == '&' && s[1] == '#' && s[2] == 'x'
  }

  /** EncodeString. */
  function Encode(s: string): string
    decreases |s|, 1
  {
    if s == "" then ""
    else if StartsReference(s) then PassThrough(s)
    else EncodeChar(s[0]) + Encode(s[1..])
  }

  /** Raw copying from a reference on, up to its ';' or up to the last character. */
  function PassThrough(s: string): string
    requires s != ""
    decreases |s|, 0
  {
    if |s| == 1 then EncodeChar(s[0])
    else [s[0]] + if s[1] == ';' then Encode(s[1..]) else PassThrough(s[1..])
  }

  lemma EncodeOne(c: char)
    ensures Encode([c]) == EncodeChar(c)
  {
    assert [c][1..] == "";
  }

  /** One step of the raw copying, from the place `i` on. */
  lemma PassStep(str: string, i: nat)
    requires i + 1 < |str|
    ensures PassThrough(str[i..]) ==
            [str[i]] + if str[i + 1] == ';' then Encode(str[i + 1..]) else PassThrough(str[i + 1..])
  {
    assert str[i..][1..] == str[i + 1..] && str[i..][1] == str[i + 1];
    hide Encode, EncodeChar;
  }

  lemma PassLast(str: string, i: nat)
    requires i + 1 == |str|
    ensures PassThrough(str[i..]) == Encode(str[i..])
  {
    assert str[i..] == [str[i]];
    EncodeOne(str[i]);
    hide Encode, EncodeChar;
  }

  lemma Append(out: string, c: char, rest: string)
    ensures out + [c] + rest == out + ([c] + rest)
  {}

  /** The inner loop of EncodeString. */
  method CopyReference(str: string, start: nat, out: string) returns (i: nat, outString: string)
    requires start + 1 < |str|
    ensures start < i < |str|
    ensures outString + Encode(str[i..]) == out + PassThrough(str[start..])
  {
    hide Encode, PassThrough;
    i, outString := start, out;
    while i < |str| - 1
      invariant start <= i < |str|
      invariant outString + PassThrough(str[i..]) == out + PassThrough(str[start..])
    {
      PassStep(str, i);
      Append(outString, str[i], if str[i + 1] == ';' then Encode(str[i + 1..]) else PassThrough(str[i + 1..]));
      outString := outString + [str[i]];
      i := i + 1;
      if str[i] == ';' {
        return;
      }
    }
    PassLast(str, i);
  }

  /** EncodeString appends to whatever the output holds. */
  method EncodeString(str: string, out: string) returns (outString: string)
    ensures outString == out + Encode(str)
  {
    hide EncodeChar;
    outString := out;
    var i := 0;
    assert str[0..] == str;
    while i < |str|
      invariant 0 <= i <= |str|
      invariant outString + Encode(str[i..]) == out + Encode(str)
      decreases |str| - i
    {
      assert str[i..][1..] == str[i + 1..];
      if str[i] == '&' && i < |str| - 2 && str[i + 1] == '#' && str[i + 2] == 'x' {
        i, outString := CopyReference(str, i, outString);
      } else {
        outString := outString + EncodeChar(str[i]);
        i := i + 1;
      }
    }
  }

  // ---- What every node prints to ----

  /** How a printer lays its text out. */
  datatype Style = Style(indent: string, lineBreak: string)

  function Indent(st: Style, depth: int): string {
    if depth <= 0 then "" else Indent(st, depth - 1) + st.indent
  }

  /** TiXmlAttribute::Print; the search for a quote ends at a NUL. */
  function PrintAttr(a: Attr): string {
    if '\"' !in CString(a.value) then Encode(a.name) + "=\"" + Encode(a.value) + "\""
    else Encode(a.name) + "='" + Encode(a.value) + "'"
  }

  /** The attributes that Next() reaches: it stops at one with neither name nor value. */
  function PrintAttrs(attrs: seq<Attr>): string {
    if attrs == [] then ""
    else " " + PrintAttr(attrs[0]) +
         if |attrs| > 1 && attrs[1] == Attr("", "") then "" else PrintAttrs(attrs[1..])
  }

  /** One field of a declaration; an empty one is left out. */
  function PrintField(field: string, value: string): string {
    if value == "" then "" else field + "=\"" + value + "\" "
  }

  function PrintDeclaration(d: Node): string
    requires d.Declaration?
  {
    "<?xml " + PrintField("version", d.version) + PrintField("encoding", d.encoding) +
    PrintField("standalone", d.standalone) + "?>"
  }

  /** The content of an element that is printed on one line with its tags. */
  predicate Simple(kids: seq<Node>) {
    |kids| == 1 && kids[0].Text? && !kids[0].cdata
  }

  /** What VisitEnter prints. */
  function StartText(st: Style, e: Node, depth: int): string
    requires e.Element?
  {
    Indent(st, depth) + "<" + e.name + PrintAttrs(e.attrs) +
    if e.kids == [] then " />" + st.lineBreak else ">" + if Simple(e.kids) then "" else st.lineBreak
  }

  /** What VisitExit prints. */
  function EndText(st: Style, e: Node, depth: int): string
    requires e.Element?
  {
    if e.kids == [] then ""
    else (if Simple(e.kids) then "" else Indent(st, depth)) + "</" + e.name + ">" + st.lineBreak
  }

  /** The text of one node at a depth; `simple` is the mode that the enclosing element has set. */
  function Print(st: Style, n: Node, depth: int, simple: bool): string
    decreases n, 1
  {
    match n
    case Element(name, attrs, kids) =>
      StartText(st, n, depth) + PrintKids(st, kids, depth + 1, Simple(kids)) + EndText(st, n, depth)
    case Text(text, cdata) =>
      if cdata then Indent(st, depth) + "<![CDATA[" + text + "]]>" + st.lineBreak
      else if simple then Encode(text)
      else Indent(st, depth) + Encode(text) + st.lineBreak
    case Comment(text) => Indent(st, depth) + "<!--" + text + "-->" + st.lineBreak
    case UnknownTag(text) => Indent(st, depth) + "<" + text + ">" + st.lineBreak
    case Declaration(_, _, _) => Indent(st, depth) + PrintDeclaration(n) + st.lineBreak
  }

  function PrintKids(st: Style, kids: seq<Node>, depth: int, simple: bool): string
    decreases kids, 0
  {
    if kids == [] then "" else Print(st, kids[0], depth, simple) + PrintKids(st, kids[1..], depth, simple)
  }

  function PrintDocument(st: Style, nodes: seq<Node>): string {
    PrintKids(st, nodes, 0, false)
  }

  lemma PrintAttrsEnd(attrs: seq<Attr>)
    ensures attrs == [] ==> PrintAttrs(attrs) == ""
    ensures attrs[0..] == attrs
  {}

  lemma PrintAttrsStep(attrs: seq<Attr>, i: nat)
    requires i < |attrs|
    ensures PrintAttrs(attrs[i..]) == " " + PrintAttr(attrs[i]) +
              if i + 1 < |attrs| && attrs[i + 1] != Attr("", "") then PrintAttrs(attrs[i + 1..]) else ""
  {
    hide PrintAttr;
    assert attrs[i..][1..] == attrs[i + 1..];
  }

  // ---- TiXmlPrinter ----

  class TiXmlPrinter {
    var depth: int
    var simpleTextPrint: bool
    var buffer: string
    var indent: string
    var lineBreak: string

    /** Pretty printing, as a new printer does it. */
    constructor ()
      ensures depth == 0 && !simpleTextPrint && buffer == ""
      ensures CurrentStyle() == Style("    ", "\n")
    {
      depth, simpleTextPrint, buffer := 0, false, "";
      indent, lineBreak := "    ", "\n";
    }

    ghost function CurrentStyle(): Style
      reads this
    {
      Style(indent, lineBreak)
    }

    method SetStreamPrinting()
      modifies this`indent, this`lineBreak
      ensures CurrentStyle() == Style("", "")
    {
      indent, lineBreak := "", "";
    }

    method DoIndent()
      modifies this`buffer
      ensures buffer == old(buffer) + Indent(CurrentStyle(), depth)
    {
      var i := 0;
      while i < depth
        invariant i == 0 || 0 < i <= depth
        invariant buffer == old(buffer) + Indent(CurrentStyle(), i)
      {
        buffer := buffer + indent;
        i := i + 1;
      }
    }

    method DoLineBreak()
      modifies this`buffer
      ensures buffer == old(buffer) + lineBreak
    {
      buffer := buffer + lineBreak;
    }

    method PrintAttribute(a: Attr)
      modifies this`buffer
      ensures buffer == old(buffer) + PrintAttr(a)
    {
      hide Encode;
      var n := EncodeString(a.name, "");
      var v := EncodeString(a.value, "");
      if '\"' !in CString(a.value) {
        buffer := buffer + n;
        buffer := buffer + "=\"";
        buffer := buffer + v;
        buffer := buffer + "\"";
      } else {
        buffer := buffer + n;
        buffer := buffer + "='";
        buffer := buffer + v;
        buffer := buffer + "'";
      }
      assert buffer == old(buffer) + PrintAttr(a);
    }

    method PrintAttributes(attrs: seq<Attr>)
      modifies this`buffer
      ensures buffer == old(buffer) + PrintAttrs(attrs)
    {
      hide PrintAttrs, PrintAttr;
      var i := 0;
      var attrib := attrs != [];
      ghost var rest := PrintAttrs(attrs);
      PrintAttrsEnd(attrs);
      while attrib
        invariant attrib ==> i < |attrs| && rest == PrintAttrs(attrs[i..])
        invariant !attrib ==> rest == ""
        invariant buffer + rest == old(buffer) + PrintAttrs(attrs)
        decreases |attrs| - i, attrib
      {
        ghost var was := buffer;
        PrintAttrsStep(attrs, i);
        buffer := buffer + " ";
        PrintAttribute(attrs[i]);
        i := i + 1;
        attrib := i < |attrs| && !(attrs[i].value == "" && attrs[i].name == "");
        rest := if attrib then PrintAttrs(attrs[i..]) else "";
        assert was + (" " + PrintAttr(attrs[i - 1]) + rest) == buffer + rest;
      }
    }

    method VisitEnter(e: Node)
      requires e.Element?
      modifies this`buffer, this`depth, this`simpleTextPrint
      ensures depth == old(depth) + 1
      ensures simpleTextPrint == (old(simpleTextPrint) || Simple(e.kids))
      ensures buffer == old(buffer) + StartText(CurrentStyle(), e, old(depth))
    {
      hide PrintAttrs, Indent;
      DoIndent();
      buffer := buffer + "<";
      buffer := buffer + e.name;
      PrintAttributes(e.attrs);
      if e.kids == [] {
        buffer := buffer + " />";
        DoLineBreak();
      } else {
        buffer := buffer + ">";
        if e.kids[0].Text? && |e.kids| == 1 && e.kids[0].cdata == false {
          simpleTextPrint := true;
        } else {
          DoLineBreak();
        }
      }
      depth := depth + 1;
      assert buffer == old(buffer) + StartText(CurrentStyle(), e, old(depth));
    }

    method VisitExit(e: Node)
      requires e.Element? && (e.kids != [] ==> simpleTextPrint == Simple(e.kids))
      modifies this`buffer, this`depth, this`simpleTextPrint
      ensures depth == old(depth) - 1
      ensures simpleTextPrint == (e.kids == [] && old(simpleTextPrint))
      ensures buffer == old(buffer) + EndText(CurrentStyle(), e, depth)
    {
      hide Indent;
      depth := depth - 1;
      if e.kids != [] {
        if simpleTextPrint {
          simpleTextPrint := false;
        } else {
          DoIndent();
        }
        buffer := buffer + "</";
        buffer := buffer + e.name;
        buffer := buffer + ">";
        DoLineBreak();
        assert buffer == old(buffer) + EndText(CurrentStyle(), e, depth);
      }
    }

    method VisitText(n: Node)
      requires n.Text?
      modifies this`buffer
      ensures buffer == old(buffer) + Print(CurrentStyle(), n, depth, simpleTextPrint)
    {
      hide Indent, Encode;
      if n.cdata {
        DoIndent();
        buffer := buffer + "<![CDATA[";
        buffer := buffer + n.text;
        buffer := buffer + "]]>";
        DoLineBreak();
      } else if simpleTextPrint {
        var str := EncodeString(n.text, "");
        buffer := buffer + str;
      } else {
        DoIndent();
        var str := EncodeString(n.text, "");
        buffer := buffer + str;
        DoLineBreak();
      }
    }

    method AppendField(field: string, value: string)
      modifies this`buffer
      ensures buffer == old(buffer) + PrintField(field, value)
    {
      if value != "" {
        buffer := buffer + field + "=\"";
        buffer := buffer + value;
        buffer := buffer + "\" ";
        assert buffer == old(buffer) + PrintField(field, value);
      }
    }

    /** TiXmlDeclaration::Print. */
    method VisitDeclaration(n: Node)
      requires n.Declaration?
      modifies this`buffer
      ensures buffer == old(buffer) + Print(CurrentStyle(), n, depth, simpleTextPrint)
    {
      hide Indent, PrintField;
      DoIndent();
      buffer := buffer + "<?xml ";
      AppendField("version", n.version);
      AppendField("encoding", n.encoding);
      AppendField("standalone", n.standalone);
      buffer := buffer + "?>";
      DoLineBreak();
      assert buffer == old(buffer) + (Indent(CurrentStyle(), depth) + PrintDeclaration(n) + lineBreak);
    }

    method VisitComment(n: Node)
      requires n.Comment?
      modifies this`buffer
      ensures buffer == old(buffer) + Print(CurrentStyle(), n, depth, simpleTextPrint)
    {
      hide Indent;
      DoIndent();
      buffer := buffer + "<!--";
      buffer := buffer + n.text;
      buffer := buffer + "-->";
      DoLineBreak();
    }

    method VisitUnknown(n: Node)
      requires n.UnknownTag?
      modifies this`buffer
      ensures buffer == old(buffer) + Print(CurrentStyle(), n, depth, simpleTextPrint)
    {
      hide Indent;
      DoIndent();
      buffer := buffer + "<";
      buffer := buffer + n.text;
      buffer := buffer + ">";
      DoLineBreak();
    }

    /** Accept: the walk over a node appends exactly its printed text and restores depth and mode. */
    method Accept(n: Node)
      requires n.Element? ==> !simpleTextPrint
      modifies this`buffer, this`depth, this`simpleTextPrint
      ensures depth == old(depth) && simpleTextPrint == old(simpleTextPrint)
      ensures buffer == old(buffer) + Print(CurrentStyle(), n, depth, simpleTextPrint)
      decreases n, 1
    {
      hide StartText, EndText, Encode, Indent;
      match n
      case Element(name, attrs, kids) =>
        VisitEnter(n);
        ghost var st := CurrentStyle();
        AcceptKids(n);
        VisitExit(n);
        ghost var text := PrintKids(st, kids, old(depth) + 1, Simple(kids));
        assert buffer == old(buffer) + (StartText(st, n, depth) + text + EndText(st, n, depth));
      case Text(_, _) => VisitText(n);
      case Comment(_) => VisitComment(n);
      case UnknownTag(_) => VisitUnknown(n);
      case Declaration(_, _, _) => VisitDeclaration(n);
    }

    /** The loop of TiXmlElement::Accept over the children. */
    method AcceptKids(e: Node)
      requires e.Element? && (simpleTextPrint ==> Simple(e.kids))
      modifies this`buffer, this`depth, this`simpleTextPrint
      ensures depth == old(depth) && simpleTextPrint == old(simpleTextPrint)
      ensures buffer == old(buffer) + PrintKids(CurrentStyle(), e.kids, depth, simpleTextPrint)
      decreases e, 0
    {
      hide Print;
      ghost var st, mode := CurrentStyle(), simpleTextPrint;
      var kids := e.kids;
      var i := 0;
      assert kids[0..] == kids;
      while i < |kids|
        invariant 0 <= i <= |kids|
        invariant depth == old(depth) && simpleTextPrint == mode && CurrentStyle() == st
        invariant buffer + PrintKids(st, kids[i..], depth, mode) == old(buffer) + PrintKids(st, kids, depth, mode)
      {
        assert kids[i..][1..] == kids[i + 1..];
        ghost var was, rest := buffer, PrintKids(st, kids[i + 1..], depth, mode);
        Accept(kids[i]);
        assert was + (Print(st, kids[i], depth, mode) + rest) == buffer + rest;
        i := i + 1;
      }
    }

    /** TiXmlDocument::Accept with a fresh printer. */
    method AcceptDocument(nodes: seq<Node>)
      requires depth == 0 && !simpleTextPrint
      modifies this`buffer, this`depth, this`simpleTextPrint
      ensures depth == 0 && !simpleTextPrint
      ensures buffer == old(buffer) + PrintDocument(CurrentStyle(), nodes)
    {
      hide Print;
      ghost var st := CurrentStyle();
      var i := 0;
      assert nodes[0..] == nodes;
      while i < |nodes|
        invariant 0 <= i <= |nodes|
        invariant depth == 0 && !simpleTextPrint && CurrentStyle() == st
        invariant buffer + PrintKids(st, nodes[i..], 0, false) == old(buffer) + PrintKids(st, nodes, 0, false)
      {
        assert nodes[i..][1..] == nodes[i + 1..];
        ghost var was, rest := buffer, PrintKids(st, nodes[i + 1..], 0, false);
        Accept(nodes[i]);
        assert was + (Print(st, nodes[i], 0, false) + rest) == buffer + rest;
        i := i + 1;
      }
    }
  }
}
