// Parsing what the printer printed: for every printer whose indent and line
// break are white space, the same nodes come back and no error is recorded.
module XmlRoundTrip {
  import opened Options
  import opened Sequences
  import opened XmlText
  import opened XmlParser
  import opened XmlPrinter
  import opened XmlCodec

  // ---- The documents that the theorem is about ----

  /** A name that ReadName reads whole. */
  predicate NameOk(enc: Encoding, name: string) {
    && name != "" && IsNameStart(name[0])
    && (forall i :: 0 <= i < |name| ==> IsNameChar(name[i]))
    && !(enc.Utf8? && StartsWithMark(name))
  }

  predicate AttrOk(enc: Encoding, a: Attr) {
    NameOk(enc, a.name) && Whole(enc, a.value) && NoReference(a.value)
  }

  predicate AttrsOk(enc: Encoding, attrs: seq<Attr>) {
    && (forall i :: 0 <= i < |attrs| ==> AttrOk(enc, attrs[i]))
    && (forall i, j :: 0 <= i < j < |attrs| ==> attrs[i].name != attrs[j].name)
  }

  /** The mark does not turn up in the text. */
  predicate Lacks(s: string, mark: string) {
    forall i :: 0 <= i < |s| ==> !StringEqual(s[i..], mark, false)
  }

  /** A field of a declaration, which is printed without encoding. */
  predicate FieldOk(enc: Encoding, s: string) {
    '\"' !in s && '&' !in s && Whole(enc, s)
  }

  predicate Plain(n: Node) {
    n.Text? && !n.cdata
  }

  /** An unknown tag that reads like an end tag inside of an element. */
  predicate LikeEndTag(n: Node) {
    n.UnknownTag? && n.text != "" && n.text[0] == '/'
  }

  /** Attributes with different names. */
  predicate AttrsShaped(enc: Encoding, attrs: seq<Attr>) {
    && (forall i :: 0 <= i < |attrs| ==> NameOk(enc, attrs[i].name))
    && (forall i, j :: 0 <= i < j < |attrs| ==> attrs[i].name != attrs[j].name)
  }

  /** No two running texts stand side by side, and no child reads like an end tag. */
  predicate Apart(kids: seq<Node>) {
    && (forall i :: 0 <= i < |kids| - 1 ==> !(Plain(kids[i]) && Plain(kids[i + 1])))
    && (forall i :: 0 <= i < |kids| ==> !LikeEndTag(kids[i]))
  }

  /** What the parser sees to: every node that it builds without an error is shaped like this. */
  predicate Shaped(enc: Encoding, n: Node)
    decreases n
  {
    match n
    case Element(name, attrs, kids) =>
      NameOk(enc, name) && AttrsShaped(enc, attrs) && Apart(kids) && forall k :: k in kids ==> Shaped(enc, k)
    case Text(text, cdata) => if cdata then Lacks(text, "]]>") else !Blank(text)
    case Comment(text) => Lacks(text, "-->")
    case UnknownTag(text) => '>' !in text && KindOf("<" + text + ">") == UnknownKind
    case Declaration(version, encoding, standalone) => NulFree(version) && NulFree(encoding) && NulFree(standalone)
  }

  /** Every reference that starts in the text ends in it. */
  predicate Closed(s: string) {
    forall i :: 0 <= i < |s| && StartsReference(s[i..]) ==> ';' in s[i..]
  }

  /** What can be printed at all: whole characters, no reference that would go on
      beyond its text, no NUL where the printer prints C strings, plain declarations. */
  predicate Legible(enc: Encoding, n: Node)
    decreases n
  {
    match n
    case Element(_, attrs, kids) =>
      && (forall i :: 0 <= i < |attrs| ==> Whole(enc, attrs[i].value) && Closed(attrs[i].value))
      && forall k :: k in kids ==> Legible(enc, k)
    case Text(text, cdata) => if cdata then NulFree(text) else Whole(enc, text) && Closed(text)
    case Comment(text) => NulFree(text)
    case UnknownTag(text) => NulFree(text)
    case Declaration(version, encoding, standalone) =>
      FieldOk(enc, version) && FieldOk(enc, encoding) && FieldOk(enc, standalone)
  }

  /** Running text without references; condensed reading needs it tight, and
      reading with white space kept needs a printer that adds none around it. */
  predicate Steady(enc: Encoding, condense: bool, st: Style, simple: bool, s: string) {
    && NoReference(s)
    && if condense then Tight(s) && !(enc.Utf8? && StartsWithMark(s))
       else (simple || st == Style("", "")) && SkipWhite(enc, Encode(s)) != ""
  }

  /** What neither the encoder nor the handling of white space changes. */
  predicate Settled(enc: Encoding, condense: bool, st: Style, simple: bool, n: Node)
    decreases n
  {
    match n
    case Element(_, attrs, kids) =>
      && (forall i :: 0 <= i < |attrs| ==> NoReference(attrs[i].value))
      && forall k :: k in kids ==> Settled(enc, condense, st, Simple(kids), k)
    case Text(text, cdata) => cdata || Steady(enc, condense, st, simple, text)
    case _ => true
  }

  predicate NodeOk(enc: Encoding, condense: bool, st: Style, simple: bool, n: Node) {
    Shaped(enc, n) && Legible(enc, n) && Settled(enc, condense, st, simple, n)
  }

  /** The nodes of a document, each under the encoding in force when it is read; text has no place there. */
  predicate NodesShaped(enc: Encoding, nodes: seq<Node>)
    decreases nodes
  {
    nodes == [] ||
    (!Plain(nodes[0]) && Shaped(enc, nodes[0]) && NodesShaped(NextEncoding(enc, nodes[0]), nodes[1..]))
  }

  predicate NodesLegible(enc: Encoding, nodes: seq<Node>)
    decreases nodes
  {
    nodes == [] || (Legible(enc, nodes[0]) && NodesLegible(NextEncoding(enc, nodes[0]), nodes[1..]))
  }

  predicate NodesSettled(enc: Encoding, condense: bool, st: Style, nodes: seq<Node>)
    decreases nodes
  {
    nodes == [] ||
    (Settled(enc, condense, st, false, nodes[0]) && NodesSettled(NextEncoding(enc, nodes[0]), condense, st, nodes[1..]))
  }

  /** The documents that come back. */
  predicate NodesOk(enc: Encoding, condense: bool, st: Style, nodes: seq<Node>) {
    NodesShaped(enc, nodes) && NodesLegible(enc, nodes) && NodesSettled(enc, condense, st, nodes)
  }

  predicate RunOk(enc: Encoding, condense: bool, st: Style, simple: bool, s: string) {
    Whole(enc, s) && !Blank(s) && Steady(enc, condense, st, simple, s)
  }

  predicate WhiteStyle(st: Style) {
    AllWhite(st.indent) && AllWhite(st.lineBreak)
  }

  lemma {:induction false} IndentWhite(st: Style, depth: int)
    requires WhiteStyle(st)
    ensures AllWhite(Indent(st, depth))
    ensures st == Style("", "") ==> Indent(st, depth) == ""
    decreases if depth < 0 then 0 else depth
  {
    if depth > 0 {
      IndentWhite(st, depth - 1);
    }
  }

  // ---- Names ----

  lemma {:induction false} NameRunIs(name: string, rest: string)
    requires forall i :: 0 <= i < |name| ==> IsNameChar(name[i])
    requires rest != "" && !IsNameChar(rest[0])
    ensures NameRun(name + rest) == |name|
  {
    if name == "" {
      assert name + rest == rest;
    } else {
      assert (name + rest)[1..] == name[1..] + rest;
      NameRunIs(name[1..], rest);
    }
  }

  lemma {:induction false} EncodeName(name: string)
    requires forall i :: 0 <= i < |name| ==> IsNameChar(name[i])
    ensures Encode(name) == name
  {
    if name != "" {
      EncodeName(name[1..]);
      assert EncodeChar(name[0]) == [name[0]];
    }
  }

  /** A name in the text is where white space stops and is read whole. */
  lemma NameIsRead(enc: Encoding, name: string, rest: string)
    requires NameOk(enc, name) && rest != "" && !IsNameChar(rest[0]) && rest[0] as int < 0x80
    ensures SkipWhite(enc, name + rest) == name + rest
    ensures NameLength(Some(name + rest)) == Some(|name|)
  {
    NameRunIs(name, rest);
    var p := name + rest;
    assert p[0] == name[0] && !IsWhiteSpace(p[0]);
    assert |name| < 3 ==> p[|name|] == rest[0];
    assert StartsWithMark(p) ==> StartsWithMark(name);
  }

  // ---- Attributes ----

  function QuoteOf(v: string): char {
    if '\"' !in CString(v) then '\"' else '\''
  }

  lemma ReadQuoted(enc: Encoding, condense: bool, v: string, q: char, rest: string)
    requires Whole(enc, v) && NoReference(v) && q in {'\"', '\''} && rest != ""
    ensures ReadText(enc, condense, Some(Encode(v) + [q] + rest), false, [q]) == TextResult(Some(rest), v)
  {
    hide Encode, ReadKeep, ReadCondensed, Whole, NoReference;
    var tail := [q] + rest;
    assert Encode(v) + [q] + rest == Encode(v) + tail;
    ReadKeepEncoded(enc, v, [q], tail, "");
    assert "" + v == v && tail[1..] == rest;
  }

  lemma AttrValueStep(enc: Encoding, condense: bool, name: string, q: char, s: string)
    requires q in {'\"', '\''}
    ensures var t := ReadText(enc, condense, Some(s), false, [q]);
            ParseAttrValue(enc, condense, name, [q] + s) == AttrResult(Attr(name, t.text), t.rest, NoError)
  {
    hide ReadText;
    assert ([q] + s)[1..] == s;
  }

  lemma AfterNameStep(enc: Encoding, condense: bool, name: string, value: string)
    requires value != "" && value[0] in {'\"', '\''}
    ensures ParseAfterName(enc, condense, name, "=" + value) == ParseAttrValue(enc, condense, name, value)
  {
    hide ParseAttrValue, SkipWhite, Suffix;
    var p := "=" + value;
    assert p[1..] == value;
    SkipWhiteStays(enc, p);
    SkipWhiteStays(enc, value);
  }

  lemma AttrStep(enc: Encoding, condense: bool, name: string, after: string)
    requires NameOk(enc, name) && after != "" && !IsNameChar(after[0]) && after[0] as int < 0x80
    ensures ParseAttribute(enc, condense, Some(name + after)) == ParseAfterName(enc, condense, name, after)
  {
    hide ParseAfterName, SkipWhite, NameLength, Suffix, NameOk, IsNameChar;
    NameIsRead(enc, name, after);
    assert (name + after)[..|name|] == name && (name + after)[|name|..] == after;
  }

  /** A printed attribute is read back, and is where white space stops. */
  lemma AttrIsRead(enc: Encoding, condense: bool, a: Attr, rest: string)
    requires AttrOk(enc, a) && rest != ""
    ensures SkipWhite(enc, PrintAttr(a) + rest) == PrintAttr(a) + rest
    ensures PrintAttr(a) != "" && IsNameStart(PrintAttr(a)[0])
    ensures ParseAttribute(enc, condense, Some(PrintAttr(a) + rest)) == AttrResult(a, Some(rest), NoError)
  {
    hide *;
    var q, e := QuoteOf(a.value), Encode(a.value);
    var value := [q] + (e + [q] + rest);
    var after := "=" + value;
    AttrPrinted(enc, a, rest);
    NameIsRead(enc, a.name, after);
    AttrStep(enc, condense, a.name, after);
    AfterNameStep(enc, condense, a.name, value);
    AttrValueStep(enc, condense, a.name, q, e + [q] + rest);
    ReadQuoted(enc, condense, a.value, q, rest);
    AttrIs(a);
  }

  lemma AttrIs(a: Attr)
    ensures Attr(a.name, a.value) == a
  {}

  lemma AttrPrinted(enc: Encoding, a: Attr, rest: string)
    requires AttrOk(enc, a)
    ensures var q := QuoteOf(a.value);
            var after := "=" + ([q] + (Encode(a.value) + [q] + rest));
            && PrintAttr(a) + rest == a.name + after && !IsNameChar(after[0])
            && q in {'\"', '\''}
    ensures NameOk(enc, a.name) && Whole(enc, a.value) && NoReference(a.value)
    ensures PrintAttr(a) != "" && IsNameStart(PrintAttr(a)[0])
  {
    hide Encode, Whole, NoReference;
    EncodeName(a.name);
    var q, e := QuoteOf(a.value), Encode(a.value);
    assert PrintAttr(a) == a.name + (if q == '\"' then "=\"" else "='") + e + [q];
    assert PrintAttr(a)[0] == a.name[0];
    assert a.name + (if q == '\"' then "=\"" else "='") + e + [q] + rest == a.name + ("=" + ([q] + (e + [q] + rest)));
  }

  // ---- Tags ----

  lemma SkipBlank(enc: Encoding, p: string)
    ensures SkipWhite(enc, " " + p) == SkipWhite(enc, p)
  {
    SkipWhiteRun(enc, " ", p);
  }

  lemma NameStartIsNoMark(c: char)
    requires IsNameStart(c)
    ensures c !in {'/', '>', '<', '=', ' '}
  {}

  lemma FreshName(acc: seq<Attr>, name: string)
    requires forall i :: 0 <= i < |acc| ==> acc[i].name != name
    ensures name !in AttrNames(acc)
  {}

  lemma AttributesStep(enc: Encoding, condense: bool, p: string, acc: seq<Attr>, a: Attr, rest: string)
    requires p != "" && IsNameStart(p[0]) && SkipWhite(enc, p) == p
    requires ParseAttribute(enc, condense, Some(p)) == AttrResult(a, Some(rest), NoError)
    requires rest != "" && forall i :: 0 <= i < |acc| ==> acc[i].name != a.name
    ensures AttributeStep(enc, condense, " " + p, acc) == Go(a, rest)
  {
    hide SkipWhite, ParseAttribute, AttrNames, IsNameStart, First;
    SkipBlank(enc, p);
    NameStartIsNoMark(p[0]);
    FreshName(acc, a.name);
  }

  lemma AttributesGo(enc: Encoding, condense: bool, p: string, acc: seq<Attr>, a: Attr, rest: string)
    requires p != "" && rest != "" && AttributeStep(enc, condense, p, acc) == Go(a, rest)
    ensures ParseAttributes(enc, condense, p, acc) == ParseAttributes(enc, condense, rest, acc + [a])
  {
    hide AttributeStep;
  }

  lemma PrintAttrsUnfold(attrs: seq<Attr>)
    requires attrs != [] && (|attrs| > 1 ==> attrs[1].name != "")
    ensures PrintAttrs(attrs) == " " + PrintAttr(attrs[0]) + PrintAttrs(attrs[1..])
  {
    hide PrintAttr;
    if |attrs| == 1 {
      assert attrs[1..] == [];
    }
  }

  lemma OkIsNamed(enc: Encoding, attrs: seq<Attr>)
    requires AttrsOk(enc, attrs)
    ensures AttrsShaped(enc, attrs)
  {
    assert forall i :: 0 <= i < |attrs| ==> AttrOk(enc, attrs[i]);
    hide NameOk;
  }

  lemma SecondName(enc: Encoding, attrs: seq<Attr>)
    requires |attrs| > 1 && AttrsShaped(enc, attrs)
    ensures attrs[1].name != ""
  {
    assert NameOk(enc, attrs[1].name);
  }

  lemma Assoc(a: string, b: string, c: string, d: string)
    ensures a + b + c + d == a + (b + (c + d))
  {}

  lemma PrintAttrsCons(enc: Encoding, attrs: seq<Attr>, rest: string)
    requires attrs != [] && AttrsShaped(enc, attrs)
    ensures PrintAttrs(attrs) + rest == " " + (PrintAttr(attrs[0]) + (PrintAttrs(attrs[1..]) + rest))
  {
    hide *;
    if |attrs| > 1 {
      SecondName(enc, attrs);
    }
    PrintAttrsUnfold(attrs);
    Assoc(" ", PrintAttr(attrs[0]), PrintAttrs(attrs[1..]), rest);
  }

  lemma NextAttrs(enc: Encoding, attrs: seq<Attr>, acc: seq<Attr>)
    requires attrs != [] && AttrsOk(enc, acc + attrs)
    ensures AttrOk(enc, attrs[0]) && AttrsOk(enc, attrs)
    ensures forall i :: 0 <= i < |acc| ==> acc[i].name != attrs[0].name
    ensures acc + attrs == acc + [attrs[0]] + attrs[1..]
  {
    hide AttrOk;
    assert (acc + attrs)[|acc|] == attrs[0];
    assert forall i :: 0 <= i < |acc| ==> (acc + attrs)[i] == acc[i];
    assert forall i :: 0 <= i < |attrs| ==> attrs[i] == (acc + attrs)[|acc| + i];
  }

  /** The printed attributes of a tag are read back in order. */
  lemma {:induction false} AttrsAreRead(enc: Encoding, condense: bool, attrs: seq<Attr>, acc: seq<Attr>, rest: string)
    requires AttrsOk(enc, acc + attrs) && rest != ""
    ensures ParseAttributes(enc, condense, PrintAttrs(attrs) + rest, acc) ==
            ParseAttributes(enc, condense, rest, acc + attrs)
    decreases |attrs|
  {
    hide *;
    if attrs == [] {
      NoAttrs(rest);
      assert acc + attrs == acc;
    } else {
      NextAttrs(enc, attrs, acc);
      OkIsNamed(enc, attrs);
      PrintAttrsCons(enc, attrs, rest);
      var tail := PrintAttrs(attrs[1..]) + rest;
      var p := PrintAttr(attrs[0]) + tail;
      AttrIsRead(enc, condense, attrs[0], tail);
      AttributesStep(enc, condense, p, acc, attrs[0], tail);
      AttributesGo(enc, condense, " " + p, acc, attrs[0], tail);
      AttrsAreRead(enc, condense, attrs[1..], acc + [attrs[0]], rest);
    }
  }

  lemma NoAttrs(rest: string)
    ensures PrintAttrs([]) + rest == rest
  {}

  lemma EmptyTagStep(enc: Encoding, condense: bool, attrs: seq<Attr>, rest: string)
    ensures AttributeStep(enc, condense, " />" + rest, attrs) == Stop(EmptyTag(attrs, rest))
  {
    hide SkipWhite, ParseAttribute, AttrNames, First;
    var s := "/>" + rest;
    assert " />" + rest == " " + s && s[2..] == rest;
    SkipBlank(enc, s);
    SkipWhiteStays(enc, s);
  }

  lemma OpenTagStep(enc: Encoding, condense: bool, attrs: seq<Attr>, rest: string)
    ensures AttributeStep(enc, condense, ">" + rest, attrs) == Stop(OpenTag(attrs, rest))
  {
    hide SkipWhite, ParseAttribute, AttrNames, First;
    var s := ">" + rest;
    assert s[1..] == rest;
    SkipWhiteStays(enc, s);
  }

  lemma AttributesStop(enc: Encoding, condense: bool, p: string, attrs: seq<Attr>)
    requires p != "" && AttributeStep(enc, condense, p, attrs).Stop?
    ensures ParseAttributes(enc, condense, p, attrs) == AttributeStep(enc, condense, p, attrs).end
  {
    hide AttributeStep;
  }

  // ---- Leaves ----

  /** An end mark whose last character occurs nowhere else in it cannot begin inside the text before it. */
  predicate EndsOnce(mark: string) {
    mark != "" && forall j :: 0 <= j < |mark| - 1 ==> mark[j] != mark[|mark| - 1]
  }

  lemma {:induction false} RawLengthIs(s: string, mark: string, tail: string)
    requires Lacks(s, mark) && EndsOnce(mark)
    ensures RawLength(s + mark + tail, mark) == |s|
  {
    var p := s + mark + tail;
    if s == "" {
      assert StringEqual(p, mark, false);
    } else {
      assert s[0..] == s;
      assert !StringEqual(p, mark, false) by {
        if |s| < |mark| {
          assert p[|mark| - 1] == mark[|mark| - 1 - |s|];
        } else {
          assert forall i :: 0 <= i < |mark| ==> p[i] == s[i];
        }
      }
      assert p[1..] == s[1..] + mark + tail;
      forall i | 0 <= i < |s[1..]|
        ensures !StringEqual(s[1..][i..], mark, false)
      {
        assert s[1..][i..] == s[i + 1..];
      }
      RawLengthIs(s[1..], mark, tail);
    }
  }

  lemma BracketAt(s: string, i: nat)
    requires i < |s|
    ensures StringEqual(s[i..], ">", false) <==> s[i] == '>'
  {}

  lemma BracketLacks(s: string)
    ensures Lacks(s, ">") <==> '>' !in s
  {
    hide StringEqual;
    forall i | 0 <= i < |s|
      ensures StringEqual(s[i..], ">", false) <==> s[i] == '>'
    {
      BracketAt(s, i);
    }
  }

  lemma Differ(p: string, mark: string, ignoreCase: bool, i: nat)
    requires i < |mark| && i < |p|
    requires if ignoreCase then ToLower(p[i]) != ToLower(mark[i]) else p[i] != mark[i]
    ensures !StringEqual(p, mark, ignoreCase)
  {}

  lemma KindsOfMarks(rest: string)
    ensures KindOf("<!--" + rest) == CommentKind
    ensures KindOf("<![CDATA[" + rest) == CdataKind
    ensures KindOf("<?xml" + rest) == DeclarationKind
  {
    Differ("<!--" + rest, "<?xml", true, 1);
    Differ("<![CDATA[" + rest, "<?xml", true, 1);
    Differ("<![CDATA[" + rest, "<!--", false, 2);
  }

  lemma KindOfElement(c: char, rest: string)
    requires IsNameStart(c)
    ensures KindOf("<" + [c] + rest) == ElementKind
  {
    var p := "<" + [c] + rest;
    assert p[1] == c && c !in {'?', '!'};
    Differ(p, "<?xml", true, 1);
    Differ(p, "<!--", false, 1);
    Differ(p, "<![CDATA[", false, 1);
    Differ(p, "<!", false, 1);
  }

  lemma MarkAhead(mark: string, rest: string)
    requires mark != ""
    ensures StringEqual(mark + rest, mark, false) && (mark + rest)[|mark|..] == rest
  {}

  lemma CommentIsRead(enc: Encoding, s: string, tail: string)
    requires Lacks(s, "-->")
    ensures ParseComment(enc, "<!--" + (s + "-->" + tail)) == Parsed(Comment(s), Some(tail), NoError)
  {
    hide RawLength, SkipWhite, Lacks, StringEqual;
    var body := s + "-->" + tail;
    var p := "<!--" + body;
    MarkAhead("<!--", body);
    SkipWhiteStays(enc, p);
    RawLengthIs(s, "-->", tail);
    assert body[..|s|] == s && body[|s| + 3..] == tail;
  }

  lemma CdataEnd(enc: Encoding, condense: bool, tail: string)
    ensures ReadText(enc, condense, Some("]]>" + tail), false, "]]>") ==
            TextResult(if tail == "" then None else Some(tail), "")
  {
    MarkAhead("]]>", tail);
    hide StringEqual, GetChar;
  }

  lemma CdataIsRead(enc: Encoding, condense: bool, s: string, tail: string)
    requires Lacks(s, "]]>")
    ensures ParseCdata(enc, condense, "<![CDATA[" + (s + "]]>" + tail)) ==
            Parsed(Text(s, true), if tail == "" then None else Some(tail), NoError)
  {
    hide RawLength, SkipWhite, Lacks, StringEqual, ReadText;
    var body := s + "]]>" + tail;
    MarkAhead("<![CDATA[", body);
    RawLengthIs(s, "]]>", tail);
    CdataEnd(enc, condense, tail);
    assert body[..|s|] == s && body[|s|..] == "]]>" + tail;
  }

  lemma TagPrefixStays(q: string, tail: string, mark: string, ignoreCase: bool)
    requires q != "" && q[|q| - 1] == '>' && '>' !in mark
    ensures StringEqual(q + tail, mark, ignoreCase) <==> StringEqual(q, mark, ignoreCase)
  {
    var p := q + tail;
    if |q| < |mark| {
      assert p[|q| - 1] == '>' && mark[|q| - 1] in mark;
    } else {
      assert forall i :: 0 <= i < |mark| ==> p[i] == q[i];
    }
  }

  lemma UnknownKindStays(q: string, tail: string)
    requires |q| > 1 && q[|q| - 1] == '>'
    ensures KindOf(q + tail) == KindOf(q)
  {
    TagPrefixStays(q, tail, "<?xml", true);
    TagPrefixStays(q, tail, "<!--", false);
    TagPrefixStays(q, tail, "<![CDATA[", false);
    TagPrefixStays(q, tail, "<!", false);
    hide StringEqual;
    assert (q + tail)[1] == q[1];
  }

  lemma UnknownIsRead(enc: Encoding, s: string, tail: string)
    requires '>' !in s
    ensures ParseUnknown(enc, "<" + (s + ">" + tail)) == Parsed(UnknownTag(s), Some(tail), NoError)
  {
    var body := s + ">" + tail;
    var p := "<" + body;
    assert p[1..] == body;
    SkipWhiteStays(enc, p);
    BracketLacks(s);
    hide RawLength, SkipWhite, Lacks, StringEqual;
    RawLengthIs(s, ">", tail);
    assert body[..|s|] == s && body[|s| + 1..] == tail;
  }

  // ---- Declarations ----

  lemma RawUnit(enc: Encoding, s: string, tail: string)
    requires s != "" && Whole(enc, s) && s[0] != '&'
    ensures var n := UnitLength(enc, s);
            GetChar(enc, s + tail) == CharResult(Some(s[n..] + tail), s[..n]) && Whole(enc, s[n..])
  {
    var n := UnitLength(enc, s);
    assert (s + tail)[..n] == s[..n] && (s + tail)[n..] == s[n..] + tail;
  }

  lemma RawKeepUnit(enc: Encoding, s: string, tail: string, acc: string)
    requires s != "" && FieldOk(enc, s)
    ensures var n := UnitLength(enc, s);
            && FieldOk(enc, s[n..])
            && ReadKeep(enc, Some(s + tail), "\"", acc) == ReadKeep(enc, Some(s[n..] + tail), "\"", acc + s[..n])
  {
    RawUnit(enc, s, tail);
    Differ(s + tail, "\"", false, 0);
    hide GetChar, ReadKeep, UnitLength, StringEqual;
    ReadKeepStep(enc, s + tail, "\"", acc);
  }

  /** A field without '&' is read as it stands, up to the closing quote. */
  lemma {:induction false} ReadKeepRaw(enc: Encoding, s: string, tail: string, acc: string)
    requires FieldOk(enc, s) && tail != "" && tail[0] == '\"'
    ensures ReadKeep(enc, Some(s + tail), "\"", acc) == TextResult(Some(tail), acc + s)
    decreases |s|
  {
    hide *;
    if s == "" {
      assert s + tail == tail && acc + s == acc;
      QuoteAhead(tail);
      ReadKeepAtEnd(enc, tail, "\"", acc);
    } else {
      var n := UnitLength(enc, s);
      RawKeepUnit(enc, s, tail, acc);
      ReadKeepRaw(enc, s[n..], tail, acc + s[..n]);
      assert acc + s[..n] + s[n..] == acc + s;
    }
  }

  lemma QuoteAhead(tail: string)
    requires tail != "" && tail[0] == '\"'
    ensures StringEqual(tail, "\"", false)
  {}

  lemma ReadFieldValue(enc: Encoding, condense: bool, v: string, rest: string)
    requires FieldOk(enc, v) && rest != ""
    ensures ReadText(enc, condense, Some(v + "\"" + rest), false, "\"") == TextResult(Some(rest), v)
  {
    hide ReadKeep, ReadCondensed, FieldOk;
    var tail := "\"" + rest;
    assert v + "\"" + rest == v + tail && tail[1..] == rest && "" + v == v;
    ReadKeepRaw(enc, v, tail, "");
  }

  lemma FieldNames(enc: Encoding, field: string)
    requires field in {"version", "encoding", "standalone"}
    ensures NameOk(enc, field)
  {}

  /** A printed field is read like an attribute. */
  lemma FieldIsRead(enc: Encoding, condense: bool, field: string, v: string, rest: string)
    requires field in {"version", "encoding", "standalone"} && FieldOk(enc, v) && rest != ""
    ensures ParseAttribute(enc, condense, Some(field + ("=" + ("\"" + (v + "\"" + rest))))) ==
            AttrResult(Attr(field, v), Some(rest), NoError)
  {
    FieldNames(enc, field);
    hide *;
    var s := v + "\"" + rest;
    EqualsIsNoName();
    AttrStep(enc, condense, field, "=" + ("\"" + s));
    AfterNameStep(enc, condense, field, "\"" + s);
    AttrValueStep(enc, condense, field, '\"', s);
    ReadFieldValue(enc, condense, v, rest);
  }

  lemma EqualsIsNoName()
    ensures !IsNameChar('=')
  {}

  lemma LoopStep(enc: Encoding, condense: bool, q: string, d: Node, field: string, a: AttrResult, next: string)
    requires d.Declaration? && q != "" && SkipWhite(enc, q) == q
    requires field in {"version", "encoding", "standalone"} && StringEqual(q, field, true)
    requires ParseAttribute(enc, condense, Some(q)) == a && a.rest == Some(next)
    ensures ParseDeclarationLoop(enc, condense, Some(" " + q), d) ==
            ParseDeclarationLoop(enc, condense, Some(next),
              if field == "version" then d.(version := CString(a.attr.value))
              else if field == "encoding" then d.(encoding := CString(a.attr.value))
              else d.(standalone := CString(a.attr.value)))
  {
    hide SkipWhite, ParseAttribute, StringEqual, JunkLength, CString;
    SkipBlank(enc, q);
    OneField(q, field);
  }

  lemma OneField(q: string, field: string)
    requires field in {"version", "encoding", "standalone"} && StringEqual(q, field, true)
    ensures field == "encoding" ==> !StringEqual(q, "version", true)
    ensures field == "standalone" ==> !StringEqual(q, "version", true) && !StringEqual(q, "encoding", true)
    ensures q != "" && q[0] != '>'
  {
    assert q[0] in {'v', 'V', 'e', 'E', 's', 'S'};
    if field == "encoding" {
      Differ(q, "version", true, 0);
    } else if field == "standalone" {
      Differ(q, "version", true, 0);
      Differ(q, "encoding", true, 0);
    }
  }

  lemma LoopJunk(enc: Encoding, condense: bool, d: Node, tail: string)
    requires d.Declaration?
    ensures ParseDeclarationLoop(enc, condense, Some(" " + ("?>" + tail)), d) ==
            ParseDeclarationLoop(enc, condense, Some(">" + tail), d)
  {
    var q := "?>" + tail;
    SkipBlank(enc, q);
    SkipWhiteStays(enc, q);
    Differ(q, "version", true, 0);
    Differ(q, "encoding", true, 0);
    Differ(q, "standalone", true, 0);
    assert q[1..] == ">" + tail;
    assert JunkLength(q) == 1;
    hide SkipWhite, ParseAttribute, StringEqual, JunkLength;
  }

  lemma LoopClose(enc: Encoding, condense: bool, d: Node, tail: string)
    requires d.Declaration?
    ensures ParseDeclarationLoop(enc, condense, Some(">" + tail), d) == Parsed(d, Some(tail), NoError)
  {
    assert (">" + tail)[1..] == tail;
    hide SkipWhite, ParseAttribute, StringEqual, JunkLength;
  }

  lemma FieldPrinted(field: string, v: string, rest: string)
    requires v != ""
    ensures PrintField(field, v) + rest == field + ("=" + ("\"" + (v + "\"" + (" " + rest))))
  {
    assert field + "=\"" + v + "\" " + rest == field + ("=" + ("\"" + (v + "\"" + (" " + rest))));
  }

  lemma FieldAhead(enc: Encoding, field: string, rest: string)
    requires field in {"version", "encoding", "standalone"}
    ensures StringEqual(field + rest, field, true)
    ensures SkipWhite(enc, field + rest) == field + rest && field + rest != ""
  {
    SkipWhiteStays(enc, field + rest);
    hide SkipWhite;
  }

  /** One printed field sets its part of the declaration. */
  lemma FieldLoop(enc: Encoding, condense: bool, d: Node, field: string, v: string, rest: string)
    requires d.Declaration? && field in {"version", "encoding", "standalone"} && FieldOk(enc, v) && NulFree(v)
    requires v == "" ==>
               (if field == "version" then d.version
                else if field == "encoding" then d.encoding
                else d.standalone) == ""
    ensures ParseDeclarationLoop(enc, condense, Some(" " + (PrintField(field, v) + rest)), d) ==
            ParseDeclarationLoop(enc, condense, Some(" " + rest),
              if field == "version" then d.(version := v)
              else if field == "encoding" then d.(encoding := v)
              else d.(standalone := v))
  {
    if v == "" {
      assert PrintField(field, v) + rest == rest;
      hide *;
    } else {
      hide *;
      var q := PrintField(field, v) + rest;
      FieldPrinted(field, v, rest);
      CStringIs(v);
      FieldAhead(enc, field, "=" + ("\"" + (v + "\"" + (" " + rest))));
      FieldIsRead(enc, condense, field, v, " " + rest);
      LoopStep(enc, condense, q, d, field, AttrResult(Attr(field, v), Some(" " + rest), NoError), " " + rest);
    }
  }

  lemma DeclarationStart(enc: Encoding, condense: bool, rest: string)
    ensures ParseDeclaration(enc, condense, "<?xml" + rest) ==
            ParseDeclarationLoop(enc, condense, Some(rest), Declaration("", "", ""))
  {
    var p := "<?xml" + rest;
    SkipWhiteStays(enc, p);
    assert p[5..] == rest;
    assert StringEqual(p, "<?xml", true);
    hide SkipWhite, StringEqual, ParseDeclarationLoop;
  }

  lemma DeclarationPrinted(d: Node, tail: string)
    requires d.Declaration?
    ensures PrintDeclaration(d) + tail ==
            "<?xml" + (" " + (PrintField("version", d.version) + (PrintField("encoding", d.encoding) +
              (PrintField("standalone", d.standalone) + ("?>" + tail)))))
  {
    hide PrintField;
    var f, g := PrintField("version", d.version), PrintField("encoding", d.encoding);
    var h := PrintField("standalone", d.standalone);
    assert "<?xml " == "<?xml" + " ";
    assert "<?xml" + " " + f + g + h + "?>" + tail == "<?xml" + (" " + (f + (g + (h + ("?>" + tail)))));
  }

  /** A printed declaration is read back. */
  lemma DeclarationIsRead(enc: Encoding, condense: bool, d: Node, tail: string)
    requires d.Declaration? && FieldOk(enc, d.version) && FieldOk(enc, d.encoding) && FieldOk(enc, d.standalone)
    requires NulFree(d.version) && NulFree(d.encoding) && NulFree(d.standalone)
    ensures KindOf(PrintDeclaration(d) + tail) == DeclarationKind
    ensures ParseDeclaration(enc, condense, PrintDeclaration(d) + tail) == Parsed(d, Some(tail), NoError)
  {
    hide *;
    var f, g := PrintField("version", d.version), PrintField("encoding", d.encoding);
    var h := PrintField("standalone", d.standalone);
    var end := "?>" + tail;
    DeclarationPrinted(d, tail);
    KindsOfMarks(" " + (f + (g + (h + end))));
    DeclarationStart(enc, condense, " " + (f + (g + (h + end))));
    FieldLoop(enc, condense, Declaration("", "", ""), "version", d.version, g + (h + end));
    FieldLoop(enc, condense, Declaration(d.version, "", ""), "encoding", d.encoding, h + end);
    FieldLoop(enc, condense, Declaration(d.version, d.encoding, ""), "standalone", d.standalone, end);
    LoopJunk(enc, condense, d, tail);
    LoopClose(enc, condense, d, tail);
  }

  // ---- Running text ----

  lemma EncodedStart(enc: Encoding, s: string)
    requires s != "" && Whole(enc, s) && NoReference(s)
    ensures Encode(s) != "" && Encode(s)[0] != '<'
    ensures IsWhiteSpace(Encode(s)[0]) <==> s[0] == ' '
  {
    UnitStart(enc, s);
    hide *;
    NextUnit(enc, s);
  }

  /** A byte order mark in front of the printed text is one in front of the text. */
  lemma MarkIsRaw(enc: Encoding, s: string, rest: string)
    requires s != "" && Whole(enc, s) && enc.Utf8?
    requires StartsWithMark(Encode(s) + rest)
    ensures StartsWithMark(s)
  {
    hide NoReference;
    assert !StartsReference(s) by {
      if StartsReference(s) {
        ReferenceEnd(s);
      }
    }
    EncodeByUnit(enc, s);
    hide Encode;
    assert UnitLength(enc, s) == 3;
    assert (Encode(s) + rest)[..3] == s[..3];
  }

  lemma TightStart(enc: Encoding, s: string, rest: string)
    requires Whole(enc, s) && NoReference(s) && Tight(s) && !(enc.Utf8? && StartsWithMark(s))
    ensures var p := Encode(s) + rest; p != "" && SkipWhite(enc, p) == p && p[0] != '<'
  {
    EncodedStart(enc, s);
    if enc.Utf8? && StartsWithMark(Encode(s) + rest) {
      MarkIsRaw(enc, s, rest);
    }
    hide Encode, Whole, NoReference, StartsWithMark;
  }

  lemma TightText(enc: Encoding, s: string, b: string, tail: string)
    requires Whole(enc, s) && NoReference(s) && Tight(s) && !(enc.Utf8? && StartsWithMark(s))
    requires AllWhite(b) && |tail| > 1 && tail[0] == '<'
    ensures ReadText(enc, true, Some(Encode(s) + (b + tail)), true, "<") == TextResult(Some(tail[1..]), s)
  {
    hide *;
    var p := Encode(s) + (b + tail);
    TightStart(enc, s, b + tail);
    SkipIsNoSkip(enc, p);
    Glue(Encode(s), b, tail);
    TightIsCondensed(s);
    CondensedEncoded(enc, s, b, tail, "", false);
    ReadCondensedText(enc, p, p, tail, s);
  }

  lemma SkipIsNoSkip(enc: Encoding, p: string)
    requires p != "" && SkipWhite(enc, p) == p
    ensures SkipWhiteSpace(enc, Some(p)) == Some(p)
  {
    hide SkipWhite;
  }

  lemma TightIsCondensed(s: string)
    requires Tight(s)
    ensures "" + Condense(s, false) == s
  {
    hide Condense;
    CondenseIsIdentity(s);
  }

  lemma ReadCondensedText(enc: Encoding, p: string, q: string, tail: string, text: string)
    requires SkipWhiteSpace(enc, Some(p)) == Some(q) && |tail| > 1
    requires ReadCondensed(enc, Some(q), "<", "", false) == TextResult(Some(tail), text)
    ensures ReadText(enc, true, Some(p), true, "<") == TextResult(Some(tail[1..]), text)
  {
    hide SkipWhiteSpace, ReadCondensed, Suffix;
  }

  lemma WhiteIsAscii(b: string, tail: string)
    requires AllWhite(b) && tail != "" && tail[0] == '<'
    ensures b + tail != "" && (b + tail)[0] as int < 0x80
  {
    assert b != "" ==> IsWhiteSpace(b[0]);
  }

  lemma KeptText(enc: Encoding, s: string, tail: string)
    requires Whole(enc, s) && NoReference(s) && |tail| > 1 && tail[0] == '<'
    ensures ReadText(enc, false, Some(Encode(s) + tail), true, "<") == TextResult(Some(tail[1..]), s)
  {
    hide Encode, ReadCondensed, ReadKeep, SkipWhite, Whole, NoReference;
    ReadKeepEncoded(enc, s, "<", tail, "");
    assert "" + s == s;
  }

  lemma RunFromText(enc: Encoding, condense: bool, p: string, s: string, tail: string)
    requires |tail| > 1 && tail[0] == '<' && Suffix(tail, p)
    requires ReadText(enc, condense, Some(p), true, "<") == TextResult(Some(tail[1..]), s)
    ensures ParseRun(enc, condense, p) == Parsed(Text(s, false), Some(tail), NoError)
  {
    hide ReadText;
    assert p[|p| - |tail[1..]| - 1..] == tail;
  }

  lemma SkipStep(enc: Encoding, p: string)
    requires p != ""
    ensures enc.Utf8? && StartsWithMark(p) ==> |p| >= 3 && SkipWhite(enc, p) == SkipWhite(enc, p[3..])
    ensures !(enc.Utf8? && StartsWithMark(p)) && IsWhiteSpace(p[0]) ==> SkipWhite(enc, p) == SkipWhite(enc, p[1..])
    ensures !(enc.Utf8? && StartsWithMark(p)) && !IsWhiteSpace(p[0]) ==> SkipWhite(enc, p) == p
  {}

  lemma SkipNothing(enc: Encoding)
    ensures SkipWhite(enc, "") == ""
  {}

  lemma MarkThrough(a: string, tail: string)
    requires a != "" && tail != "" && tail[0] as int < 0x80
    ensures StartsWithMark(a + tail) <==> StartsWithMark(a)
  {
    var p := a + tail;
    assert p[0] == a[0];
    assert |a| == 1 ==> p[1] == tail[0];
    assert |a| == 2 ==> p[2] == tail[0];
  }

  lemma {:induction false} SkipWhiteThrough(enc: Encoding, a: string, tail: string)
    requires SkipWhite(enc, a) != "" && tail != "" && tail[0] as int < 0x80
    ensures SkipWhite(enc, a + tail) == SkipWhite(enc, a) + tail
    decreases |a|
  {
    hide *;
    var p := a + tail;
    SkipNothing(enc);
    SkipStep(enc, a);
    SkipStep(enc, p);
    MarkThrough(a, tail);
    if enc.Utf8? && StartsWithMark(a) {
      assert p[3..] == a[3..] + tail;
      SkipWhiteThrough(enc, a[3..], tail);
    } else if IsWhiteSpace(a[0]) {
      assert p[1..] == a[1..] + tail;
      SkipWhiteThrough(enc, a[1..], tail);
    }
  }

  lemma {:induction false} EncodeHasNoTag(enc: Encoding, s: string)
    requires Whole(enc, s) && NoReference(s)
    ensures '<' !in Encode(s)
    decreases |s|
  {
    if s != "" {
      var u := EncodedUnit(enc, s);
      assert '<' !in u;
      NextUnit(enc, s);
      hide *;
      EncodeHasNoTag(enc, s[UnitLength(enc, s)..]);
    }
  }

  lemma KeptStart(enc: Encoding, s: string, tail: string)
    requires Whole(enc, s) && NoReference(s) && SkipWhite(enc, Encode(s)) != "" && tail != "" && tail[0] as int < 0x80
    ensures var p := SkipWhite(enc, Encode(s) + tail); p != "" && p[0] != '<'
  {
    hide Encode, SkipWhite, Whole, NoReference;
    var e := Encode(s);
    SkipWhiteThrough(enc, e, tail);
    EncodeHasNoTag(enc, s);
    assert SkipWhite(enc, e)[0] in e;
  }

  // ---- The steps of ReadValue ----

  lemma ValueRun(enc: Encoding, condense: bool, full: string, p: string, acc: seq<Node>, s: string, rest: string)
    requires full != "" && SkipWhite(enc, full) == p && p != "" && p[0] != '<' && !Blank(s)
    requires ParseRun(enc, condense, if condense then p else full) == Parsed(Text(s, false), Some(rest), NoError)
    ensures ReadValue(enc, condense, Some(full), acc) == ReadValue(enc, condense, Some(rest), acc + [Text(s, false)])
  {
    hide SkipWhite, ParseRun, ParseNode, Blank, StringEqual;
  }

  lemma ValueNode(enc: Encoding, condense: bool, full: string, p: string, acc: seq<Node>, n: Node, rest: string)
    requires full != "" && SkipWhite(enc, full) == p && |p| > 1 && p[0] == '<' && p[1] != '/'
    requires ParseNode(enc, condense, KindOf(p), p) == Parsed(n, Some(rest), NoError)
    ensures ReadValue(enc, condense, Some(full), acc) == ReadValue(enc, condense, Some(rest), acc + [n])
  {
    Differ(p, "</", false, 1);
    hide SkipWhite, ParseRun, ParseNode, Blank, StringEqual, KindOf;
  }

  lemma ValueAtEnd(enc: Encoding, condense: bool, full: Ptr, p: string, acc: seq<Node>)
    requires SkipWhiteSpace(enc, full) == Some(p) && p != "" && p[0] == '<' && StringEqual(p, "</", false)
    ensures ReadValue(enc, condense, full, acc) == Content(acc, Some(p), NoError)
  {
    hide SkipWhiteSpace, ParseRun, ParseNode, NextValue, Blank, StringEqual, KindOf, Suffix;
  }

  lemma EndTagAhead(p: string)
    requires |p| > 1 && p[0] == '<' && p[1] == '/'
    ensures StringEqual(p, "</", false)
  {}

  lemma ValueEnd(enc: Encoding, condense: bool, full: string, p: string, acc: seq<Node>)
    requires full != "" && SkipWhite(enc, full) == p && |p| > 1 && p[0] == '<' && p[1] == '/'
    ensures ReadValue(enc, condense, Some(full), acc) == Content(acc, Some(p), NoError)
  {
    EndTagAhead(p);
    hide SkipWhite, ReadValue, StringEqual;
    ValueAtEnd(enc, condense, Some(full), p, acc);
  }

  /** White space in front of a tag makes no difference. */
  lemma ValueWhite(enc: Encoding, condense: bool, w: string, tail: string, acc: seq<Node>)
    requires AllWhite(w) && tail != "" && tail[0] == '<'
    ensures ReadValue(enc, condense, Some(w + tail), acc) == ReadValue(enc, condense, Some(tail), acc)
  {
    hide SkipWhite, ParseRun, ParseNode, Blank, StringEqual, KindOf, Suffix;
    SkipWhiteRun(enc, w, tail);
    SkipWhiteStays(enc, tail);
  }

  /** Running text between white space that the reading mode drops. */
  lemma RunIsRead(enc: Encoding, condense: bool, a: string, s: string, b: string, tail: string, acc: seq<Node>)
    requires Whole(enc, s) && NoReference(s) && !Blank(s)
    requires AllWhite(a) && AllWhite(b) && |tail| > 1 && tail[0] == '<'
    requires if condense then Tight(s) && !(enc.Utf8? && StartsWithMark(s))
             else a == "" && b == "" && SkipWhite(enc, Encode(s)) != ""
    ensures ReadValue(enc, condense, Some(a + (Encode(s) + (b + tail))), acc) ==
            ReadValue(enc, condense, Some(tail), acc + [Text(s, false)])
  {
    hide Encode, SkipWhite, Whole, NoReference, Blank, Tight, StartsWithMark, ReadValue, ParseRun, ReadText;
    var p := Encode(s) + (b + tail);
    var full := a + p;
    WhiteIsAscii(b, tail);
    assert Suffix(tail, p);
    if condense {
      SkipWhiteRun(enc, a, p);
      TightStart(enc, s, b + tail);
      TightText(enc, s, b, tail);
      RunFromText(enc, condense, p, s, tail);
      ValueRun(enc, condense, full, p, acc, s, tail);
    } else {
      assert b + tail == tail && full == p;
      KeptStart(enc, s, tail);
      KeptText(enc, s, tail);
      RunFromText(enc, condense, p, s, tail);
      ValueRun(enc, condense, full, SkipWhite(enc, full), acc, s, tail);
    }
  }

  // ---- Nodes ----

  /** A printed node without the white space around it. */
  function Core(st: Style, n: Node, depth: int): string
    requires !Plain(n)
  {
    match n
    case Element(name, attrs, kids) =>
      "<" + (name + (PrintAttrs(attrs) + BodyText(st, n, depth)))
    case Text(text, _) => "<![CDATA[" + (text + "]]>")
    case Comment(text) => "<!--" + (text + "-->")
    case UnknownTag(text) => "<" + (text + ">")
    case Declaration(_, _, _) => PrintDeclaration(n)
  }

  /** The printed element behind its attributes. */
  function BodyText(st: Style, e: Node, depth: int): string
    requires e.Element?
  {
    if e.kids == [] then " />"
    else ">" + (Gap(st, e.kids) + (PrintKids(st, e.kids, depth + 1, Simple(e.kids)) +
                (EndGap(st, e.kids, depth) + ("</" + (e.name + ">")))))
  }

  function Gap(st: Style, kids: seq<Node>): string {
    if Simple(kids) then "" else st.lineBreak
  }

  function EndGap(st: Style, kids: seq<Node>, depth: int): string {
    if Simple(kids) then "" else Indent(st, depth)
  }

  lemma Glue(a: string, b: string, c: string)
    ensures a + b + c == a + (b + c)
  {}

  lemma GlueTag(i: string, n: string, a: string, h: string, k: string, t: string)
    ensures i + "<" + n + a + h + k + t == i + ("<" + (n + (a + (h + (k + t)))))
  {
    Glue(i + "<" + n + a + h, k, t);
    Glue(i + "<" + n + a, h, k + t);
    Glue(i + "<" + n, a, h + (k + t));
    Glue(i + "<", n, a + (h + (k + t)));
    Glue(i, "<", n + (a + (h + (k + t))));
  }

  lemma GlueBreak(n: string, a: string, g: string, k: string, z: string, b: string)
    ensures ("<" + (n + (a + (">" + (g + (k + z)))))) + b == "<" + (n + (a + ((">" + g) + (k + (z + b)))))
  {
    var x := k + z;
    Glue("<", n + (a + (">" + (g + x))), b);
    Glue(n, a + (">" + (g + x)), b);
    Glue(a, ">" + (g + x), b);
    Glue(">", g + x, b);
    Glue(g, x, b);
    Glue(k, z, b);
    Glue(">", g, k + (z + b));
  }

  lemma GlueEnd(e: string, n: string, b: string)
    ensures e + "</" + n + ">" + b == e + ("</" + (n + ">")) + b
  {
    Glue(e + "</", n, ">");
    Glue(e, "</", n + ">");
  }

  lemma OpenTexts(st: Style, n: Node, depth: int)
    requires n.Element? && n.kids != []
    ensures StartText(st, n, depth) == Indent(st, depth) + "<" + n.name + PrintAttrs(n.attrs) + (">" + Gap(st, n.kids))
    ensures EndText(st, n, depth) == EndGap(st, n.kids, depth) + "</" + n.name + ">" + st.lineBreak
    ensures Core(st, n, depth) ==
            "<" + (n.name + (PrintAttrs(n.attrs) + (">" + (Gap(st, n.kids) +
              (PrintKids(st, n.kids, depth + 1, Simple(n.kids)) +
               (EndGap(st, n.kids, depth) + ("</" + (n.name + ">"))))))))
  {
    hide Indent, PrintAttrs, PrintKids;
  }

  lemma EmptyTexts(st: Style, n: Node, depth: int)
    requires n.Element? && n.kids == []
    ensures StartText(st, n, depth) == Indent(st, depth) + "<" + n.name + PrintAttrs(n.attrs) + (" />" + st.lineBreak)
    ensures EndText(st, n, depth) == "" == PrintKids(st, n.kids, depth + 1, Simple(n.kids))
    ensures Core(st, n, depth) == "<" + (n.name + (PrintAttrs(n.attrs) + " />"))
  {
    hide Indent, PrintAttrs;
  }

  lemma GlueEmpty(i: string, n: string, a: string, b: string)
    ensures i + "<" + n + a + (" />" + b) + "" + "" == i + (("<" + (n + (a + " />"))) + b)
  {
    GlueTag(i, n, a, " />" + b, "", "");
    assert " />" + b + ("" + "") == " />" + b;
    Glue("<", n + (a + " />"), b);
    Glue(n, a + " />", b);
    Glue(a, " />", b);
  }

  lemma PrintElementIsCore(st: Style, n: Node, depth: int)
    requires n.Element?
    ensures StartText(st, n, depth) + PrintKids(st, n.kids, depth + 1, Simple(n.kids)) + EndText(st, n, depth) ==
            Indent(st, depth) + (Core(st, n, depth) + st.lineBreak)
  {
    hide *;
    var i, a := Indent(st, depth), PrintAttrs(n.attrs);
    var k := PrintKids(st, n.kids, depth + 1, Simple(n.kids));
    if n.kids == [] {
      EmptyTexts(st, n, depth);
      GlueEmpty(i, n.name, a, st.lineBreak);
    } else {
      OpenTexts(st, n, depth);
      var g, e := Gap(st, n.kids), EndGap(st, n.kids, depth);
      var z := e + ("</" + (n.name + ">"));
      GlueEnd(e, n.name, st.lineBreak);
      GlueTag(i, n.name, a, ">" + g, k, z + st.lineBreak);
      GlueBreak(n.name, a, g, k, z, st.lineBreak);
    }
  }

  lemma PrintIsCore(st: Style, n: Node, depth: int, simple: bool)
    requires !Plain(n)
    ensures Print(st, n, depth, simple) == Indent(st, depth) + (Core(st, n, depth) + st.lineBreak)
  {
    if n.Element? {
      PrintElementIsCore(st, n, depth);
      hide StartText, EndText, PrintKids, Indent, Core;
    } else {
      hide Indent, PrintDeclaration;
      var i := Indent(st, depth);
      match n
      case Text(text, _) =>
        assert i + "<![CDATA[" + text + "]]>" + st.lineBreak == i + (("<![CDATA[" + (text + "]]>")) + st.lineBreak);
      case Comment(text) =>
        assert i + "<!--" + text + "-->" + st.lineBreak == i + (("<!--" + (text + "-->")) + st.lineBreak);
      case UnknownTag(text) => assert i + "<" + text + ">" + st.lineBreak == i + (("<" + (text + ">")) + st.lineBreak);
      case Declaration(_, _, _) =>
        assert i + PrintDeclaration(n) + st.lineBreak == i + (PrintDeclaration(n) + st.lineBreak);
    }
  }

  /** Where the pointer is after a node: a CDATA section at the very end leaves it null. */
  function After(n: Node, tail: string): Ptr {
    if n.Text? && tail == "" then None else Some(tail)
  }

  lemma NodeByKind(enc: Encoding, condense: bool, p: string)
    ensures ParseNode(enc, condense, CommentKind, p) == ParseComment(enc, p)
    ensures ParseNode(enc, condense, CdataKind, p) == ParseCdata(enc, condense, p)
    ensures ParseNode(enc, condense, UnknownKind, p) == ParseUnknown(enc, p)
    ensures ParseNode(enc, condense, DeclarationKind, p) == ParseDeclaration(enc, condense, p)
    ensures ParseNode(enc, condense, ElementKind, p) == ParseElement(enc, condense, p)
  {
    hide ParseComment, ParseCdata, ParseUnknown, ParseDeclaration, ParseElement;
  }

  /** A text starts with a tag, perhaps an end tag. */
  predicate StartsTag(p: string) {
    |p| > 1 && p[0] == '<'
  }

  lemma DeclarationStarts(d: Node, tail: string)
    requires d.Declaration?
    ensures StartsTag(PrintDeclaration(d) + tail)
  {
    hide PrintField;
    DeclarationPrinted(d, tail);
  }

  /** What it means that a printed node is read back in front of `tail`. */
  predicate IsRead(enc: Encoding, condense: bool, n: Node, p: string, tail: string) {
    StartsTag(p) && ParseNode(enc, condense, KindOf(p), p) == Parsed(n, After(n, tail), NoError)
  }

  lemma ReadBy(enc: Encoding, condense: bool, n: Node, p: string, kind: Kind, r: Parsed, tail: string)
    requires StartsTag(p) && KindOf(p) == kind && ParseNode(enc, condense, kind, p) == r
    requires r == Parsed(n, After(n, tail), NoError)
    ensures IsRead(enc, condense, n, p, tail)
  {
    hide ParseNode, KindOf, After, StartsTag;
  }

  lemma CommentNode(enc: Encoding, condense: bool, st: Style, s: string, depth: int, tail: string)
    requires Lacks(s, "-->")
    ensures IsRead(enc, condense, Comment(s), Core(st, Comment(s), depth) + tail, tail)
  {
    var p, r := Core(st, Comment(s), depth) + tail, s + "-->" + tail;
    assert p == "<!--" + r && p[0] == '<' && p[1] == '!';
    assert After(Comment(s), tail) == Some(tail) && StartsTag(p);
    hide *;
    NodeByKind(enc, condense, p);
    KindsOfMarks(r);
    CommentIsRead(enc, s, tail);
    ReadBy(enc, condense, Comment(s), p, CommentKind, Parsed(Comment(s), Some(tail), NoError), tail);
  }

  lemma CdataNode(enc: Encoding, condense: bool, st: Style, s: string, depth: int, tail: string)
    requires Lacks(s, "]]>")
    ensures IsRead(enc, condense, Text(s, true), Core(st, Text(s, true), depth) + tail, tail)
  {
    var n := Text(s, true);
    var p, r := Core(st, n, depth) + tail, s + "]]>" + tail;
    var rest := if tail == "" then None else Some(tail);
    assert p == "<![CDATA[" + r && p[0] == '<' && p[1] == '!';
    assert After(n, tail) == rest && StartsTag(p);
    hide *;
    NodeByKind(enc, condense, p);
    KindsOfMarks(r);
    CdataIsRead(enc, condense, s, tail);
    ReadBy(enc, condense, n, p, CdataKind, Parsed(n, rest, NoError), tail);
  }

  lemma UnknownNode(enc: Encoding, condense: bool, st: Style, s: string, depth: int, tail: string)
    requires '>' !in s && KindOf("<" + s + ">") == UnknownKind
    ensures IsRead(enc, condense, UnknownTag(s), Core(st, UnknownTag(s), depth) + tail, tail)
  {
    hide KindOf, ParseNode;
    var n, q := UnknownTag(s), "<" + s + ">";
    var p := Core(st, n, depth) + tail;
    assert p == "<" + (s + ">" + tail) == q + tail;
    assert p[0] == '<';
    assert After(n, tail) == Some(tail) && StartsTag(p);
    hide *;
    NodeByKind(enc, condense, p);
    UnknownKindStays(q, tail);
    UnknownIsRead(enc, s, tail);
    ReadBy(enc, condense, n, p, UnknownKind, Parsed(n, Some(tail), NoError), tail);
  }

  lemma DeclarationNode(enc: Encoding, condense: bool, st: Style, d: Node, depth: int, tail: string)
    requires d.Declaration? && FieldOk(enc, d.version) && FieldOk(enc, d.encoding) && FieldOk(enc, d.standalone)
    requires NulFree(d.version) && NulFree(d.encoding) && NulFree(d.standalone)
    ensures IsRead(enc, condense, d, Core(st, d, depth) + tail, tail)
  {
    var p := Core(st, d, depth) + tail;
    assert p == PrintDeclaration(d) + tail by { hide PrintDeclaration; }
    assert After(d, tail) == Some(tail);
    hide *;
    NodeByKind(enc, condense, p);
    DeclarationIsRead(enc, condense, d, tail);
    DeclarationStarts(d, tail);
    ReadBy(enc, condense, d, p, DeclarationKind, Parsed(d, Some(tail), NoError), tail);
  }

  lemma LeafIsRead(enc: Encoding, condense: bool, st: Style, simple: bool, n: Node, depth: int, tail: string)
    requires !Plain(n) && !n.Element? && NodeOk(enc, condense, st, simple, n)
    ensures IsRead(enc, condense, n, Core(st, n, depth) + tail, tail)
  {
    hide IsRead, KindOf, Lacks, FieldOk, NulFree, Core;
    match n
    case Comment(s) => CommentNode(enc, condense, st, s, depth, tail);
    case Text(s, _) => CdataNode(enc, condense, st, s, depth, tail);
    case UnknownTag(s) => UnknownNode(enc, condense, st, s, depth, tail);
    case Declaration(_, _, _) => DeclarationNode(enc, condense, st, n, depth, tail);
  }

  // ---- Elements ----

  lemma TagNameIsRead(enc: Encoding, name: string, rest: string)
    requires NameOk(enc, name) && rest != "" && rest[0] in {' ', '>'}
    ensures ParseTagName(enc, "<" + (name + rest)) == Some((name, rest))
  {
    hide SkipWhite, NameLength;
    var p := "<" + (name + rest);
    assert p[1..] == name + rest && (name + rest)[|name|..] == rest && (name + rest)[..|name|] == name;
    NameIsRead(enc, name, rest);
  }

  lemma TagStays(enc: Encoding, p: string)
    requires p != "" && p[0] == '<'
    ensures SkipWhiteSpace(enc, Some(p)) == Some(p)
  {
    SkipWhiteStays(enc, p);
  }

  lemma ElementEmpty(enc: Encoding, condense: bool, p: string, name: string, rest: string, attrs: seq<Attr>,
                     tail: string)
    requires p != "" && p[0] == '<' && ParseTagName(enc, p) == Some((name, rest))
    requires rest != "" && ParseAttributes(enc, condense, rest, []) == EmptyTag(attrs, tail)
    ensures ParseElement(enc, condense, p) == Parsed(Element(name, attrs, []), Some(tail), NoError)
  {
    hide SkipWhiteSpace, ParseTagName, ParseAttributes, ParseEndTag, ReadValue, PartialName;
    TagStays(enc, p);
  }

  lemma ElementOpen(enc: Encoding, condense: bool, p: string, name: string, rest: string, attrs: seq<Attr>,
                    inner: string)
    requires p != "" && p[0] == '<' && ParseTagName(enc, p) == Some((name, rest))
    requires rest != "" && ParseAttributes(enc, condense, rest, []) == OpenTag(attrs, inner)
    ensures var c := ReadValue(enc, condense, Some(inner), []);
            ParseElement(enc, condense, p) == ParseEndTag(enc, Element(name, attrs, c.kids), c.rest, c.err)
  {
    hide SkipWhiteSpace, ParseTagName, ParseAttributes, ParseEndTag, ReadValue, PartialName;
    TagStays(enc, p);
  }

  lemma EndTagIsRead(enc: Encoding, e: Node, tail: string)
    requires e.Element?
    ensures ParseEndTag(enc, e, Some("</" + (e.name + ">") + tail), NoError) == Parsed(e, Some(tail), NoError)
  {
    hide StringEqual;
    var mark := "</" + e.name;
    var p := "</" + (e.name + ">") + tail;
    var s := ">" + tail;
    assert p == mark + s;
    MarkAhead(mark, s);
    SkipWhiteStays(enc, s);
    assert s[1..] == tail;
    hide SkipWhite;
  }

  lemma AttrsStart(attrs: seq<Attr>, rest: string)
    requires rest != "" && rest[0] in {' ', '>'}
    ensures var p := PrintAttrs(attrs) + rest; p != "" && p[0] in {' ', '>'}
  {
    hide PrintAttr;
  }

  lemma EmptyElementIsRead(enc: Encoding, condense: bool, st: Style, n: Node, depth: int, tail: string)
    requires n.Element? && n.kids == [] && NameOk(enc, n.name) && AttrsOk(enc, n.attrs)
    ensures var p := Core(st, n, depth) + tail; ParseElement(enc, condense, p) == Parsed(n, Some(tail), NoError)
  {
    assert !Plain(n);
    hide *;
    EmptyTexts(st, n, depth);
    var a, p := PrintAttrs(n.attrs), Core(st, n, depth) + tail;
    var rest := a + (" />" + tail);
    Glue("<", n.name + (a + " />"), tail);
    Glue(n.name, a + " />", tail);
    Glue(a, " />", tail);
    AttrsStart(n.attrs, " />" + tail);
    TagNameIsRead(enc, n.name, rest);
    assert [] + n.attrs == n.attrs;
    AttrsAreRead(enc, condense, n.attrs, [], " />" + tail);
    EmptyTagStep(enc, condense, n.attrs, tail);
    AttributesStop(enc, condense, " />" + tail, n.attrs);
    ElementEmpty(enc, condense, p, n.name, rest, n.attrs, tail);
  }

  /** What stands between the start tag of an element and the text behind it. */
  function Inner(st: Style, n: Node, depth: int, tail: string): string
    requires n.Element?
  {
    Gap(st, n.kids) + (PrintKids(st, n.kids, depth + 1, Simple(n.kids)) +
      (EndGap(st, n.kids, depth) + ("</" + (n.name + ">") + tail)))
  }

  lemma GlueInner(n: string, a: string, g: string, k: string, e: string, c: string, tail: string)
    ensures ("<" + (n + (a + (">" + (g + (k + (e + c))))))) + tail ==
            "<" + (n + (a + (">" + (g + (k + (e + (c + tail)))))))
  {
    var x := k + (e + c);
    Glue("<", n + (a + (">" + (g + x))), tail);
    Glue(n, a + (">" + (g + x)), tail);
    Glue(a, ">" + (g + x), tail);
    Glue(">", g + x, tail);
    Glue(g, x, tail);
    Glue(k, e + c, tail);
    Glue(e, c, tail);
  }

  lemma OpenElementIsRead(enc: Encoding, condense: bool, st: Style, n: Node, depth: int, tail: string)
    requires n.Element? && n.kids != [] && NameOk(enc, n.name) && AttrsOk(enc, n.attrs)
    requires ReadValue(enc, condense, Some(Inner(st, n, depth, tail)), []) ==
             Content(n.kids, Some("</" + (n.name + ">") + tail), NoError)
    ensures var p := Core(st, n, depth) + tail; ParseElement(enc, condense, p) == Parsed(n, Some(tail), NoError)
  {
    var inner := Inner(st, n, depth, tail);
    assert inner == Gap(st, n.kids) + (PrintKids(st, n.kids, depth + 1, Simple(n.kids)) +
      (EndGap(st, n.kids, depth) + ("</" + (n.name + ">") + tail)));
    assert !Plain(n);
    hide *;
    OpenTexts(st, n, depth);
    var a, p := PrintAttrs(n.attrs), Core(st, n, depth) + tail;
    var rest := a + (">" + inner);
    GlueInner(n.name, a, Gap(st, n.kids), PrintKids(st, n.kids, depth + 1, Simple(n.kids)), EndGap(st, n.kids, depth),
              "</" + (n.name + ">"), tail);
    AttrsStart(n.attrs, ">" + inner);
    TagNameIsRead(enc, n.name, rest);
    assert [] + n.attrs == n.attrs;
    AttrsAreRead(enc, condense, n.attrs, [], ">" + inner);
    OpenTagStep(enc, condense, n.attrs, inner);
    AttributesStop(enc, condense, ">" + inner, n.attrs);
    ElementOpen(enc, condense, p, n.name, rest, n.attrs, inner);
    EndTagIsRead(enc, n, tail);
  }

  lemma ElementStarts(enc: Encoding, condense: bool, st: Style, n: Node, depth: int, tail: string)
    requires n.Element? && NameOk(enc, n.name)
    ensures var p := Core(st, n, depth) + tail;
            StartsTag(p) && KindOf(p) == ElementKind
  {
    hide KindOf, BodyText, PrintAttrs;
    var p := Core(st, n, depth) + tail;
    var c, rest := n.name[0], p[2..];
    assert p == "<" + [c] + rest;
    NameStartIsNoMark(c);
    KindOfElement(c, rest);
  }

  // ---- The content of an element ----

  /** The children are fit to be printed next to each other. */
  predicate KidsOk(enc: Encoding, condense: bool, st: Style, simple: bool, kids: seq<Node>) {
    && (forall k :: k in kids ==> NodeOk(enc, condense, st, simple, k))
    && Apart(kids) && (simple ==> Simple(kids) || kids == [])
  }

  lemma KidsOkTail(enc: Encoding, condense: bool, st: Style, simple: bool, kids: seq<Node>)
    requires kids != [] && KidsOk(enc, condense, st, simple, kids)
    ensures NodeOk(enc, condense, st, simple, kids[0])
    ensures KidsOk(enc, condense, st, simple, kids[1..])
    ensures (Plain(kids[0]) && |kids| > 1 ==> !Plain(kids[1])) && !LikeEndTag(kids[0])
    ensures simple ==> Plain(kids[0]) && kids[1..] == []
  {
    hide NodeOk;
    assert kids[0] in kids;
    assert forall i :: 0 <= i < |kids[1..]| ==> kids[1..][i] == kids[i + 1];
  }

  /** White space in front of a tag may be there only where no reading mode keeps it. */
  predicate Loose(condense: bool, st: Style, simple: bool, w: string) {
    AllWhite(w) && (!condense && (simple || st == Style("", "")) ==> w == "")
  }

  lemma GlueNode(pre: string, i: string, c: string, b: string, rest: string)
    ensures pre + (i + (c + b) + rest) == pre + i + (c + (b + rest))
  {
    Glue(i, c + b, rest);
    Glue(c, b, rest);
    Glue(pre, i, c + (b + rest));
  }

  lemma PrintKidsStep(st: Style, kids: seq<Node>, depth: int, simple: bool, end: string)
    requires kids != []
    ensures PrintKids(st, kids, depth, simple) + end ==
            Print(st, kids[0], depth, simple) + (PrintKids(st, kids[1..], depth, simple) + end)
  {
    hide Print;
    Glue(Print(st, kids[0], depth, simple), PrintKids(st, kids[1..], depth, simple), end);
  }

  lemma PrintNoKids(st: Style, depth: int, simple: bool, end: string)
    ensures PrintKids(st, [], depth, simple) + end == end
  {}

  lemma CoreIsTag(enc: Encoding, st: Style, n: Node, depth: int, tail: string)
    requires !Plain(n) && Shaped(enc, n)
    ensures var p := Core(st, n, depth) + tail;
            StartsTag(p) && (p[1] == '/' ==> LikeEndTag(n))
  {
    hide BodyText, PrintAttrs, PrintField, Lacks, KindOf, AttrsShaped, Apart;
    if n.Element? {
      NameStartIsNoMark(n.name[0]);
    }
  }

  lemma LooseLayout(condense: bool, st: Style, simple: bool, depth: int)
    requires WhiteStyle(st) && !simple
    ensures Loose(condense, st, simple, Indent(st, depth)) && Loose(condense, st, simple, st.lineBreak)
  {
    hide Indent, AllWhite;
    IndentWhite(st, depth);
  }

  lemma LooseConcat(condense: bool, st: Style, simple: bool, a: string, b: string)
    requires Loose(condense, st, simple, a) && Loose(condense, st, simple, b)
    ensures Loose(condense, st, simple, a + b)
  {}

  /** What follows a child: white space and then a tag, if no text comes next. */
  lemma RestIsTag(enc: Encoding, condense: bool, st: Style, simple: bool, kids: seq<Node>, depth: int, w: string,
                  end: string)
    returns (c: string, y: string)
    requires WhiteStyle(st) && (kids != [] ==> !simple && Shaped(enc, kids[0]) && !Plain(kids[0]))
    requires Loose(condense, st, simple, w) && StartsTag(end)
    ensures PrintKids(st, kids, depth, simple) + (w + end) == c + y
    ensures Loose(condense, st, simple, c) && StartsTag(y)
  {
    hide *;
    if kids == [] {
      PrintNoKids(st, depth, simple, w + end);
      c, y := w, end;
    } else {
      var n, i, rest := kids[0], Indent(st, depth), PrintKids(st, kids[1..], depth, simple) + (w + end);
      PrintKidsStep(st, kids, depth, simple, w + end);
      PrintIsCore(st, n, depth, simple);
      LooseLayout(condense, st, simple, depth);
      Glue(i, Core(st, n, depth) + st.lineBreak, rest);
      Glue(Core(st, n, depth), st.lineBreak, rest);
      CoreIsTag(enc, st, n, depth, st.lineBreak + rest);
      c, y := i, Core(st, n, depth) + (st.lineBreak + rest);
    }
  }

  /** The layout that a printer puts before and behind running text. */
  function Margin(simple: bool, w: string): string {
    if simple then "" else w
  }

  lemma PrintRun(st: Style, s: string, depth: int, simple: bool, rest: string)
    ensures Print(st, Text(s, false), depth, simple) + rest ==
            Margin(simple, Indent(st, depth)) + (Encode(s) + (Margin(simple, st.lineBreak) + rest))
  {
    hide Indent, Encode;
    var a, b := Margin(simple, Indent(st, depth)), Margin(simple, st.lineBreak);
    assert Print(st, Text(s, false), depth, simple) == a + Encode(s) + b;
    Glue(a + Encode(s), b, rest);
    Glue(a, Encode(s), b + rest);
  }

  lemma LooseMargins(condense: bool, st: Style, simple: bool, depth: int)
    requires WhiteStyle(st)
    ensures Loose(condense, st, simple, Margin(simple, Indent(st, depth)))
    ensures Loose(condense, st, simple, Margin(simple, st.lineBreak))
  {
    if !simple {
      LooseLayout(condense, st, simple, depth);
    }
    hide Indent;
  }

  lemma LooseRun(enc: Encoding, condense: bool, st: Style, simple: bool, a: string, s: string, b: string, tail: string,
                 acc: seq<Node>)
    requires RunOk(enc, condense, st, simple, s) && Loose(condense, st, simple, a) && Loose(condense, st, simple, b)
    requires StartsTag(tail)
    ensures ReadValue(enc, condense, Some(a + (Encode(s) + (b + tail))), acc) ==
            ReadValue(enc, condense, Some(tail), acc + [Text(s, false)])
  {
    hide Encode, SkipWhite, Whole, NoReference, Blank, Tight, StartsWithMark, ReadValue;
    RunIsRead(enc, condense, a, s, b, tail, acc);
  }

  lemma LooseValue(enc: Encoding, condense: bool, st: Style, simple: bool, w: string, tail: string, acc: seq<Node>)
    requires Loose(condense, st, simple, w) && StartsTag(tail)
    ensures ReadValue(enc, condense, Some(w + tail), acc) == ReadValue(enc, condense, Some(tail), acc)
  {
    hide ReadValue;
    ValueWhite(enc, condense, w, tail, acc);
  }

  lemma NodeValue(enc: Encoding, condense: bool, p: string, acc: seq<Node>, n: Node, tail: string)
    requires IsRead(enc, condense, n, p, tail) && tail != "" && p[1] != '/'
    ensures ReadValue(enc, condense, Some(p), acc) == ReadValue(enc, condense, Some(tail), acc + [n])
  {
    hide ReadValue, ParseNode, KindOf, SkipWhite;
    SkipWhiteStays(enc, p);
    ValueNode(enc, condense, p, p, acc, n, tail);
  }

  /** An end tag. */
  predicate StartsEnd(p: string) {
    |p| > 1 && p[0] == '<' && p[1] == '/'
  }

  lemma EndValue(enc: Encoding, condense: bool, st: Style, simple: bool, w: string, end: string, acc: seq<Node>)
    requires Loose(condense, st, simple, w) && StartsEnd(end)
    ensures ReadValue(enc, condense, Some(w + end), acc) == Content(acc, Some(end), NoError)
  {
    hide ReadValue, SkipWhite;
    SkipWhiteStays(enc, end);
    LooseValue(enc, condense, st, simple, w, end, acc);
    ValueEnd(enc, condense, end, end, acc);
  }

  lemma RunOkOfNode(enc: Encoding, condense: bool, st: Style, simple: bool, n: Node)
    requires Plain(n) && NodeOk(enc, condense, st, simple, n)
    ensures RunOk(enc, condense, st, simple, n.text) && n == Text(n.text, false)
  {}

  lemma NonEmptySum(a: string, b: string, end: string)
    requires StartsEnd(end)
    ensures a + (b + end) != "" && StartsTag(end)
  {}

  lemma NothingBefore(condense: bool, st: Style, simple: bool, p: string)
    ensures "" + p == p && Loose(condense, st, simple, "")
  {}

  /** The printed children of an element are read back in order, up to its end tag. */
  lemma {:induction false} KidsAreRead(enc: Encoding, condense: bool, st: Style, kids: seq<Node>, depth: int,
                                       simple: bool, pre: string, w: string, end: string, acc: seq<Node>)
    requires WhiteStyle(st) && KidsOk(enc, condense, st, simple, kids)
    requires Loose(condense, st, simple, pre) && Loose(condense, st, simple, w) && StartsEnd(end)
    ensures ReadValue(enc, condense, Some(pre + (PrintKids(st, kids, depth, simple) + (w + end))), acc) ==
            Content(acc + kids, Some(end), NoError)
    decreases kids, 0
  {
    hide *;
    if kids == [] {
      PrintNoKids(st, depth, simple, w + end);
      Glue(pre, w, end);
      LooseConcat(condense, st, simple, pre, w);
      EndValue(enc, condense, st, simple, pre + w, end, acc);
      assert acc + kids == acc;
    } else {
      KidsOkTail(enc, condense, st, simple, kids);
      var n, rest := kids[0], PrintKids(st, kids[1..], depth, simple) + (w + end);
      PrintKidsStep(st, kids, depth, simple, w + end);
      NonEmptySum(PrintKids(st, kids[1..], depth, simple), w, end);
      assert acc + [n] + kids[1..] == acc + kids;
      if Plain(n) {
        RunOkOfNode(enc, condense, st, simple, n);
        SecondIsTag(enc, condense, st, simple, kids);
        var c, y := RestIsTag(enc, condense, st, simple, kids[1..], depth, w, end);
        var a, b := Margin(simple, Indent(st, depth)), Margin(simple, st.lineBreak);
        LooseMargins(condense, st, simple, depth);
        PrintRun(st, n.text, depth, simple, rest);
        LooseConcat(condense, st, simple, pre, a);
        LooseConcat(condense, st, simple, b, c);
        Glue(pre, a, Encode(n.text) + (b + rest));
        Glue(b, c, y);
        LooseRun(enc, condense, st, simple, pre + a, n.text, b + c, y, acc);
        LooseValue(enc, condense, st, simple, c, y, acc + [n]);
        NothingBefore(condense, st, simple, rest);
        KidsAreRead(enc, condense, st, kids[1..], depth, simple, "", w, end, acc + [n]);
      } else {
        var i, core, b := Indent(st, depth), Core(st, n, depth), st.lineBreak;
        PrintIsCore(st, n, depth, simple);
        GlueNode(pre, i, core, b, rest);
        LooseLayout(condense, st, simple, depth);
        LooseConcat(condense, st, simple, pre, i);
        NodeIsRead(enc, condense, st, n, depth, simple, b + rest);
        ReadIsTag(enc, condense, n, core + (b + rest), b + rest);
        LooseValue(enc, condense, st, simple, pre + i, core + (b + rest), acc);
        NonEmptyTail(b, rest);
        OkIsShaped(enc, condense, st, simple, n);
        CoreIsTag(enc, st, n, depth, b + rest);
        NodeValue(enc, condense, core + (b + rest), acc, n, b + rest);
        KidsAreRead(enc, condense, st, kids[1..], depth, simple, b, w, end, acc + [n]);
      }
    }
  }

  lemma OkIsShaped(enc: Encoding, condense: bool, st: Style, simple: bool, n: Node)
    requires NodeOk(enc, condense, st, simple, n)
    ensures Shaped(enc, n)
  {}

  lemma SecondIsTag(enc: Encoding, condense: bool, st: Style, simple: bool, kids: seq<Node>)
    requires kids != [] && Plain(kids[0]) && KidsOk(enc, condense, st, simple, kids)
    ensures kids[1..] != [] ==> !simple && Shaped(enc, kids[1..][0]) && !Plain(kids[1..][0])
  {
    if |kids| > 1 {
      assert NodeOk(enc, condense, st, simple, kids[1]);
      hide Shaped;
    }
  }

  lemma NonEmptyTail(b: string, rest: string)
    requires rest != ""
    ensures b + rest != ""
  {}

  lemma ReadIsTag(enc: Encoding, condense: bool, n: Node, p: string, tail: string)
    requires IsRead(enc, condense, n, p, tail)
    ensures StartsTag(p)
  {
    hide ParseNode, KindOf;
  }

  lemma ElementParts(enc: Encoding, condense: bool, st: Style, simple: bool, n: Node)
    requires n.Element? && NodeOk(enc, condense, st, simple, n)
    ensures NameOk(enc, n.name) && AttrsOk(enc, n.attrs) && KidsOk(enc, condense, st, Simple(n.kids), n.kids)
    ensures !Plain(n) && forall tail :: After(n, tail) == Some(tail)
  {
    hide NameOk, Whole, NoReference, Closed, Apart;
  }

  lemma GapsAreLoose(condense: bool, st: Style, kids: seq<Node>, depth: int)
    requires WhiteStyle(st)
    ensures Loose(condense, st, Simple(kids), Gap(st, kids))
    ensures Loose(condense, st, Simple(kids), EndGap(st, kids, depth))
  {
    if !Simple(kids) {
      LooseLayout(condense, st, false, depth);
    }
    hide Indent;
  }

  lemma EndStarts(name: string, tail: string)
    ensures StartsEnd("</" + (name + ">") + tail)
  {}

  lemma InnerIs(st: Style, n: Node, depth: int, tail: string)
    requires n.Element?
    ensures Inner(st, n, depth, tail) ==
            Gap(st, n.kids) + (PrintKids(st, n.kids, depth + 1, Simple(n.kids)) +
              (EndGap(st, n.kids, depth) + ("</" + (n.name + ">") + tail)))
  {
    hide Gap, PrintKids, EndGap;
  }

  /** A printed node is read back, whatever follows it. */
  lemma {:induction false} NodeIsRead(enc: Encoding, condense: bool, st: Style, n: Node, depth: int, simple: bool,
                                      tail: string)
    requires WhiteStyle(st) && !Plain(n) && NodeOk(enc, condense, st, simple, n)
    ensures IsRead(enc, condense, n, Core(st, n, depth) + tail, tail)
    decreases n, 1
  {
    hide *;
    if n.Element? {
      ElementParts(enc, condense, st, simple, n);
      var p, end := Core(st, n, depth) + tail, "</" + (n.name + ">") + tail;
      if n.kids == [] {
        EmptyElementIsRead(enc, condense, st, n, depth, tail);
      } else {
        GapsAreLoose(condense, st, n.kids, depth);
        EndStarts(n.name, tail);
        KidsAreRead(enc, condense, st, n.kids, depth + 1, Simple(n.kids), Gap(st, n.kids), EndGap(st, n.kids, depth),
                    end, []);
        InnerIs(st, n, depth, tail);
        assert [] + n.kids == n.kids;
        OpenElementIsRead(enc, condense, st, n, depth, tail);
      }
      ElementStarts(enc, condense, st, n, depth, tail);
      NodeByKind(enc, condense, p);
      ReadBy(enc, condense, n, p, ElementKind, Parsed(n, Some(tail), NoError), tail);
    } else {
      LeafIsRead(enc, condense, st, simple, n, depth, tail);
    }
  }

  // ---- The nodes of a document ----

  lemma DocumentStep(enc: Encoding, condense: bool, p: string, acc: seq<Node>, n: Node, tail: string)
    requires IsRead(enc, condense, n, p, tail)
    ensures var enc' := NextEncoding(enc, n);
            var q := SkipWhiteSpace(enc', After(n, tail));
            ParseNodes(enc, condense, Some(p), acc) ==
            if q.Some? then ParseNodes(enc', condense, q, acc + [n]) else Content(acc + [n], None, NoError)
  {
    assert p != "" && p[0] == '<' && ParseNode(enc, condense, KindOf(p), p) == Parsed(n, After(n, tail), NoError);
    hide *;
    TagStays(enc, p);
    NodesStep(enc, condense, p, acc, n, After(n, tail));
  }

  lemma NodesStep(enc: Encoding, condense: bool, p: string, acc: seq<Node>, n: Node, rest: Ptr)
    requires p != "" && p[0] == '<' && SkipWhiteSpace(enc, Some(p)) == Some(p)
    requires ParseNode(enc, condense, KindOf(p), p) == Parsed(n, rest, NoError)
    ensures var enc' := NextEncoding(enc, n);
            var q := SkipWhiteSpace(enc', rest);
            ParseNodes(enc, condense, Some(p), acc) ==
            if q.Some? then ParseNodes(enc', condense, q, acc + [n]) else Content(acc + [n], None, NoError)
  {
    hide SkipWhiteSpace, ParseNode, KindOf, NextEncoding;
  }
}
