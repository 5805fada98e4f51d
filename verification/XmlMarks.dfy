// What decides how a document is read: marks in any case, the encoding that a
// declaration names, byte order marks, and the errors of broken documents.
module XmlMarks {
  import opened Letters
  import opened Options
  import opened Sequences
  import opened XmlText
  import opened XmlParser
  import opened XmlCodec
  import opened XmlRoundTrip
  import opened XmlLayout

  // ---- Any case ----

  lemma LowerIsSameLetter(c: char, d: char)
    ensures ToLower(c) == ToLower(d) <==> SameLetter(c, d)
  {
    LettersInOrder();
    if ToLower(c) == ToLower(d) && c != d {
      var i := ToLower(c) as int - 'a' as int;
      assert (c == SMALL[i] && d == CAPITAL[i]) || (c == CAPITAL[i] && d == SMALL[i]);
    }
  }

  /** The text begins with the mark, each letter in either form. */
  predicate BeginsAnyCase(p: string, mark: string) {
    |mark| <= |p| && forall i :: 0 <= i < |mark| ==> SameLetter(p[i], mark[i])
  }

  lemma AnyCase(p: string, mark: string)
    requires mark != ""
    ensures StringEqual(p, mark, true) <==> BeginsAnyCase(p, mark)
  {
    hide SameLetter, ToLower;
    forall i | 0 <= i < |mark| && i < |p|
      ensures ToLower(p[i]) == ToLower(mark[i]) <==> SameLetter(p[i], mark[i])
    {
      LowerIsSameLetter(p[i], mark[i]);
    }
  }

  /** A tag is taken for a declaration exactly when it begins with "<?xml" in any case, and for the other kinds exactly
      when it begins with their marks; what else begins with a name is an element. */
  lemma KindsOfTags(p: string)
    requires p != "" && p[0] == '<'
    ensures KindOf(p) == if BeginsAnyCase(p, "<?xml") then DeclarationKind
                         else if "<!--" <= p then CommentKind
                         else if "<![CDATA[" <= p then CdataKind
                         else if "<!" <= p then UnknownKind
                         else if |p| > 1 && IsNameStart(p[1]) then ElementKind
                         else UnknownKind
  {
    hide IsNameStart;
    AnyCase(p, "<?xml");
    MarkIsPrefix(p, "<!--");
    MarkIsPrefix(p, "<![CDATA[");
    MarkIsPrefix(p, "<!");
    hide StringEqual, BeginsAnyCase;
  }

  lemma MarkIsPrefix(p: string, mark: string)
    requires mark != ""
    ensures StringEqual(p, mark, false) <==> mark <= p
  {
    if mark <= p {
      assert forall i :: 0 <= i < |mark| ==> p[i] == p[..|mark|][i];
    }
  }

  // ---- Encodings ----

  /** While the encoding is not known, a declaration fixes it: to UTF-8 if it names none, or a name that begins with
      "UTF-8" or "UTF8" in any case, and else to a one-byte encoding. Nothing else changes it. */
  lemma EncodingInForce(enc: Encoding, n: Node)
    ensures !enc.Unknown? || !n.Declaration? ==> NextEncoding(enc, n) == enc
    ensures enc.Unknown? && n.Declaration? ==>
              NextEncoding(enc, n) ==
              if n.encoding == "" || BeginsAnyCase(n.encoding, "UTF-8") || BeginsAnyCase(n.encoding, "UTF8")
              then Encoding.Utf8 else Encoding.Legacy
  {
    if n.Declaration? {
      AnyCase(n.encoding, "UTF-8");
      AnyCase(n.encoding, "UTF8");
    }
    hide StringEqual, BeginsAnyCase;
  }

  const MARK := ['\U{EF}', '\U{BB}', '\U{BF}']

  lemma SkipOneMark(mark: string, p: string)
    requires mark in [['\U{EF}', '\U{BB}', '\U{BF}'], ['\U{EF}', '\U{BF}', '\U{BE}'], ['\U{EF}', '\U{BF}', '\U{BF}']]
    ensures SkipWhite(Encoding.Utf8, mark + p) == SkipWhite(Encoding.Utf8, p)
    ensures SkipWhite(Encoding.Unknown, mark + p) == SkipWhite(Encoding.Legacy, mark + p) == mark + p
  {
    var s := mark + p;
    assert s[..3] == mark && s[3..] == p && s[0] == mark[0] && s[1] == mark[1] && s[2] == mark[2];
    assert StartsWithMark(s);
  }

  /** A text that begins with the byte order mark is read like the text behind the mark in UTF-8. */
  lemma ByteOrderMark(condense: bool, p: string)
    ensures var d, e := ParseDocument(Encoding.Unknown, condense, MARK + p), ParseDocument(Encoding.Utf8, condense, p);
            d.nodes == e.nodes && d.err == e.err && d.bom
  {
    var s := MARK + p;
    MarkIsFound(Encoding.Unknown, condense, s);
    SkipOneMark(MARK, p);
    assert |s| >= 3 && s[0] == MARK[0] && s[1] == MARK[1] && s[2] == MARK[2];
    EmptyRuns(condense);
    hide ParseNodes, SkipWhite;
  }

  /** The mark is remembered exactly when the encoding was not known and the text begins with it. */
  lemma MarkIsFound(enc: Encoding, condense: bool, q: string)
    ensures ParseDocument(enc, condense, q).bom <==> enc.Unknown? && MARK <= q
  {
    hide ParseNodes, SkipWhiteSpace;
    if |q| >= 3 {
      assert q[..3] == [q[0], q[1], q[2]];
    }
  }

  lemma EmptyRuns(condense: bool)
    ensures ParseNodes(Encoding.Utf8, condense, Some(""), []) == Content([], Some(""), NoError)
    ensures SkipWhite(Encoding.Utf8, "") == ""
  {}

  // ---- Declarations ----

  /** A word of a declaration: a field, with its name in any case, or something else that is passed over. */
  datatype Word =
    | Field(field: string, name: string, value: string, lay: AttrLayout)
    | Junk(before: string, text: string)

  predicate WordOk(enc: Encoding, w: Word) {
    match w
    case Field(field, name, value, lay) =>
      && field in {"version", "encoding", "standalone"} && |name| == |field| && BeginsAnyCase(name, field)
      && FieldOk(enc, value) && NulFree(value)
      && lay.before != "" && AllGap(lay.before) && AllGap(lay.left) && AllGap(lay.right)
    case Junk(before, text) =>
      && before != "" && AllGap(before) && text != "" && text[0] as int < 0x80
      && (forall i :: 0 <= i < |text| ==> !IsGap(text[i]) && text[i] != '>')
      && text[0] !in "vVeEsS"
  }

  function WriteWord(w: Word): string {
    match w
    case Field(_, name, value, lay) =>
      lay.before + (name + (lay.left + ("=" + (lay.right + ("\"" + (value + "\""))))))
    case Junk(before, text) => before + text
  }

  function WriteWords(ws: seq<Word>): string {
    if ws == [] then "" else WriteWord(ws[0]) + WriteWords(ws[1..])
  }

  /** A field sets its part of the declaration, and the last one counts. */
  function SetWord(d: Node, w: Word): (r: Node)
    requires d.Declaration?
    ensures r.Declaration?
  {
    match w
    case Field(field, _, value, _) =>
      if field == "version" then d.(version := value)
      else if field == "encoding" then d.(encoding := value)
      else d.(standalone := value)
    case Junk(_, _) => d
  }

  function SetWords(d: Node, ws: seq<Word>): (r: Node)
    requires d.Declaration?
    ensures r.Declaration?
    decreases |ws|
  {
    if ws == [] then d else SetWords(SetWord(d, ws[0]), ws[1..])
  }

  lemma AnyCaseIsName(enc: Encoding, name: string, field: string)
    requires field in {"version", "encoding", "standalone"} && |name| == |field| && BeginsAnyCase(name, field)
    ensures NameOk(enc, name)
  {
    LettersInOrder();
    forall i | 0 <= i < |name|
      ensures IsNameStart(name[i]) && name[i] as int < 0x80
    {
      assert SameLetter(name[i], field[i]);
    }
  }

  lemma AnyCaseAhead(enc: Encoding, name: string, field: string, rest: string)
    requires field in {"version", "encoding", "standalone"} && |name| == |field| && BeginsAnyCase(name, field)
    ensures StringEqual(name + rest, field, true)
  {
    AnyCase(name + rest, field);
    hide SameLetter, StringEqual;
  }

  lemma NameStays(enc: Encoding, name: string, rest: string)
    requires NameOk(enc, name) && rest != "" && !IsNameChar(rest[0]) && rest[0] as int < 0x80
    ensures SkipWhite(enc, name + rest) == name + rest && name + rest != ""
  {
    NameIsRead(enc, name, rest);
    hide SkipWhite;
  }

  lemma FieldIsPassed(enc: Encoding, condense: bool, d: Node, w: Word, rest: string)
    requires d.Declaration? && w.Field? && WordOk(enc, w) && rest != ""
    ensures ParseDeclarationLoop(enc, condense, Some(WriteWord(w) + rest), d) ==
            ParseDeclarationLoop(enc, condense, Some(rest), SetWord(d, w))
  {
    var field, name, v, lay := w.field, w.name, w.value, w.lay;
    var after := lay.left + ("=" + (lay.right + ("\"" + (v + "\"" + rest))));
    var q := name + after;
    assert WriteWord(w) + rest == lay.before + q by {
      GlueField(lay.before, name, lay.left, lay.right, v, rest);
    }
    FieldWordParts(enc, w);
    assert SetWord(d, w) == if field == "version" then d.(version := v)
                            else if field == "encoding" then d.(encoding := v)
                            else d.(standalone := v);
    hide *;
    CStringIs(v);
    AnyCaseIsName(enc, name, field);
    AnyCaseAhead(enc, name, field, after);
    OneField(q, field);
    EqualsBehind(lay.left, lay.right + ("\"" + (v + "\"" + rest)));
    NameStays(enc, name, after);
    QuoteStarts(v + "\"" + rest);
    AttrStep(enc, condense, name, after);
    AfterNameGaps(enc, condense, name, lay.left, lay.right, "\"" + (v + "\"" + rest));
    AttrValueStep(enc, condense, name, '\"', v + "\"" + rest);
    ReadFieldValue(enc, condense, v, rest);
    LoopGap(enc, condense, lay.before, q, d);
    LoopStep(enc, condense, q, d, field, AttrResult(Attr(name, v), Some(rest), NoError), rest);
  }

  lemma FieldWordParts(enc: Encoding, w: Word)
    requires w.Field? && WordOk(enc, w)
    ensures w.field in {"version", "encoding", "standalone"} && |w.name| == |w.field| && BeginsAnyCase(w.name, w.field)
    ensures FieldOk(enc, w.value) && NulFree(w.value)
    ensures AllGap(w.lay.before) && AllGap(w.lay.left) && AllGap(w.lay.right)
  {
    hide BeginsAnyCase, FieldOk, NulFree, AllGap;
  }

  lemma {:induction false} JunkRun(text: string, rest: string)
    requires forall i :: 0 <= i < |text| ==> !IsGap(text[i]) && text[i] != '>'
    requires rest != "" && IsGap(rest[0])
    ensures JunkLength(text + rest) == |text|
  {
    if text == "" {
      assert text + rest == rest;
      GapIsWhite(rest[0]);
    } else {
      GapIsWhite(text[0]);
      assert (text + rest)[1..] == text[1..] + rest;
      JunkRun(text[1..], rest);
    }
  }

  lemma NoField(q: string)
    requires q != "" && q[0] !in "vVeEsS"
    ensures !StringEqual(q, "version", true) && !StringEqual(q, "encoding", true) && !StringEqual(q, "standalone", true)
  {
    assert q[0] != 'v' && q[0] != 'V' && q[0] != 'e' && q[0] != 'E' && q[0] != 's' && q[0] != 'S' by {
      assert "vVeEsS"[0] == 'v' && "vVeEsS"[1] == 'V' && "vVeEsS"[2] == 'e' && "vVeEsS"[3] == 'E';
      assert "vVeEsS"[4] == 's' && "vVeEsS"[5] == 'S';
    }
    Differ(q, "version", true, 0);
    Differ(q, "encoding", true, 0);
    Differ(q, "standalone", true, 0);
    hide StringEqual;
  }

  lemma JunkIsPassed(enc: Encoding, condense: bool, d: Node, w: Word, rest: string)
    requires d.Declaration? && w.Junk? && WordOk(enc, w) && rest != "" && IsGap(rest[0])
    ensures ParseDeclarationLoop(enc, condense, Some(WriteWord(w) + rest), d) ==
            ParseDeclarationLoop(enc, condense, Some(rest), SetWord(d, w))
  {
    var q := w.text + rest;
    Glue(w.before, w.text, rest);
    assert q[0] == w.text[0] && (w.before + q)[0] == w.before[0] && IsGap(w.before[0]);
    JunkRun(w.text, rest);
    assert q[|w.text|..] == rest;
    GapsSkipped(enc, w.before, q);
    NoField(q);
    LoopPass(enc, condense, w.before + q, d);
    hide SkipWhite, StringEqual, JunkLength, ParseAttribute, IsGap, AllGap, ParseDeclarationLoop;
  }

  lemma WordsStart(enc: Encoding, ws: seq<Word>, close: string, tail: string)
    requires (forall i :: 0 <= i < |ws| ==> WordOk(enc, ws[i])) && close != "" && AllGap(close)
    ensures var p := WriteWords(ws) + (close + ("?>" + tail)); p != "" && IsGap(p[0])
  {
    hide IsGap, BeginsAnyCase, FieldOk, NulFree;
    if ws != [] {
      assert WordOk(enc, ws[0]);
      assert WriteWord(ws[0]) != "" && IsGap(WriteWord(ws[0])[0]);
    }
  }

  /** The words of a declaration are read in order. */
  lemma {:induction false} WordsAreRead(enc: Encoding, condense: bool, ws: seq<Word>, d: Node, close: string,
                                        tail: string)
    requires d.Declaration? && (forall i :: 0 <= i < |ws| ==> WordOk(enc, ws[i])) && close != "" && AllGap(close)
    ensures ParseDeclarationLoop(enc, condense, Some(WriteWords(ws) + (close + ("?>" + tail))), d) ==
            Parsed(SetWords(d, ws), Some(tail), NoError)
    decreases |ws|
  {
    hide ParseDeclarationLoop, WordOk, WriteWord, SetWord, IsGap, AllGap;
    var end := close + ("?>" + tail);
    if ws == [] {
      assert WriteWords(ws) + end == end;
      DeclarationEnd(enc, condense, d, close, tail);
    } else {
      var w, rest := ws[0], WriteWords(ws[1..]) + end;
      Glue(WriteWord(w), WriteWords(ws[1..]), end);
      WordsStart(enc, ws[1..], close, tail);
      WordsAreRead(enc, condense, ws[1..], SetWord(d, w), close, tail);
      if w.Field? {
        FieldIsPassed(enc, condense, d, w, rest);
      } else {
        JunkIsPassed(enc, condense, d, w, rest);
      }
    }
  }

  /** A declaration is its words: the fields in any order, their names and "xml" in any case, anything else between them
      passed over, and of two fields of a name the last one counts. */
  lemma DeclarationInAnyOrder(enc: Encoding, condense: bool, mark: string, ws: seq<Word>, close: string, tail: string)
    requires |mark| == 5 && BeginsAnyCase(mark, "<?xml")
    requires (forall i :: 0 <= i < |ws| ==> WordOk(enc, ws[i])) && close != "" && AllGap(close)
    ensures ParseDeclaration(enc, condense, mark + (WriteWords(ws) + (close + ("?>" + tail)))) ==
            Parsed(SetWords(Declaration("", "", ""), ws), Some(tail), NoError)
  {
    var rest := WriteWords(ws) + (close + ("?>" + tail));
    var p := mark + rest;
    hide *;
    WordsAreRead(enc, condense, ws, Declaration("", "", ""), close, tail);
    MarkAnyCase(mark, rest);
    TagStays(enc, p);
    DeclarationFrom(enc, condense, p, rest);
  }

  lemma MarkAnyCase(mark: string, rest: string)
    requires |mark| == 5 && BeginsAnyCase(mark, "<?xml")
    ensures var p := mark + rest; StringEqual(p, "<?xml", true) && p != "" && p[0] == '<' && |p| >= 5 && p[5..] == rest
  {
    AnyCase(mark + rest, "<?xml");
    assert SameLetter(mark[0], '<');
    LettersInOrder();
    hide StringEqual;
  }

  lemma DeclarationFrom(enc: Encoding, condense: bool, p: string, rest: string)
    requires SkipWhiteSpace(enc, Some(p)) == Some(p) && StringEqual(p, "<?xml", true) && |p| >= 5 && p[5..] == rest
    ensures ParseDeclaration(enc, condense, p) ==
            ParseDeclarationLoop(enc, condense, Some(rest), Declaration("", "", ""))
  {
    hide SkipWhiteSpace, StringEqual, ParseDeclarationLoop;
  }
}
