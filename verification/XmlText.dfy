// Characters, names, entities and text runs of TinyXML (tinyxmlparser.cpp,
// tinyxml.cpp, tinyxml.h). A character stands for one byte of a
// NUL-terminated buffer, and a pointer into the buffer is the text from there
// to the terminator; a null pointer is None.
module XmlText {
  import opened Options

  datatype Encoding = Unknown | Utf8 | Legacy

  type Ptr = Option<string>

  /** The pointer `t` lies at or behind the pointer `s` in the same buffer. */
  ghost predicate Suffix(t: string, s: string) {
    |t| <= |s| && s[|s| - |t|..] == t
  }

  /** A parse result never leaves the buffer; where it is not null it is strictly behind `p`. */
  ghost predicate Behind(r: Ptr, p: string) {
    r.Some? ==> |r.value| < |p| && Suffix(r.value, p)
  }

  lemma SuffixTrans(a: string, b: string, c: string)
    requires Suffix(a, b) && Suffix(b, c)
    ensures Suffix(a, c)
  {
    assert c[|c| - |a|..] == c[|c| - |b|..][|b| - |a|..];
  }

  // ---- Single characters ----

  /** isspace of the "C" locale. */
  predicate IsWhiteSpace(c: char) {
    c == ' ' || 9 <= c as int <= 13
  }

  predicate IsLetter(c: char) {
    'a' <= c <= 'z' || 'A' <= c <= 'Z'
  }

  predicate IsAlpha(c: char) {
    if c as int < 127 then IsLetter(c) else true
  }

  predicate IsAlphaNum(c: char) {
    if c as int < 127 then IsLetter(c) || '0' <= c <= '9' else true
  }

  predicate IsNameStart(c: char) {
    IsAlpha(c) || c == '_'
  }

  predicate IsNameChar(c: char) {
    IsAlphaNum(c) || c == '_' || c == '-' || c == '.' || c == ':'
  }

  function ToLower(c: char): char {
    if 'A' <= c <= 'Z' then (c as int + 32) as char else c
  }

  /** StringEqual: the text at `p` starts with `tag`. */
  predicate StringEqual(p: string, tag: string, ignoreCase: bool) {
    && p != ""
    && |tag| <= |p|
    && forall i :: 0 <= i < |tag| ==> if ignoreCase then ToLower(p[i]) == ToLower(tag[i]) else p[i] == tag[i]
  }

  /** One of the byte order marks that SkipWhiteSpace passes over in UTF-8. */
  predicate StartsWithMark(p: string) {
    && |p| >= 3
    && p[0] as int == 0xef
    && ((p[1] as int == 0xbb && p[2] as int == 0xbf) ||
        (p[1] as int == 0xbf && (p[2] as int == 0xbe || p[2] as int == 0xbf)))
  }

  function SkipWhite(enc: Encoding, p: string): (r: string)
    ensures Suffix(r, p)
  {
    if p == "" then p
    else if enc.Utf8? && StartsWithMark(p) then
      var r := SkipWhite(enc, p[3..]);
      SuffixTrans(r, p[3..], p);
      r
    else if IsWhiteSpace(p[0]) then
      var r := SkipWhite(enc, p[1..]);
      SuffixTrans(r, p[1..], p);
      r
    else p
  }

  /** SkipWhiteSpace: null for null and for the terminator, else a pointer, perhaps to the terminator. */
  function SkipWhiteSpace(enc: Encoding, p: Ptr): (r: Ptr)
    ensures r.Some? <==> p.Some? && p.value != ""
    ensures r.Some? ==> Suffix(r.value, p.value)
  {
    if p.None? || p.value == "" then None else Some(SkipWhite(enc, p.value))
  }

  // ---- Names ----

  function NameRun(p: string): (n: nat)
    ensures n <= |p|
    ensures forall i :: 0 <= i < n ==> IsNameChar(p[i])
    ensures n < |p| ==> !IsNameChar(p[n])
  {
    if p == "" || !IsNameChar(p[0]) then 0 else 1 + NameRun(p[1..])
  }

  /** ReadName: the length of the name at `p`, or None. */
  function NameLength(p: Ptr): (n: Option<nat>)
    ensures n.Some? ==> p.Some? && 0 < n.value <= |p.value|
  {
    if p.Some? && p.value != "" && IsNameStart(p.value[0]) then Some(NameRun(p.value)) else None
  }

  // ---- UTF-8 ----

  /** utf8ByteTable: how many bytes a character takes, told by its first byte. */
  function Utf8Length(c: char): (n: nat)
    ensures 1 <= n <= 4
  {
    var b := c as int;
    if 0xc2 <= b <= 0xdf then 2
    else if 0xe0 <= b <= 0xef then 3
    else if 0xf0 <= b <= 0xf4 then 4
    else 1
  }

  /** (input | 0x80) & 0xBF: the low six bits under a continuation mark. */
  function ContinuationByte(input: nat): char {
    (0x80 + input % 0x40) as char
  }

  /** ConvertUTF32ToUTF8. */
  function ToUtf8(input: nat): (s: string)
    ensures |s| <= 4
  {
    if input < 0x80 then [input as char]
    else if input < 0x800 then [(0xC0 + input / 0x40) as char, ContinuationByte(input)]
    else if input < 0x10000 then
      [(0xE0 + input / 0x1000) as char, ContinuationByte(input / 0x40), ContinuationByte(input)]
    else if input < 0x200000 then
      [(0xF0 + input / 0x40000) as char, ContinuationByte(input / 0x1000), ContinuationByte(input / 0x40),
       ContinuationByte(input)]
    else ""
  }

  // ---- Entities ----

  function HexValue(c: char): (v: Option<nat>)
    ensures v.Some? ==> v.value < 16
  {
    if '0' <= c <= '9' then Some(c as int - '0' as int)
    else if 'a' <= c <= 'f' then Some(c as int - 'a' as int + 10)
    else if 'A' <= c <= 'F' then Some(c as int - 'A' as int + 10)
    else None
  }

  function DecValue(c: char): (v: Option<nat>) {
    if '0' <= c <= '9' then Some(c as int - '0' as int) else None
  }

  const WORD := 0x1_0000_0000

  /** The backward walk over the digits of a reference: from the last character
      of `s` to the nearest `stop`, in 32-bit arithmetic. */
  function WalkBack(s: string, stop: char, base: nat, ucs: nat, mult: nat): Option<nat>
    requires s != "" && s[0] == stop
    decreases |s|
  {
    var c := s[|s| - 1];
    if c == stop then Some(ucs)
    else
      var v := if base == 16 then HexValue(c) else DecValue(c);
      if v.None? then None
      else WalkBack(s[..|s| - 1], stop, base, (ucs + mult * v.value % WORD) % WORD, mult * base % WORD)
  }

  /** strchr: the offset of the first `c`. */
  function Find(s: string, c: char): (r: Option<nat>)
    ensures r.Some? ==> r.value < |s| && s[r.value] == c && c !in s[..r.value]
    ensures r.None? ==> c !in s
  {
    if s == "" then None
    else if s[0] == c then Some(0)
    else
      match Find(s[1..], c)
      case Some(k) =>
        assert s[..k + 1] == [s[0]] + s[1..][..k];
        Some(k + 1)
      case None => None
  }

  /** What one step of reading text yields: the pointer after it and the bytes read. */
  datatype CharResult = CharResult(rest: Ptr, out: string)

  /** The bytes that a character reference stands for. */
  function ReferenceBytes(enc: Encoding, ucs: nat): (s: string)
    ensures |s| <= 4
  {
    if enc.Utf8? then ToUtf8(ucs) else [(ucs % 256) as char]
  }

  /** GetEntity on a text that starts with '&'. */
  function GetEntity(enc: Encoding, p: string): (r: CharResult)
    requires p != "" && p[0] == '&'
    ensures Behind(r.rest, p)
    ensures r.rest.None? ==> r.out == ""
  {
    if |p| > 2 && p[1] == '#' then
      var hex := p[2] == 'x';
      var from := if hex then 3 else 2;
      var semi := Find(p[from..], ';');
      if semi.None? then CharResult(None, "")
      else
        var digits := p[from - 1..from + semi.value];
        var ucs := if hex then WalkBack(digits, 'x', 16, 0, 1) else WalkBack(digits, '#', 10, 0, 1);
        if ucs.None? then CharResult(None, "")
        else CharResult(Some(p[from + semi.value + 1..]), ReferenceBytes(enc, ucs.value))
    else if StringEqual(p, "&amp;", false) then CharResult(Some(p[5..]), "&")
    else if StringEqual(p, "&lt;", false) then CharResult(Some(p[4..]), "<")
    else if StringEqual(p, "&gt;", false) then CharResult(Some(p[4..]), ">")
    else if StringEqual(p, "&quot;", false) then CharResult(Some(p[6..]), "\"")
    else if StringEqual(p, "&apos;", false) then CharResult(Some(p[6..]), "\'")
    else CharResult(Some(p[1..]), "")
  }

  /** How many bytes GetChar takes as they stand; a sequence cut by the terminator ends there. */
  function UnitLength(enc: Encoding, p: string): (n: nat)
    requires p != ""
    ensures 1 <= n <= |p| && n <= 4
  {
    var n := if enc.Utf8? then Utf8Length(p[0]) else 1;
    if n <= |p| then n else |p|
  }

  /** GetChar. */
  function GetChar(enc: Encoding, p: string): (r: CharResult)
    requires p != ""
    ensures Behind(r.rest, p)
    ensures r.rest.None? ==> r.out == ""
  {
    var n := UnitLength(enc, p);
    if p[0] == '&' then GetEntity(enc, p)
    else CharResult(Some(p[n..]), p[..n])
  }

  // ---- Text runs ----

  datatype TextResult = TextResult(rest: Ptr, text: string)

  /** The loop of ReadText that keeps all white space. */
  function ReadKeep(enc: Encoding, p: Ptr, end: string, acc: string): (r: TextResult)
    ensures r.rest.Some? ==> p.Some? && Suffix(r.rest.value, p.value)
    decreases if p.Some? then |p.value| else 0
  {
    if p.None? || p.value == "" || StringEqual(p.value, end, false) then TextResult(p, acc)
    else
      var c := GetChar(enc, p.value);
      if c.rest.None? then TextResult(None, acc)
      else
        var r := ReadKeep(enc, c.rest, end, acc + c.out);
        if r.rest.Some? then SuffixTrans(r.rest.value, c.rest.value, p.value); r else r
  }

  /** The loop of ReadText that turns runs of white space into one blank. */
  function ReadCondensed(enc: Encoding, p: Ptr, end: string, acc: string, white: bool): (r: TextResult)
    ensures r.rest.Some? ==> p.Some? && Suffix(r.rest.value, p.value)
    decreases if p.Some? then |p.value| else 0
  {
    if p.None? || p.value == "" || StringEqual(p.value, end, false) then TextResult(p, acc)
    else if IsWhiteSpace(p.value[0]) then
      var r := ReadCondensed(enc, Some(p.value[1..]), end, acc, true);
      if r.rest.Some? then SuffixTrans(r.rest.value, p.value[1..], p.value); r else r
    else
      var c := GetChar(enc, p.value);
      var acc' := if white then acc + " " else acc;
      if c.rest.None? then TextResult(None, acc')
      else
        var r := ReadCondensed(enc, c.rest, end, acc' + c.out, false);
        if r.rest.Some? then SuffixTrans(r.rest.value, c.rest.value, p.value); r else r
  }

  /** The pointer past the end tag, or null where nothing follows it. */
  function PastEnd(p: Ptr, end: string): (r: Ptr) {
    if p.None? || |p.value| <= |end| then None else Some(p.value[|end|..])
  }

  /** ReadText, with the exact case of the end tag as in every call. */
  function ReadText(enc: Encoding, condense: bool, p: Ptr, trim: bool, end: string): (r: TextResult)
    requires end != ""
    ensures r.rest.Some? ==> r.rest.value != "" && p.Some? && Behind(r.rest, p.value)
  {
    var t :=
      if !trim || !condense then ReadKeep(enc, p, end, "")
      else ReadCondensed(enc, SkipWhiteSpace(enc, p), end, "", false);
    var rest := PastEnd(t.rest, end);
    if rest.Some? then SuffixTrans(rest.value, t.rest.value, p.value); TextResult(rest, t.text)
    else TextResult(rest, t.text)
  }
}
