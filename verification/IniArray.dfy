// Lists of strings in one line of an INI file (Ini.cpp): joined with a
// delimiter for writing, split at it, trimmed, and handed on as a sequence of
// NUL-terminated strings that ends with an empty one.
module IniArray {
  import opened Options
  import opened Sequences
  import opened Substrings
  import opened StringsReplace

  predicate IsBlank(c: char) {
    c == ' ' || c == '\t' || c == '\r' || c == '\n'
  }

  // ---- Trimming ----

  function TrimRight(s: string): (r: string)
    ensures |r| <= |s| && r == s[..|r|]
    ensures r != "" ==> !IsBlank(r[|r| - 1])
    ensures forall i :: |r| <= i < |s| ==> IsBlank(s[i])
  {
    if s != "" && IsBlank(s[|s| - 1]) then TrimRight(s[..|s| - 1]) else s
  }

  function TrimLeft(s: string): (r: string)
    ensures |r| <= |s| && r == s[|s| - |r|..]
    ensures r != "" ==> !IsBlank(r[0])
    ensures forall i :: 0 <= i < |s| - |r| ==> IsBlank(s[i])
  {
    if s != "" && IsBlank(s[0]) then TrimLeft(s[1..]) else s
  }

  function Trim(s: string): string {
    TrimLeft(TrimRight(s))
  }

  /** There is something to keep: without it the loop would look in front of the text. */
  predicate HasText(s: string) {
    exists i :: 0 <= i < |s| && !IsBlank(s[i])
  }

  predicate Trimmed(s: string) {
    s != "" && !IsBlank(s[0]) && !IsBlank(s[|s| - 1])
  }

  /** Trimming cuts a stretch out of the text; what it takes away is blank. */
  lemma TrimCuts(s: string) returns (i: nat, j: nat)
    ensures i <= j <= |s| && Trim(s) == s[i..j]
    ensures forall k :: 0 <= k < i || j <= k < |s| ==> IsBlank(s[k])
  {
    hide TrimLeft, TrimRight, IsBlank;
    var r := TrimRight(s);
    var l := TrimLeft(r);
    i, j := |r| - |l|, |r|;
    assert forall k :: 0 <= k < i ==> s[k] == r[k];
  }

  lemma TrimEnds(s: string)
    ensures Trim(s) != "" ==> !IsBlank(Trim(s)[0]) && !IsBlank(Trim(s)[|Trim(s)| - 1])
  {
    hide TrimLeft, TrimRight, IsBlank;
    var r := TrimRight(s);
    var l := TrimLeft(r);
    assert l != "" ==> l[|l| - 1] == r[|r| - 1];
  }

  /** Trimming leaves a text alone exactly when it is trimmed already; of a text that is not blank
      it leaves something. */
  lemma TrimIsExact(s: string)
    requires s != ""
    ensures Trim(s) == s <==> Trimmed(s)
    ensures HasText(s) ==> Trimmed(Trim(s))
  {
    hide Trim, IsBlank;
    var i, j := TrimCuts(s);
    TrimEnds(s);
    if Trimmed(s) {
      assert i == 0 && j == |s|;
    }
    if HasText(s) {
      var k :| 0 <= k < |s| && !IsBlank(s[k]);
      assert i <= k < j;
    }
  }

  /** A text in a buffer, with the NUL behind it. */
  ghost predicate Holds(buf: array<char>, text: string)
    reads buf
  {
    |text| < buf.Length && buf[..|text|] == text && buf[|text|] == '\0' && '\0' !in text
  }

  /** The loop at the right end also looks at the byte in front of the buffer: it must not be blank,
      unless the text has something to stop at. */
  predicate Stops(text: string, front: char) {
    HasText(text) || !IsBlank(front)
  }

  /** Where the loop stops. */
  lemma StopsAt(s: string, front: char) returns (k: nat)
    requires Stops(s, front)
    ensures k <= |s| && !IsBlank(if k == 0 then front else s[k - 1])
  {
    hide IsBlank;
    k := 0;
    if HasText(s) {
      var i :| 0 <= i < |s| && !IsBlank(s[i]);
      k := i + 1;
    }
  }

  /** The loop of __TrimString at the right end; `front` is the byte in front of the buffer. */
  method TrimEnd(buf: array<char>, front: char, ghost text: string) returns (n: nat)
    requires Holds(buf, text) && Stops(text, front)
    modifies buf
    ensures Holds(buf, TrimRight(text)) && n == |TrimRight(text)|
  {
    hide TrimRight, IsBlank, Stops;
    n := Tcslen(buf, text);
    ghost var k := StopsAt(text, front);
    assert text[..n] == text;
    while n >= 0 && IsBlank(if n == 0 then front else buf[n - 1])
      invariant k <= n <= |text| && buf[..n] == text[..n] && buf[n] == '\0'
      invariant TrimRight(text[..n]) == TrimRight(text)
      decreases n
    {
      assert n > 0 && buf[n - 1] == text[n - 1];
      RightStep(text[..n]);
      assert text[..n][..n - 1] == text[..n - 1];
      n := n - 1;
      buf[n] := '\0';
    }
    RightStep(text[..n]);
  }

  /** The loop of __TrimString at the left end, and the copy to the front. */
  method TrimStart(buf: array<char>, ghost text: string) returns (p: nat)
    requires Holds(buf, text)
    modifies buf
    ensures Holds(buf, TrimLeft(text)) && p == |text| - |TrimLeft(text)|
  {
    hide TrimLeft;
    p := 0;
    assert text[0..] == text;
    while IsBlank(buf[p])
      invariant Holds(buf, text) && p <= |text| && TrimLeft(text[p..]) == TrimLeft(text)
      decreases |text| - p
    {
      assert p < |text| && buf[p] == text[p];
      LeftStep(text[p..]);
      assert text[p..][1..] == text[p + 1..];
      p := p + 1;
    }
    assert p < |text| ==> buf[p] == text[p];
    LeftStep(text[p..]);
    if p != 0 {
      MoveToFront(buf, p, text);
    }
  }

  /** The rest of a text is copied to the front of its buffer. */
  method MoveToFront(buf: array<char>, p: nat, ghost text: string)
    requires Holds(buf, text) && p <= |text|
    modifies buf
    ensures Holds(buf, text[p..])
  {
    ghost var r := text[p..];
    var n := Tcslen(buf, text);
    var psz := buf[p..n];
    assert psz == r && forall c :: c in r ==> c in text;
    MemCpy(buf, 0, psz);
    assert buf[..|r|] == r by { assert buf[0..|r|] == buf[..|r|]; }
    buf[|psz|] := '\0';
  }

  /** __TrimString, in place. */
  method TrimString(buf: array<char>, front: char, ghost text: string) returns (trimmed: bool)
    requires Holds(buf, text) && Stops(text, front)
    modifies buf
    ensures Holds(buf, Trim(text))
    ensures trimmed <==> Trim(text) != text
  {
    hide TrimLeft, TrimRight, Stops;
    var len := Tcslen(buf, text);
    var n := TrimEnd(buf, front, text);
    var p := TrimStart(buf, TrimRight(text));
    trimmed := n < len || p > 0;
  }

  lemma RightStep(s: string)
    ensures s != "" && IsBlank(s[|s| - 1]) ==> TrimRight(s) == TrimRight(s[..|s| - 1])
    ensures s == "" || !IsBlank(s[|s| - 1]) ==> TrimRight(s) == s
  {}

  lemma LeftStep(s: string)
    ensures s != "" && IsBlank(s[0]) ==> TrimLeft(s) == TrimLeft(s[1..])
    ensures s == "" || !IsBlank(s[0]) ==> TrimLeft(s) == s
  {}

  /** _tcslen of a text in a buffer. */
  method Tcslen(buf: array<char>, ghost text: string) returns (n: nat)
    requires Holds(buf, text)
    ensures n == |text|
  {
    assert forall i :: 0 <= i < |text| ==> buf[i] == text[i] && text[i] in text;
    n := 0;
    while buf[n] != '\0'
      invariant n <= |text|
      decreases |text| - n
    {
      n := n + 1;
    }
  }

  // ---- Splitting ----

  /** What __StringSplit keeps of the parts of a line: trimmed, and none that are empty. */
  function Kept(parts: seq<string>, trim: bool): seq<string> {
    if parts == [] then []
    else
      var seg := if trim then Trim(parts[0]) else parts[0];
      (if seg == "" then [] else [seg]) + Kept(parts[1..], trim)
  }

  /** Strings one behind the other, each with its NUL. */
  function Dnt(items: seq<string>): string {
    if items == [] then "" else items[0] + ['\0'] + Dnt(items[1..])
  }

  lemma {:induction false} DntConcat(a: seq<string>, b: seq<string>)
    ensures Dnt(a + b) == Dnt(a) + Dnt(b)
  {
    if a == [] {
      assert a + b == b;
    } else {
      assert (a + b)[1..] == a[1..] + b;
      DntConcat(a[1..], b);
      assert a[0] + ['\0'] + (Dnt(a[1..]) + Dnt(b)) == a[0] + ['\0'] + Dnt(a[1..]) + Dnt(b);
    }
  }

  lemma {:induction false} KeptConcat(a: seq<string>, b: seq<string>, trim: bool)
    ensures Kept(a + b, trim) == Kept(a, trim) + Kept(b, trim)
  {
    hide Trim;
    if a == [] {
      assert a + b == b;
    } else {
      assert (a + b)[1..] == a[1..] + b;
      KeptConcat(a[1..], b, trim);
    }
  }

  /** The length of the line bounds the length of what is kept: a NUL takes the room of a delimiter. */
  lemma {:induction false} DntFits(parts: seq<string>, trim: bool, delimiter: string)
    requires |parts| > 0 && delimiter != ""
    ensures |Dnt(Kept(parts, trim))| <= |Join(parts, delimiter)| + 1
  {
    hide Trim;
    TrimShrinks(parts[0]);
    var seg := if trim then Trim(parts[0]) else parts[0];
    var head := if seg == "" then [] else [seg];
    assert |Dnt(head)| <= |parts[0]| + 1 by {
      assert [seg][1..] == [];
    }
    DntConcat(head, Kept(parts[1..], trim));
    if |parts| == 1 {
      assert Kept(parts[1..], trim) == [];
    } else {
      DntFits(parts[1..], trim, delimiter);
    }
  }

  lemma TrimShrinks(s: string)
    ensures |Trim(s)| <= |s|
  {}

  /** __StrDupEx, and the trimming of the copy. */
  method CutSegment(segment: string, trim: bool, front: char) returns (psz: array<char>, ghost kept: string)
    requires '\0' !in segment && (trim ==> Stops(segment, front))
    ensures fresh(psz) && Holds(psz, kept) && kept == if trim then Trim(segment) else segment
  {
    hide Trim, Stops;
    psz := new char[|segment| + 1];
    MemCpy(psz, 0, segment);
    psz[|segment|] := '\0';
    assert psz[0..|segment|] == psz[..|segment|];
    kept := segment;
    if trim {
      var t := TrimString(psz, front, segment);
      kept := Trim(segment);
    }
  }

  /** One part of the line is copied behind the others, if it is not empty. */
  method PutSegment(segment: string, trim: bool, front: char, buffer: array<char>, copied: nat) returns (copied': nat)
    requires '\0' !in segment && (trim ==> Stops(segment, front))
    requires copied + |Dnt(Kept([segment], trim))| < buffer.Length
    modifies buffer
    ensures copied' == copied + |Dnt(Kept([segment], trim))| < buffer.Length
    ensures buffer[..copied'] == old(buffer[..copied]) + Dnt(Kept([segment], trim))
  {
    hide Trim, Stops, Kept, Dnt;
    var psz, kept := CutSegment(segment, trim, front);
    TrimShrinks(segment);
    KeptOne(segment, trim);
    var len := Tcslen(psz, kept);
    copied' := copied;
    ghost var was := buffer[..copied];
    if len > 0 {
      MemCpy(buffer, copied, psz[..len]);
      Grow(buffer, copied, copied + len, was, kept);
      buffer[copied + len] := '\0';
      copied' := copied + len + 1;
      Grow(buffer, copied + len, copied', was + kept, ['\0']);
      assert was + kept + ['\0'] == was + (kept + ['\0']);
    } else {
      assert was + "" == was;
    }
  }

  lemma KeptOne(segment: string, trim: bool)
    ensures var seg := if trim then Trim(segment) else segment;
            Dnt(Kept([segment], trim)) == if seg == "" then "" else seg + ['\0']
  {
    hide Trim;
    assert [segment][1..] == [];
    var seg := if trim then Trim(segment) else segment;
    assert [seg][1..] == [];
    assert seg + ['\0'] + "" == seg + ['\0'];
  }

  /** The delimiter in force: a comma unless one is given. */
  function Delimiter(delimiter: Option<string>): string {
    if delimiter.None? then "," else delimiter.value
  }

  /** What __StringSplit leaves in the buffer, in front of the last NUL. */
  function SplitText(line: string, delimiter: Option<string>, trim: bool): string {
    if line == "" then ""
    else if Delimiter(delimiter) == "" then line
    else Dnt(Kept(Parts(line, Delimiter(delimiter)), trim))
  }

  /** Trimming is safe: every part has something in it, or no blank byte lies in front of the buffers. */
  ghost predicate Trimmable(line: string, delimiter: Option<string>, front: char) {
    line != "" && Delimiter(delimiter) != "" ==>
      forall p :: p in Parts(line, Delimiter(delimiter)) ==> Stops(p, front)
  }

  lemma NextPart(line: string, del: string, trim: bool, done: string)
    requires del != "" && StrStr(line, del).Some?
    ensures var k := StrStr(line, del).value;
            && Parts(line, del)[0] == line[..k]
            && (forall p :: p in Parts(line[k + |del|..], del) ==> p in Parts(line, del))
            && done + Dnt(Kept(Parts(line, del), trim)) ==
               done + Dnt(Kept([line[..k]], trim)) + Dnt(Kept(Parts(line[k + |del|..], del), trim))
  {
    hide StrStr, Dnt, Kept;
    var k := StrStr(line, del).value;
    var rest := Parts(line[k + |del|..], del);
    assert Parts(line, del) == [line[..k]] + rest;
    KeptConcat([line[..k]], rest, trim);
    DntConcat(Kept([line[..k]], trim), Kept(rest, trim));
    var a, b := Dnt(Kept([line[..k]], trim)), Dnt(Kept(rest, trim));
    assert done + (a + b) == done + a + b;
  }

  /** The loop of __StringSplit. */
  method SplitLoop(line: string, buffer: array<char>, del: string, trim: bool, front: char) returns (copied: nat)
    requires del != "" && '\0' !in line && (trim ==> forall p :: p in Parts(line, del) ==> Stops(p, front))
    requires |Dnt(Kept(Parts(line, del), trim))| < buffer.Length
    modifies buffer
    ensures copied == |Dnt(Kept(Parts(line, del), trim))|
    ensures buffer[..copied] == Dnt(Kept(Parts(line, del), trim))
  {
    hide StrStr, Parts, Kept, Dnt, Stops;
    copied := 0;
    var pos := line;
    ghost var all := Dnt(Kept(Parts(line, del), trim));
    assert "" + all == all;
    while true
      invariant copied < buffer.Length && '\0' !in pos
      invariant trim ==> forall p :: p in Parts(pos, del) ==> Stops(p, front)
      invariant buffer[..copied] + Dnt(Kept(Parts(pos, del), trim)) == all
      decreases |pos|
    {
      ghost var done := buffer[..copied];
      var end := StrStr(pos, del);
      if end.None? {
        PartsEnd(pos, del, del);
        copied := PutSegment(pos, trim, front, buffer, copied);
        return;
      }
      NextPart(pos, del, trim, done);
      assert Parts(pos, del)[0] in Parts(pos, del);
      copied := PutSegment(pos[..end.value], trim, front, buffer, copied);
      pos := pos[end.value + |del|..];
    }
  }

  /** __StringSplit, into a buffer that is large enough. */
  method StringSplit(line: string, buffer: array<char>, bufSize: nat, delimiter: Option<string>, trim: bool,
                     front: char)
    returns (copied: nat)
    requires '\0' !in line && (trim ==> Trimmable(line, delimiter, front))
    requires |SplitText(line, delimiter, trim)| < bufSize < buffer.Length
    modifies buffer
    ensures copied == |SplitText(line, delimiter, trim)|
    ensures buffer[..copied] == SplitText(line, delimiter, trim) && buffer[copied] == '\0'
  {
    hide Parts, Kept, Dnt, Stops;
    buffer[0] := '\0';
    if line == "" {
      return 0;
    }
    if delimiter.Some? && delimiter.value == "" {
      MemCpy(buffer, 0, line);
      assert buffer[0..|line|] == buffer[..|line|];
      buffer[|line|] := '\0';
      return |line|;
    }
    copied := SplitLoop(line, buffer, if delimiter.None? then "," else delimiter.value, trim, front);
    buffer[copied] := '\0';
  }

  /** The first pass of GetArray, which only measures: the bytes in front of the last NUL. */
  method ArrayLength(line: string, delimiter: Option<string>, trim: bool, front: char) returns (copied: nat)
    requires '\0' !in line && (trim ==> Trimmable(line, delimiter, front))
    ensures copied == |SplitText(line, delimiter, trim)|
  {
    copied := 0;
    if line != "" {
      var maxLen := |line| + 2;
      var p := new char[maxLen + 1];
      SplitFits(line, delimiter, trim);
      copied := StringSplit(line, p, maxLen, delimiter, trim, front);
    }
  }

  lemma SplitFits(line: string, delimiter: Option<string>, trim: bool)
    ensures |SplitText(line, delimiter, trim)| <= |line| + 1
  {
    hide Dnt, Kept, Parts;
    if line != "" && Delimiter(delimiter) != "" {
      var del := Delimiter(delimiter);
      PartsAreWhole(line, del);
      DntFits(Parts(line, del), trim, del);
    }
  }

  predicate Items(items: seq<string>) {
    forall i :: 0 <= i < |items| ==> items[i] != "" && '\0' !in items[i]
  }

  lemma {:induction false} KeptItems(parts: seq<string>, trim: bool)
    requires forall p :: p in parts ==> '\0' !in p
    ensures Items(Kept(parts, trim))
  {
    if parts != [] {
      KeptItems(parts[1..], trim);
      var seg := if trim then Trim(parts[0]) else parts[0];
      assert forall c :: c in seg ==> c in parts[0];
    }
  }

  lemma {:induction false} PartsHaveNoNul(line: string, del: string)
    requires del != "" && '\0' !in line
    ensures forall p :: p in Parts(line, del) ==> '\0' !in p
    decreases |line|
  {
    hide StrStr;
    if StrStr(line, del).Some? {
      PartsHaveNoNul(line[StrStr(line, del).value + |del|..], del);
    }
  }

  /** _tcslen at a place in a buffer. */
  method TailLength(buf: array<char>, p: nat, ghost text: string) returns (n: nat)
    requires p + |text| < buf.Length && buf[p..p + |text|] == text
    requires buf[p + |text|] == '\0' && '\0' !in text
    ensures n == |text|
  {
    assert forall i :: 0 <= i < |text| ==> buf[p + i] == text[i] && text[i] in text;
    n := 0;
    while buf[p + n] != '\0'
      invariant n <= |text|
      decreases |text| - n
    {
      n := n + 1;
    }
  }

  /** ParseDNTString, with a callback that collects the strings. */
  method ParseDNTString(buf: array<char>, ghost items: seq<string>) returns (list: seq<string>)
    requires Items(items) && |Dnt(items)| < buf.Length
    requires buf[..|Dnt(items)|] == Dnt(items) && buf[|Dnt(items)|] == '\0'
    ensures list == items
  {
    hide Dnt;
    list := [];
    var p := 0;
    ghost var i, total := 0, |Dnt(items)|;
    assert items[0..] == items && buf[0..total] == buf[..total];
    DntUnfold(items);
    while buf[p] != '\0'
      invariant i <= |items| && list == items[..i] && 0 <= p <= total
      invariant p + |Dnt(items[i..])| == total && buf[p..total] == Dnt(items[i..]) && buf[total] == '\0'
      invariant items[i..] == [] ==> p == total
      decreases |items| - i
    {
      ghost var rest := items[i..];
      assert rest[1..] == items[i + 1..] && rest[0] == items[i];
      DntUnfold(rest);
      DntUnfold(rest[1..]);
      TailSlices(buf, p, total, rest[0], Dnt(rest[1..]));
      var n := TailLength(buf, p, items[i]);
      list := list + [buf[p..p + n]];
      p := p + n + 1;
      i := i + 1;
    }
    NothingLeft(buf, p, total, items, i);
  }

  /** The loop of ParseDNTString ends only behind the last string. */
  lemma NothingLeft(buf: array<char>, p: nat, total: nat, items: seq<string>, i: nat)
    requires i <= |items| && Items(items) && p <= total < buf.Length
    requires buf[p..total] == Dnt(items[i..]) && buf[p] == '\0'
    ensures items[..i] == items
  {
    hide Dnt;
    var rest := items[i..];
    DntUnfold(rest);
    if rest != [] {
      FirstOfDnt(rest[0], Dnt(rest), Dnt(rest[1..]));
      assert false by { FirstInBuffer(buf, p, total, Dnt(rest)); }
    }
  }

  lemma FirstInBuffer(buf: array<char>, p: nat, total: nat, s: string)
    requires p <= total < buf.Length && buf[p..total] == s && s != ""
    ensures s[0] == buf[p]
  {}

  lemma DntUnfold(items: seq<string>)
    ensures items == [] ==> Dnt(items) == ""
    ensures items != [] ==> Dnt(items) == items[0] + ['\0'] + Dnt(items[1..])
  {}

  lemma FirstOfDnt(item: string, whole: string, rest: string)
    requires item != "" && '\0' !in item && whole == item + ['\0'] + rest
    ensures whole[0] != '\0'
  {
    assert whole[0] == item[0] && item[0] in item;
  }

  lemma TailSlices(buf: array<char>, p: nat, total: nat, item: string, rest: string)
    requires p <= total < buf.Length && buf[p..total] == item + ['\0'] + rest
    ensures p + |item| + 1 + |rest| == total
    ensures buf[p..p + |item|] == item && buf[p + |item|] == '\0' && buf[p + |item| + 1..total] == rest
  {
    var s := buf[p..total];
    assert s[..|item|] == item && s[|item|] == '\0' && s[|item| + 1..] == rest;
  }

  // ---- GetArray and WriteArray ----

  /** A text that trimming does not change. */
  predicate Untouched(p: string) {
    p == "" || Trimmed(p)
  }

  lemma UntouchedIs(p: string)
    ensures Untouched(p) <==> Trim(p) == p
    ensures |Trim(p)| <= |p| && (Trim(p) != p ==> |Trim(p)| < |p|)
  {
    var i, j := TrimCuts(p);
    assert p[0..|p|] == p;
    if p != "" {
      TrimIsExact(p);
    }
    hide Trim, Trimmed;
  }

  lemma KeptFirst(parts: seq<string>, trim: bool)
    requires parts != []
    ensures var seg := if trim then Trim(parts[0]) else parts[0];
            |Dnt(Kept(parts, trim))| == (if seg == "" then 0 else |seg| + 1) + |Dnt(Kept(parts[1..], trim))|
  {
    hide Trim;
    var seg := if trim then Trim(parts[0]) else parts[0];
    assert Kept(parts, trim) == (if seg == "" then [] else [seg]) + Kept(parts[1..], trim);
    if seg == "" {
      assert [] + Kept(parts[1..], trim) == Kept(parts[1..], trim);
    } else {
      assert ([seg] + Kept(parts[1..], trim))[1..] == Kept(parts[1..], trim);
    }
  }

  /** Trimmed or not, the same parts are kept exactly if trimming changes none of them. */
  lemma {:induction false} TrimmingMatters(parts: seq<string>)
    ensures Kept(parts, true) == Kept(parts, false) <==> forall p :: p in parts ==> Untouched(p)
    ensures |Dnt(Kept(parts, true))| <= |Dnt(Kept(parts, false))|
    ensures |Dnt(Kept(parts, true))| == |Dnt(Kept(parts, false))| ==> Kept(parts, true) == Kept(parts, false)
  {
    hide Trim, Untouched, Dnt;
    if parts != [] {
      var p, later := parts[0], parts[1..];
      assert parts == [p] + later;
      UntouchedIs(p);
      KeptFirst(parts, true);
      KeptFirst(parts, false);
      TrimmingMatters(later);
    }
  }

  /** GetArray into a list: measured, split and parsed. The trimming argument is not handed on: trimming is always
      on, and the list is the one asked for exactly if there was nothing to trim. */
  method GetArray(line: string, delimiter: Option<string>, trimString: bool, front: char) returns (list: seq<string>)
    requires '\0' !in line && Trimmable(line, delimiter, front) && Delimiter(delimiter) != ""
    ensures list == if line == "" then [] else Kept(Parts(line, Delimiter(delimiter)), true)
    ensures line != "" && !trimString ==>
              (list == Kept(Parts(line, Delimiter(delimiter)), trimString) <==>
               forall p :: p in Parts(line, Delimiter(delimiter)) ==> Untouched(p))
  {
    hide Parts, Kept, Dnt, Trimmable, Untouched;
    var length := ArrayLength(line, delimiter, true, front);
    if line != "" {
      PartsHaveNoNul(line, Delimiter(delimiter));
      KeptItems(Parts(line, Delimiter(delimiter)), true);
      TrimmingMatters(Parts(line, Delimiter(delimiter)));
    }
    if length == 0 {
      if line != "" {
        NothingKept(Kept(Parts(line, Delimiter(delimiter)), true));
      }
      return [];
    }
    var psz := new char[length + 3];
    var copied := StringSplit(line, psz, length + 2, delimiter, true, front);
    list := ParseDNTString(psz, Kept(Parts(line, Delimiter(delimiter)), true));
  }

  lemma NothingKept(items: seq<string>)
    ensures Dnt(items) == "" ==> items == []
  {}

  /** The line that WriteArray writes for the first `count` items. */
  method WriteArray(items: seq<string>, count: int, delimiter: Option<string>) returns (line: string)
    ensures var n := if count < 0 || count > |items| then |items| else count;
            var del := if delimiter.None? || delimiter.value == "" then "," else delimiter.value;
            line == if n == 0 then "" else Join(items[..n], del)
  {
    var n := if count < 0 || count > |items| then |items| else count;
    var del := if delimiter.None? || delimiter.value == "" then "," else delimiter.value;
    line := "";
    var i := 0;
    while i < n
      invariant 0 <= i <= n
      invariant n > 0 ==> line + (if i == n then "" else Join(items[i..n], del)) == Join(items[..n], del)
      invariant n == 0 ==> line == ""
    {
      JoinStep(items, i, n, del, line);
      line := line + items[i];
      if i != n - 1 {
        line := line + del;
      }
      i := i + 1;
    }
  }

  lemma JoinStep(items: seq<string>, i: nat, n: nat, del: string, done: string)
    requires i < n <= |items|
    ensures items[0..n] == items[..n]
    ensures done + Join(items[i..n], del) ==
            if i == n - 1 then done + items[i] + "" else done + items[i] + del + Join(items[i + 1..n], del)
  {
    assert items[i..n][1..] == items[i + 1..n] && items[i..n][0] == items[i];
    if i < n - 1 {
      var rest := Join(items[i + 1..n], del);
      assert done + (items[i] + del + rest) == done + items[i] + del + rest;
    }
  }

  // ---- The round trip ----

  lemma StrStrIs(s: string, t: string, i: nat)
    requires OccursAt(s, t, i) && forall j: nat :: j < i ==> !OccursAt(s, t, j)
    ensures StrStr(s, t) == Some(i)
  {}

  lemma FirstOccurs(s: string, t: string, i: nat)
    requires t != ""
    ensures OccursAt(s, t, i) ==> i < |s| && s[i] == t[0] && t[0] in s
  {
    if OccursAt(s, t, i) {
      assert s[i..i + |t|][0] == s[i];
    }
  }

  lemma OneCharacter(s: string, t: string)
    requires |t| == 1 && !Contains(s, t)
    ensures t[0] !in s
  {
    forall k: nat | k < |s|
      ensures s[k] != t[0]
    {
      assert !OccursAt(s, t, k);
    }
  }

  /** Items that lack the first character of the delimiter are the parts of their line. */
  lemma {:induction false} PartsOfJoined(items: seq<string>, del: string)
    requires items != [] && del != "" && forall i :: 0 <= i < |items| ==> del[0] !in items[i]
    ensures Parts(Join(items, del), del) == items
  {
    hide StrStr;
    var item := items[0];
    if |items| == 1 {
      forall j: nat
        ensures !OccursAt(item, del, j)
      {
        FirstOccurs(item, del, j);
      }
    } else {
      var rest := Join(items[1..], del);
      var s := item + del + rest;
      assert s[|item|..|item| + |del|] == del && s[|item| + |del|..] == rest && s[..|item|] == item;
      forall j: nat | j < |item|
        ensures !OccursAt(s, del, j)
      {
        FirstOccurs(s, del, j);
        assert s[j] == item[j] && item[j] in item;
      }
      StrStrIs(s, del, |item|);
      PartsOfJoined(items[1..], del);
    }
  }

  lemma {:induction false} TrimmedAreKept(items: seq<string>)
    requires forall i :: 0 <= i < |items| ==> Trimmed(items[i])
    ensures Kept(items, true) == items
  {
    if items != [] {
      TrimIsExact(items[0]);
      hide Trim;
      TrimmedAreKept(items[1..]);
    }
  }

  /** For a delimiter of one character that is also necessary: exactly the lists without
      the delimiter in an item come back as the parts of their line. */
  lemma SplitUndoesJoin(items: seq<string>, del: string)
    requires items != [] && |del| == 1
    ensures Parts(Join(items, del), del) == items <==> forall i :: 0 <= i < |items| ==> del[0] !in items[i]
  {
    hide Parts, Join, StrStr;
    if Parts(Join(items, del), del) == items {
      PartsLackNeedle(Join(items, del), del);
      forall i | 0 <= i < |items|
        ensures del[0] !in items[i]
      {
        OneCharacter(items[i], del);
      }
    } else if forall i :: 0 <= i < |items| ==> del[0] !in items[i] {
      PartsOfJoined(items, del);
    }
  }

  lemma {:induction false} KeptAreTrims(parts: seq<string>, i: nat) returns (j: nat)
    requires i < |Kept(parts, true)|
    ensures j < |parts| && Kept(parts, true)[i] == Trim(parts[j]) != ""
  {
    hide Trim;
    var seg := Trim(parts[0]);
    if seg != "" && i == 0 {
      j := 0;
    } else {
      var k := KeptAreTrims(parts[1..], if seg == "" then i else i - 1);
      j := k + 1;
    }
  }

  lemma TrimHolds(s: string, c: char)
    requires c in Trim(s)
    ensures c in s
  {
    hide Trim;
    var i, j := TrimCuts(s);
    assert forall k :: 0 <= k < j - i ==> Trim(s)[k] == s[i + k];
  }

  lemma TrimOfText(s: string)
    requires Trim(s) != ""
    ensures Trimmed(Trim(s))
  {
    hide Trim, IsBlank;
    TrimEnds(s);
  }

  /** Trimmed items that lack the first character of the delimiter. */
  predicate Lasting(items: seq<string>, del: string)
    requires del != ""
  {
    forall i :: 0 <= i < |items| ==> Trimmed(items[i]) && del[0] !in items[i]
  }

  /** Which lists come back from their line, split and trimmed: for a delimiter of one character exactly those
      of trimmed items that lack it. */
  lemma ListComesBack(items: seq<string>, del: string)
    requires items != [] && |del| == 1
    ensures Kept(Parts(Join(items, del), del), true) == items <==> Lasting(items, del)
  {
    hide Parts, Join, Kept, Trim, Trimmed;
    var parts := Parts(Join(items, del), del);
    if Kept(parts, true) == items {
      PartsLackNeedle(Join(items, del), del);
      forall i | 0 <= i < |items|
        ensures Trimmed(items[i]) && del[0] !in items[i]
      {
        var j := KeptAreTrims(parts, i);
        TrimOfText(parts[j]);
        OneCharacter(parts[j], del);
        if del[0] in items[i] {
          TrimHolds(parts[j], del[0]);
        }
      }
    }
    if Lasting(items, del) {
      PartsOfJoined(items, del);
      TrimmedAreKept(items);
    }
  }

  lemma {:induction false} JoinHasNoNul(items: seq<string>, del: string)
    requires items != [] && '\0' !in del && forall i :: 0 <= i < |items| ==> '\0' !in items[i]
    ensures '\0' !in Join(items, del)
  {
    if |items| > 1 {
      JoinHasNoNul(items[1..], del);
    }
  }

  lemma NothingJoined(items: seq<string>, del: string)
    requires items != [] && del != "" && Join(items, del) == ""
    ensures items == [""] && Kept(Parts("", del), true) == []
  {
    assert Parts("", del) == [""];
    assert [""][1..] == [];
  }

  /** Writing a list and reading it gives the list back for trimmed items that lack the first character of the
      delimiter, and for a delimiter of one character exactly then. */
  method WriteAndRead(items: seq<string>, delimiter: Option<string>, trimString: bool, front: char)
    returns (list: seq<string>)
    requires '\0' !in Delimiter(delimiter) && Delimiter(delimiter) != ""
    requires forall i :: 0 <= i < |items| ==> '\0' !in items[i]
    requires items == [] || Lasting(items, Delimiter(delimiter)) ||
             Trimmable(Join(items, Delimiter(delimiter)), delimiter, front)
    ensures Lasting(items, Delimiter(delimiter)) ==> list == items
    ensures |Delimiter(delimiter)| == 1 ==> (list == items <==> Lasting(items, Delimiter(delimiter)))
  {
    hide Parts, Join, Kept, Trimmable;
    var line := WriteArray(items, -1, delimiter);
    assert items[..|items|] == items;
    ghost var del := Delimiter(delimiter);
    if items != [] {
      JoinHasNoNul(items, del);
      if line == "" {
        NothingJoined(items, del);
      }
      if |del| == 1 {
        ListComesBack(items, del);
      }
      if Lasting(items, del) {
        PartsOfJoined(items, del);
        TrimmedAreKept(items);
        TrimmedIsTrimmable(items, delimiter, front);
      }
    } else {
      NothingToTrim(delimiter, front);
    }
    list := GetArray(line, delimiter, trimString, front);
  }

  lemma TrimmedIsTrimmable(items: seq<string>, delimiter: Option<string>, front: char)
    requires items != [] && Delimiter(delimiter) != "" && Lasting(items, Delimiter(delimiter))
    requires Parts(Join(items, Delimiter(delimiter)), Delimiter(delimiter)) == items
    ensures Trimmable(Join(items, Delimiter(delimiter)), delimiter, front)
  {
    hide Parts, Join;
    forall i | 0 <= i < |items|
      ensures Stops(items[i], front)
    {
      assert !IsBlank(items[i][0]);
    }
  }

  lemma NothingToTrim(delimiter: Option<string>, front: char)
    ensures Trimmable("", delimiter, front)
  {}

  // ---- Lines written by hand ----

  /** Blanks, tabs, carriage returns and line feeds. */
  predicate Blanks(w: string) {
    forall i :: 0 <= i < |w| ==> w[i] == ' ' || w[i] == '\t' || w[i] == '\r' || w[i] == '\n'
  }

  /** An item with blanks around it. */
  datatype Padded = Padded(before: string, item: string, after: string) {
    function Text(): string {
      before + item + after
    }

    predicate Ok() {
      && Blanks(before) && Blanks(after) && ',' !in item && '\0' !in item
      && item != "" && !Blanks([item[0]]) && !Blanks([item[|item| - 1]])
    }
  }

  function Texts(ps: seq<Padded>): (r: seq<string>)
    ensures |r| == |ps| && forall i :: 0 <= i < |ps| ==> r[i] == ps[i].Text()
  {
    seq(|ps|, i requires 0 <= i < |ps| => ps[i].Text())
  }

  function ItemsOf(ps: seq<Padded>): (r: seq<string>)
    ensures |r| == |ps| && forall i :: 0 <= i < |ps| ==> r[i] == ps[i].item
  {
    seq(|ps|, i requires 0 <= i < |ps| => ps[i].item)
  }

  lemma BlankIs(c: char)
    ensures IsBlank(c) <==> Blanks([c])
  {
    assert [c][0] == c;
  }

  lemma BlanksAt(w: string, i: nat)
    requires Blanks(w) && i < |w|
    ensures IsBlank(w[i])
  {}

  lemma TrimIs(s: string, b: nat, n: nat)
    requires b < n <= |s| && !IsBlank(s[b]) && !IsBlank(s[n - 1])
    requires forall k :: 0 <= k < b || n <= k < |s| ==> IsBlank(s[k])
    ensures Trim(s) == s[b..n]
  {
    hide IsBlank, Trim;
    var i, j := TrimCuts(s);
    TrimEnds(s);
    assert i <= b && n <= j;
    assert Trim(s)[0] == s[i] && Trim(s)[|Trim(s)| - 1] == s[j - 1];
  }

  lemma PaddedParts(p: Padded)
    requires p.Ok()
    ensures var s, b, n := p.Text(), |p.before|, |p.before| + |p.item|;
            && b < n <= |s| && s[b..n] == p.item && !IsBlank(s[b]) && !IsBlank(s[n - 1])
            && forall k :: 0 <= k < b || n <= k < |s| ==> IsBlank(s[k])
  {
    var s, b, n := p.Text(), |p.before|, |p.before| + |p.item|;
    BlankIs(p.item[0]);
    BlankIs(p.item[|p.item| - 1]);
    hide IsBlank;
    forall k | 0 <= k < b || n <= k < |s|
      ensures IsBlank(s[k])
    {
      if k < b {
        BlanksAt(p.before, k);
      } else {
        BlanksAt(p.after, k - n);
      }
    }
  }

  lemma NoComma(p: Padded)
    requires p.Ok()
    ensures ',' !in p.Text()
  {}

  lemma PaddedIsTrimmed(p: Padded)
    requires p.Ok()
    ensures Trim(p.Text()) == p.item
  {
    PaddedParts(p);
    hide Trim, IsBlank, Blanks;
    TrimIs(p.Text(), |p.before|, |p.before| + |p.item|);
  }

  lemma {:induction false} KeptAll(texts: seq<string>, items: seq<string>)
    requires |texts| == |items|
    requires forall i :: 0 <= i < |items| ==> Trim(texts[i]) == items[i] && items[i] != ""
    ensures Kept(texts, true) == items
    decreases |texts|
  {
    hide Trim;
    if texts != [] {
      KeptAll(texts[1..], items[1..]);
    }
  }

  lemma PaddedAreKept(ps: seq<Padded>)
    requires forall i :: 0 <= i < |ps| ==> ps[i].Ok()
    ensures Kept(Texts(ps), true) == ItemsOf(ps)
  {
    hide Trim, Kept, Blanks;
    forall i | 0 <= i < |ps|
      ensures Trim(Texts(ps)[i]) == ItemsOf(ps)[i] && ItemsOf(ps)[i] != ""
    {
      PaddedIsTrimmed(ps[i]);
    }
    KeptAll(Texts(ps), ItemsOf(ps));
  }

  /** A line that was written by hand: commas between the items, and any blanks, tabs, carriage returns and line feeds
      around each of them. Split without a delimiter given, it yields the items, each with its NUL. */
  lemma BlanksDoNotMatter(ps: seq<Padded>)
    requires ps != [] && forall i :: 0 <= i < |ps| ==> ps[i].Ok()
    ensures Kept(Parts(Join(Texts(ps), ","), ","), true) == ItemsOf(ps)
    ensures SplitText(Join(Texts(ps), ","), None, true) == Dnt(ItemsOf(ps))
  {
    hide Parts, Join, Kept, Dnt, Trim;
    forall i | 0 <= i < |ps|
      ensures ',' !in Texts(ps)[i]
    {
      NoComma(ps[i]);
    }
    PartsOfJoined(Texts(ps), ",");
    PaddedAreKept(ps);
    if Join(Texts(ps), ",") == "" {
      NothingJoined(Texts(ps), ",");
    }
  }
}
