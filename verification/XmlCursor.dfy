// Positions in a text (tinyxmlparser.cpp): Stamp moves a row and column along
// with a pointer. And the newlines of a file, which LoadFile makes all alike
// in place (tinyxml.cpp).
module XmlCursor {
  import opened Sequences
  import opened XmlText
  import opened XmlCodec

  // ---- Stamp ----

  /** A place in a text of which everything before has been counted. */
  datatype Place = Place(at: nat, row: int, col: int)

  /** The character at a place; the terminator behind the text. */
  function At(text: string, i: nat): char {
    if i < |text| then text[i] else '\0'
  }

  function Forward(text: string, at: nat, n: nat): nat {
    if at + n <= |text| then at + n else |text|
  }

  /** C division, which rounds towards zero. */
  function Quotient(a: int, b: int): int
    requires b > 0
  {
    if a >= 0 then a / b else -(-a / b)
  }

  /** At this place a lead byte of three lacks its other two. */
  predicate Stuck(enc: Encoding, text: string, at: nat) {
    enc.Utf8? && At(text, at) as int == 0xef && at + 2 >= |text|
  }

  /** Where one pass of the loop of Stamp takes the pointer. */
  function Next(enc: Encoding, text: string, at: nat): (n: nat)
    requires at < |text| && !Stuck(enc, text, at)
    ensures at < n <= |text|
  {
    var c := text[at];
    if c == '\r' then if At(text, at + 1) == '\n' then at + 2 else at + 1
    else if c == '\n' then if At(text, at + 1) == '\r' then at + 2 else at + 1
    else if enc.Utf8? && c != '\t' then
      if c as int == 0xef then at + 3 else Forward(text, at, Utf8Length(c))
    else at + 1
  }

  /** One pass of the loop of Stamp. */
  function Step(enc: Encoding, tabsize: int, text: string, p: Place): (q: Place)
    requires p.at < |text| && tabsize >= 1 && !Stuck(enc, text, p.at)
    ensures p.at < q.at == Next(enc, text, p.at) <= |text|
  {
    var c, n := text[p.at], Next(enc, text, p.at);
    if c == '\r' || c == '\n' then Place(n, p.row + 1, 0)
    else if c == '\t' then Place(n, p.row, (Quotient(p.col, tabsize) + 1) * tabsize)
    else if enc.Utf8? && StartsWithMark(text[p.at..]) then Place(n, p.row, p.col)
    else Place(n, p.row, p.col + 1)
  }

  /** From here, the loop comes to the mark without getting stuck. */
  predicate Smooth(enc: Encoding, text: string, now: nat, at: nat)
    requires now <= |text|
    decreases now - at
  {
    at >= now || (!Stuck(enc, text, at) && Smooth(enc, text, now, Next(enc, text, at)))
  }

  lemma {:induction false} SmoothBefore(enc: Encoding, text: string, first: nat, now: nat, at: nat)
    requires first <= now <= |text| && Smooth(enc, text, now, at)
    ensures Smooth(enc, text, first, at)
    decreases now - at
  {
    if at < first {
      SmoothBefore(enc, text, first, now, Next(enc, text, at));
    }
  }

  /** The loop of Stamp, up to a mark in the text. */
  function Run(enc: Encoding, tabsize: int, text: string, now: nat, p: Place): (q: Place)
    requires now <= |text| && tabsize >= 1 && Smooth(enc, text, now, p.at)
    ensures q.at >= now && q.at >= p.at
    decreases now - p.at
  {
    if p.at >= now then p else Run(enc, tabsize, text, now, Step(enc, tabsize, text, p))
  }

  lemma {:induction false} SmoothBehind(enc: Encoding, tabsize: int, text: string, first: nat, now: nat, p: Place)
    requires first <= now <= |text| && tabsize >= 1 && Smooth(enc, text, now, p.at)
    ensures Smooth(enc, text, first, p.at) && Smooth(enc, text, now, Run(enc, tabsize, text, first, p).at)
    decreases now - p.at
  {
    SmoothBefore(enc, text, first, now, p.at);
    if p.at < first {
      SmoothBehind(enc, tabsize, text, first, now, Step(enc, tabsize, text, p));
    }
  }

  /** The place after a list of marks, one behind the other. */
  function RunAll(enc: Encoding, tabsize: int, text: string, marks: seq<nat>, p: Place): Place
    requires tabsize >= 1 && Rising(text, marks)
    requires marks != [] ==> Smooth(enc, text, LastMark(text, marks), p.at)
    decreases marks
  {
    if marks == [] then p
    else
      SmoothBehind(enc, tabsize, text, marks[0], LastMark(text, marks), p);
      RisingRest(text, marks);
      RunAll(enc, tabsize, text, marks[1..], Run(enc, tabsize, text, marks[0], p))
  }

  predicate Rising(text: string, marks: seq<nat>) {
    forall i, j :: 0 <= i <= j < |marks| ==> marks[i] <= marks[j] <= |text|
  }

  function LastMark(text: string, marks: seq<nat>): (now: nat)
    requires marks != [] && Rising(text, marks)
    ensures marks[0] <= now <= |text|
  {
    marks[|marks| - 1]
  }

  lemma RisingRest(text: string, marks: seq<nat>)
    requires marks != [] && Rising(text, marks)
    ensures Rising(text, marks[1..]) && (marks[1..] != [] ==> LastMark(text, marks[1..]) == LastMark(text, marks))
  {}

  lemma {:induction false} RunThrough(enc: Encoding, tabsize: int, text: string, first: nat, now: nat, p: Place)
    requires first <= now <= |text| && tabsize >= 1 && Smooth(enc, text, now, p.at)
    ensures Smooth(enc, text, first, p.at) && Smooth(enc, text, now, Run(enc, tabsize, text, first, p).at)
    ensures Run(enc, tabsize, text, now, Run(enc, tabsize, text, first, p)) == Run(enc, tabsize, text, now, p)
    decreases now - p.at
  {
    SmoothBehind(enc, tabsize, text, first, now, p);
    if p.at < first {
      RunThrough(enc, tabsize, text, first, now, Step(enc, tabsize, text, p));
    }
  }

  /** Any increasing marks leave the same place as the last of them alone, even when
      one of them falls between the two characters of a line end. */
  lemma {:induction false} MarksDoNotMatter(enc: Encoding, tabsize: int, text: string, marks: seq<nat>, p: Place)
    requires tabsize >= 1 && marks != [] && Rising(text, marks) && Smooth(enc, text, LastMark(text, marks), p.at)
    ensures RunAll(enc, tabsize, text, marks, p) == Run(enc, tabsize, text, LastMark(text, marks), p)
    decreases marks
  {
    hide Step, Smooth;
    RunThrough(enc, tabsize, text, marks[0], LastMark(text, marks), p);
    RisingRest(text, marks);
    if |marks| > 1 {
      MarksDoNotMatter(enc, tabsize, text, marks[1..], Run(enc, tabsize, text, marks[0], p));
    }
  }

  class TiXmlParsingData {
    const text: string
    const tabsize: int
    var stamp: nat
    var row: int
    var col: int

    constructor (text: string, tabsize: int, row: int, col: int)
      ensures this.text == text && this.tabsize == tabsize && stamp == 0 && this.row == row && this.col == col
    {
      this.text, this.tabsize, this.stamp, this.row, this.col := text, tabsize, 0, row, col;
    }

    ghost function Now(): Place
      reads this
    {
      Place(stamp, row, col)
    }

    /** Stamp. On the way to a mark behind the terminator it gives up and keeps the old place. */
    method Stamp(now: nat, enc: Encoding)
      requires stamp <= |text| && Smooth(enc, text, if now < |text| then now else |text|, stamp)
      modifies this
      ensures Now() == if tabsize < 1 || now > |text| then old(Now()) else Run(enc, tabsize, text, now, old(Now()))
      ensures stamp <= |text|
    {
      if tabsize < 1 {
        return;
      }
      var r, c, p := row, col, stamp;
      while p < now
        invariant p <= |text| && Smooth(enc, text, if now < |text| then now else |text|, p)
        invariant now <= |text| ==>
                    Run(enc, tabsize, text, now, Place(p, r, c)) == Run(enc, tabsize, text, now, old(Now()))
        decreases now - p
      {
        if p == |text| {
          return;
        }
        ghost var was := Place(p, r, c);
        assert !Stuck(enc, text, p);
        if text[p] == '\r' {
          r, c, p := r + 1, 0, p + 1;
          if At(text, p) == '\n' {
            p := p + 1;
          }
        } else if text[p] == '\n' {
          r, c, p := r + 1, 0, p + 1;
          if At(text, p) == '\r' {
            p := p + 1;
          }
        } else if text[p] == '\t' {
          p := p + 1;
          c := (Quotient(c, tabsize) + 1) * tabsize;
        } else if text[p] as int == 0xef && enc.Utf8? {
          if StartsWithMark(text[p..]) {
            p := p + 3;
          } else {
            p, c := p + 3, c + 1;
          }
        } else if enc.Utf8? {
          p, c := Forward(text, p, Utf8Length(text[p])), c + 1;
        } else {
          p, c := p + 1, c + 1;
        }
        assert Place(p, r, c) == Step(enc, tabsize, text, was);
      }
      row, col, stamp := r, c, p;
    }
  }

  // ---- Columns ----

  /** One character of text inside of a line, as its bytes: a byte of a one-byte encoding, or in UTF-8 a sequence
      whose length its first byte tells. Tabs, line ends and byte order marks are none. */
  predicate OneChar(enc: Encoding, u: string) {
    && u != "" && u[0] !in {'\t', '\n', '\r'}
    && (!enc.Utf8? || 0xc2 > u[0] as int || u[0] as int > 0xf4 ==> |u| == 1)
    && (enc.Utf8? && 0xc2 <= u[0] as int <= 0xdf ==> |u| == 2)
    && (enc.Utf8? && 0xe0 <= u[0] as int <= 0xef ==> |u| == 3)
    && (enc.Utf8? && 0xf0 <= u[0] as int <= 0xf4 ==> |u| == 4)
    && !(enc.Utf8? && u in {['\U{EF}', '\U{BB}', '\U{BF}'], ['\U{EF}', '\U{BF}', '\U{BE}'],
                            ['\U{EF}', '\U{BF}', '\U{BF}']})
  }

  lemma CharAhead(enc: Encoding, tabsize: int, a: string, u: string, b: string, row: int, col: int)
    requires OneChar(enc, u) && tabsize >= 1
    ensures var text := a + (u + b);
            && !Stuck(enc, text, |a|)
            && Step(enc, tabsize, text, Place(|a|, row, col)) == Place(|a| + |u|, row, col + 1)
  {
    var text := a + (u + b);
    assert text[|a|] == u[0] && text[|a|..] == u + b;
    assert |u| > 1 ==> text[|a| + 1] == u[1];
    assert |u| > 2 ==> text[|a| + 2] == u[2] && text[|a|..][..3] == u[..3];
    assert |u| == 3 ==> u == [u[0], u[1], u[2]];
  }

  lemma RunEnds(enc: Encoding, tabsize: int, text: string, p: Place)
    requires tabsize >= 1 && p.at <= |text|
    ensures Smooth(enc, text, p.at, p.at) && Run(enc, tabsize, text, p.at, p) == p
  {}

  lemma RunGoesOn(enc: Encoding, tabsize: int, text: string, now: nat, p: Place, q: Place)
    requires tabsize >= 1 && p.at < now <= |text| && !Stuck(enc, text, p.at)
    requires Step(enc, tabsize, text, p) == q && Smooth(enc, text, now, q.at)
    ensures Smooth(enc, text, now, p.at) && Run(enc, tabsize, text, now, p) == Run(enc, tabsize, text, now, q)
  {
    hide Stuck, Next, Step;
  }

  lemma FirstChar(a: string, u: string, rest: string, b: string)
    ensures a + (u + rest + b) == a + (u + (rest + b)) == (a + u) + (rest + b)
  {}

  /** Inside of a line, the column goes up by one for each character, however many bytes it has. */
  lemma {:induction false} ColumnsCount(enc: Encoding, tabsize: int, a: string, chars: seq<string>, b: string, row: int,
                                        col: int)
    requires tabsize >= 1 && forall i :: 0 <= i < |chars| ==> OneChar(enc, chars[i])
    ensures var text, now := a + (Concat(chars) + b), |a| + |Concat(chars)|;
            && Smooth(enc, text, now, |a|)
            && Run(enc, tabsize, text, now, Place(|a|, row, col)) == Place(now, row, col + |chars|)
    decreases |chars|
  {
    hide *;
    var text, now := a + (Concat(chars) + b), |a| + |Concat(chars)|;
    FirstOfConcat(chars);
    if chars == [] {
      RunEnds(enc, tabsize, text, Place(|a|, row, col));
    } else {
      var u, rest := chars[0], Concat(chars[1..]);
      FirstChar(a, u, rest, b);
      NotEmptyChar(enc, u);
      CharAhead(enc, tabsize, a, u, rest + b, row, col);
      ColumnsCount(enc, tabsize, a + u, chars[1..], b, row, col + 1);
      RunGoesOn(enc, tabsize, text, now, Place(|a|, row, col), Place(|a| + |u|, row, col + 1));
    }
  }

  lemma FirstOfConcat(parts: seq<string>)
    ensures Concat(parts) == if parts == [] then "" else parts[0] + Concat(parts[1..])
  {}

  lemma NotEmptyChar(enc: Encoding, u: string)
    requires OneChar(enc, u)
    ensures u != ""
  {}

  /** Behind a line end, of one character or of two, the column is zero and the row one more. */
  lemma LineEndResets(enc: Encoding, tabsize: int, a: string, end: string, b: string, row: int, col: int)
    requires tabsize >= 1 && end in {"\n", "\r", "\r\n", "\n\r"}
    requires b != "" ==> (end == "\n" ==> b[0] != '\r') && (end == "\r" ==> b[0] != '\n')
    ensures var text, now := a + (end + b), |a| + |end|;
            && Smooth(enc, text, now, |a|)
            && Run(enc, tabsize, text, now, Place(|a|, row, col)) == Place(now, row + 1, 0)
  {
    var text, now := a + (end + b), |a| + |end|;
    assert text[|a|] == end[0];
    assert |end| == 2 ==> text[|a| + 1] == end[1];
    assert |end| == 1 && b != "" ==> text[|a| + 1] == b[0];
    assert !Stuck(enc, text, |a|) && Next(enc, text, |a|) == now;
  }

  lemma TabStep(enc: Encoding, tabsize: int, a: string, b: string, row: int, col: nat)
    requires tabsize >= 1
    ensures var text, now := a + ("\t" + b), |a| + 1;
            && Smooth(enc, text, now, |a|)
            && Run(enc, tabsize, text, now, Place(|a|, row, col)) == Place(now, row, (col / tabsize + 1) * tabsize)
  {
    var text, now := a + ("\t" + b), |a| + 1;
    assert text[|a|] == '\t';
    assert !Stuck(enc, text, |a|) && Next(enc, text, |a|) == now;
  }

  /** A tab takes the column to the next multiple of the tab size. */
  lemma TabStops(enc: Encoding, tabsize: int, a: string, b: string, row: int, col: nat)
    requires tabsize >= 1
    ensures var text, now := a + ("\t" + b), |a| + 1;
            && Smooth(enc, text, now, |a|)
            && var q := Run(enc, tabsize, text, now, Place(|a|, row, col));
               q.at == now && q.row == row && col < q.col <= col + tabsize && exists k: nat :: q.col == k * tabsize
  {
    hide *;
    TabStep(enc, tabsize, a, b, row, col);
    Multiples(col, tabsize);
    var k: nat := col / tabsize + 1;
    assert k * tabsize == (col / tabsize + 1) * tabsize;
  }

  lemma Multiples(col: nat, tabsize: int)
    requires tabsize >= 1
    ensures col < (col / tabsize + 1) * tabsize <= col + tabsize
  {
    var k := col / tabsize;
    assert col == tabsize * k + col % tabsize;
    assert (k + 1) * tabsize == tabsize * k + tabsize;
  }

  /** A byte order mark takes up no column in UTF-8. */
  lemma MarksTakeNoColumn(tabsize: int, a: string, mark: string, b: string, row: int, col: int)
    requires tabsize >= 1
    requires mark in {['\U{EF}', '\U{BB}', '\U{BF}'], ['\U{EF}', '\U{BF}', '\U{BE}'], ['\U{EF}', '\U{BF}', '\U{BF}']}
    ensures var text, now := a + (mark + b), |a| + 3;
            && Smooth(Encoding.Utf8, text, now, |a|)
            && Run(Encoding.Utf8, tabsize, text, now, Place(|a|, row, col)) == Place(now, row, col)
  {
    var text, now := a + (mark + b), |a| + 3;
    assert text[|a|..] == mark + b && text[|a|] == mark[0];
    assert StartsWithMark(text[|a|..]);
    assert !Stuck(Encoding.Utf8, text, |a|) && Next(Encoding.Utf8, text, |a|) == now;
  }

  // ---- Newlines ----

  /** A text with every line end turned into a line feed: section 2.11 of XML 1.0. */
  function Normal(s: string): (r: string)
    ensures |r| <= |s| && '\r' !in r
  {
    if s == "" then ""
    else if s[0] == '\r' then "\n" + Normal(if |s| > 1 && s[1] == '\n' then s[2..] else s[1..])
    else [s[0]] + Normal(s[1..])
  }

  function Count(s: string, c: char): nat {
    if s == "" then 0 else (if s[0] == c then 1 else 0) + Count(s[1..], c)
  }

  lemma {:induction false} NormalIsIdentity(s: string)
    ensures Normal(s) == s <==> '\r' !in s
  {
    if s != "" && s[0] != '\r' {
      NormalIsIdentity(s[1..]);
      assert s == [s[0]] + s[1..];
      assert Normal(s)[1..] == Normal(s[1..]);
    }
  }

  /** Every line end becomes one line feed: a carriage return with or without a line feed behind it, or a line feed. */
  lemma {:induction false} LineEndsBecomeOne(line: string, rest: string)
    requires '\r' !in line
    ensures Normal(line + ("\r\n" + rest)) == line + ("\n" + Normal(rest))
    ensures Normal(line + ("\n" + rest)) == line + ("\n" + Normal(rest))
    ensures rest == "" || rest[0] != '\n' ==> Normal(line + ("\r" + rest)) == line + ("\n" + Normal(rest))
  {
    if line == "" {
      var a, b, c := "\r\n" + rest, "\n" + rest, "\r" + rest;
      assert line + a == a && line + b == b && line + c == c && a[2..] == rest && b[1..] == rest && c[1..] == rest;
      assert rest != "" ==> c[1] == rest[0];
      assert line + ("\n" + Normal(rest)) == "\n" + Normal(rest);
    } else {
      LineEndsBecomeOne(line[1..], rest);
      FirstStays(line, "\r\n" + rest);
      FirstStays(line, "\n" + rest);
      FirstStays(line, "\r" + rest);
      assert [line[0]] + (line[1..] + ("\n" + Normal(rest))) == line + ("\n" + Normal(rest));
    }
  }

  lemma FirstStays(line: string, rest: string)
    requires line != "" && '\r' !in line
    ensures Normal(line + rest) == [line[0]] + Normal(line[1..] + rest)
  {
    assert (line + rest)[1..] == line[1..] + rest;
  }

  /** What is ahead of the read head, normalised, is what the write head still has to write. */
  lemma NormalAhead(done: string, text: string, p: nat)
    requires p < |text|
    ensures text[p] != '\r' ==> done + Normal(text[p..]) == done + [text[p]] + Normal(text[p + 1..])
    ensures text[p] == '\r' && p + 1 < |text| && text[p + 1] == '\n' ==>
              done + Normal(text[p..]) == done + ['\n'] + Normal(text[p + 2..])
    ensures text[p] == '\r' && !(p + 1 < |text| && text[p + 1] == '\n') ==>
              done + Normal(text[p..]) == done + ['\n'] + Normal(text[p + 1..])
  {
    var s := text[p..];
    assert s[1..] == text[p + 1..] && (|s| > 1 ==> s[2..] == text[p + 2..] && s[1] == text[p + 1]);
  }

  /** The in-place loop of LoadFile: the write head never passes the read head. */
  method NormaliseNewlines(buf: array<char>, length: nat) returns (q: nat)
    requires buf.Length == length + 1
    modifies buf
    ensures q <= length && buf[q] == '\0'
    ensures buf[..q] == Normal(old(buf[..Strlen(buf[..length])]))
  {
    hide Normal, Strlen;
    ghost var text := buf[..Strlen(buf[..length])];
    ghost var n, done := |text|, "";
    assert n < length ==> buf[..length][n] == '\0';
    assert forall i :: 0 <= i < n ==> text[i] in buf[..length][..n];
    buf[length] := '\0';
    var p := 0;
    q := 0;
    assert text[0..] == text && "" + Normal(text) == Normal(text);
    while buf[p] != '\0'
      invariant q <= p <= n && Ahead(buf, text, p)
      invariant buf[..q] == done && done + Normal(text[p..]) == Normal(text)
      decreases n - p
    {
      NormalAhead(done, text, p);
      ghost var c := if text[p] == '\r' then '\n' else text[p];
      p, q := CopyOne(buf, p, q, text);
      done := done + [c];
    }
    assert text[p..] == "";
    NormalOfNothing(done);
    buf[q] := '\0';
  }

  /** The part of the buffer that is still to be read. */
  ghost predicate Ahead(buf: array<char>, text: string, p: nat)
    reads buf
  {
    && p <= |text| < buf.Length && buf[|text|] == '\0'
    && forall i :: p <= i < |text| ==> buf[i] == text[i] != '\0'
  }

  /** One pass of that loop. */
  method CopyOne(buf: array<char>, p: nat, q: nat, ghost text: string) returns (p': nat, q': nat)
    requires q <= p < |text| && Ahead(buf, text, p)
    modifies buf
    ensures q' == q + 1 && p' == if text[p] == '\r' && p + 1 < |text| && text[p + 1] == '\n' then p + 2 else p + 1
    ensures Ahead(buf, text, p')
    ensures buf[..q'] == old(buf[..q]) + [if text[p] == '\r' then '\n' else text[p]]
  {
    p', q' := p, q;
    if buf[p'] == '\r' {
      buf[q'] := '\n';
      q', p' := q' + 1, p' + 1;
      if buf[p'] == '\n' {
        p' := p' + 1;
      }
    } else {
      buf[q'] := buf[p'];
      q', p' := q' + 1, p' + 1;
    }
  }

  lemma NormalOfNothing(done: string)
    ensures done + Normal("") == done
  {}

  // ---- Rows of normalised text ----

  lemma {:induction false} CountSplit(s: string, t: string, c: char)
    ensures Count(s + t, c) == Count(s, c) + Count(t, c)
  {
    if s == "" {
      assert s + t == t;
    } else {
      assert (s + t)[1..] == s[1..] + t;
      CountSplit(s[1..], t, c);
    }
  }

  lemma {:induction false} CountNone(s: string, c: char)
    requires c !in s
    ensures Count(s, c) == 0
  {
    if s != "" {
      CountNone(s[1..], c);
    }
  }

  /** Where the places are that Stamp stops at: at the start of a character. */
  predicate Clear(enc: Encoding, text: string, at: nat) {
    at <= |text| && Whole(enc, text[at..])
  }

  /** One step over text without carriage returns adds a row exactly for a line feed. */
  lemma StepRow(enc: Encoding, tabsize: int, text: string, p: Place)
    requires p.at < |text| && tabsize >= 1 && !Stuck(enc, text, p.at)
    requires '\r' !in text && Clear(enc, text, p.at)
    ensures var q := Step(enc, tabsize, text, p);
            && Clear(enc, text, q.at)
            && q.row == p.row + Count(text[p.at..q.at], '\n')
            && '\n' !in text[p.at + 1..q.at]
  {
    var q := Step(enc, tabsize, text, p);
    var rest := text[p.at..];
    assert !Stuck(enc, text, p.at);
    var n := UnitLength(enc, rest);
    assert q.at == p.at + n;
    assert text[q.at..] == rest[n..];
    assert text[p.at..q.at] == [text[p.at]] + text[p.at + 1..q.at];
    assert forall i :: p.at < i < q.at ==> text[i] == rest[i - p.at];
    CountNone(text[p.at + 1..q.at], '\n');
    CountSplit([text[p.at]], text[p.at + 1..q.at], '\n');
    assert [text[p.at]][1..] == "";
  }

  lemma ClearIsFree(enc: Encoding, text: string, at: nat)
    requires at < |text| && Clear(enc, text, at)
    ensures !Stuck(enc, text, at)
  {}

  /** On text as LoadFile leaves it, the row goes up by the line feeds before the mark. */
  lemma {:induction false} RowIsLineCount(enc: Encoding, tabsize: int, text: string, now: nat, p: Place)
    requires p.at <= now <= |text| && tabsize >= 1
    requires '\r' !in text && Clear(enc, text, p.at)
    ensures Smooth(enc, text, now, p.at)
    ensures Run(enc, tabsize, text, now, p).row == p.row + Count(text[p.at..now], '\n')
    decreases now - p.at
  {
    if p.at < now {
      ClearIsFree(enc, text, p.at);
      var q := Step(enc, tabsize, text, p);
      StepRow(enc, tabsize, text, p);
      if q.at <= now {
        RowIsLineCount(enc, tabsize, text, now, q);
        assert text[p.at..now] == text[p.at..q.at] + text[q.at..now];
        CountSplit(text[p.at..q.at], text[q.at..now], '\n');
      } else {
        assert text[p.at..q.at] == text[p.at..now] + text[now..q.at];
        assert forall c :: c in text[now..q.at] ==> c in text[p.at + 1..q.at];
        CountNone(text[now..q.at], '\n');
        CountSplit(text[p.at..now], text[now..q.at], '\n');
      }
    }
  }
}
