// Code points and their UTF-8 encodings (tinyxmlparser.cpp): what
// ConvertUTF32ToUTF8 writes can be cut into characters again by the byte
// table, and read back (section 3 of RFC 3629).
module Utf8 {
  import opened XmlText
  import opened XmlCodec

  predicate CodePoint(c: nat) {
    0 < c <= 0x10FFFF
  }

  // ---- The bits ----

  /** The low six bits under a continuation mark, in bit operations. */
  lemma ContinuationBits(x: bv32)
    ensures ((x | 0x80) & 0xBF) & 0xFF == 0x80 + x % 0x40
  {}

  /** A lead byte: the mark and the remaining bits do not overlap. */
  lemma LeadBits(x: bv8)
    ensures x < 0x20 ==> x | 0xC0 == 0xC0 + x
    ensures x < 0x10 ==> x | 0xE0 == 0xE0 + x
    ensures x < 0x08 ==> x | 0xF0 == 0xF0 + x
  {}

  /** ConvertUTF32ToUTF8: from the last byte to the first, six bits at a time. */
  method ConvertUTF32ToUTF8(input: nat, output: array<char>) returns (length: nat)
    requires output.Length >= 4
    modifies output
    ensures length <= 4 && output[..length] == ToUtf8(input)
    ensures forall i :: length <= i < output.Length ==> output[i] == old(output[i])
  {
    if input < 0x80 {
      length := 1;
    } else if input < 0x800 {
      length := 2;
    } else if input < 0x10000 {
      length := 3;
    } else if input < 0x200000 {
      length := 4;
    } else {
      return 0;
    }
    var mark := if length == 1 then 0x00 else if length == 2 then 0xC0 else if length == 3 then 0xE0 else 0xF0;
    var x, at := input, length;
    if length == 4 {
      at := at - 1;
      output[at] := ContinuationByte(x);
      x := x / 0x40;
    }
    if length >= 3 {
      at := at - 1;
      output[at] := ContinuationByte(x);
      x := x / 0x40;
    }
    if length >= 2 {
      at := at - 1;
      output[at] := ContinuationByte(x);
      x := x / 0x40;
    }
    at := at - 1;
    output[at] := (mark + x) as char;
    Shifts(input);
  }

  lemma Shifts(x: nat)
    ensures x / 0x40 / 0x40 == x / 0x1000 && x / 0x40 / 0x40 / 0x40 == x / 0x40000
  {}

  // ---- Reading characters ----

  function Low(c: char): nat {
    c as int % 0x40
  }

  /** The code point that a character of one to four bytes stands for. */
  function FromUtf8(s: string): (c: nat)
    requires s != ""
  {
    var b := s[0] as int;
    if |s| == 1 then b
    else if |s| == 2 then (b % 0x20) * 0x40 + Low(s[1])
    else if |s| == 3 then (b % 0x10) * 0x1000 + Low(s[1]) * 0x40 + Low(s[2])
    else if |s| == 4 then (b % 0x08) * 0x40000 + Low(s[1]) * 0x1000 + Low(s[2]) * 0x40 + Low(s[3])
    else 0
  }

  /** Stepping through a text by the byte table. */
  function Characters(s: string): (cs: seq<string>)
    ensures forall i :: 0 <= i < |cs| ==> cs[i] != ""
  {
    if s == "" then []
    else
      var n := UnitLength(Encoding.Utf8, s);
      [s[..n]] + Characters(s[n..])
  }

  function EncodeAll(cps: seq<nat>): string {
    if cps == [] then "" else ToUtf8(cps[0]) + EncodeAll(cps[1..])
  }

  function DecodeAll(s: string): seq<nat> {
    var cs := Characters(s);
    seq(|cs|, i requires 0 <= i < |cs| => FromUtf8(cs[i]))
  }

  lemma Digit(c: nat)
    ensures (c / 0x40) * 0x40 + c % 0x40 == c
  {}

  lemma Marked(x: nat)
    ensures Low(ContinuationByte(x)) == x % 0x40 && 0x80 <= ContinuationByte(x) as int < 0xC0
  {}

  lemma TwoBytes(c: nat)
    requires 0x80 <= c < 0x800
    ensures FromUtf8(ToUtf8(c)) == c && |ToUtf8(c)| == 2 == Utf8Length(ToUtf8(c)[0])
  {
    hide Low, ContinuationByte;
    Digit(c);
    Marked(c);
  }

  lemma ThreeBytes(c: nat)
    requires 0x800 <= c < 0x10000
    ensures FromUtf8(ToUtf8(c)) == c && |ToUtf8(c)| == 3 == Utf8Length(ToUtf8(c)[0])
  {
    hide Low, ContinuationByte;
    var a := c / 0x40;
    Shifts(c);
    Digit(c);
    Digit(a);
    Marked(c);
    Marked(a);
  }

  lemma FourBytes(c: nat)
    requires 0x10000 <= c <= 0x10FFFF
    ensures FromUtf8(ToUtf8(c)) == c && |ToUtf8(c)| == 4 == Utf8Length(ToUtf8(c)[0])
  {
    hide Low, ContinuationByte;
    var a := c / 0x40;
    var b := a / 0x40;
    Shifts(c);
    Digit(c);
    Digit(a);
    Digit(b);
    Marked(c);
    Marked(a);
    Marked(b);
    assert c == (b / 0x40) * 0x40000 + (b % 0x40) * 0x1000 + (a % 0x40) * 0x40 + c % 0x40;
  }

  lemma TailBytes(c: nat)
    requires CodePoint(c)
    ensures forall i :: 0 < i < |ToUtf8(c)| ==> 0x80 <= ToUtf8(c)[i] as int < 0xC0
    ensures ToUtf8(c) != "" && ToUtf8(c)[0] != '\0'
  {
    hide ContinuationByte;
    Marked(c);
    Marked(c / 0x40);
    Marked(c / 0x1000);
  }

  /** A lead byte tells the length of its encoding; the bytes behind it are continuation
      bytes; there is no NUL among them; and they stand for the code point. */
  lemma OneCharacter(c: nat)
    requires CodePoint(c)
    ensures var s := ToUtf8(c);
            && s != "" && |s| == Utf8Length(s[0])
            && (forall i :: 0 < i < |s| ==> 0x80 <= s[i] as int < 0xC0)
            && '\0' !in s && FromUtf8(s) == c
  {
    TailBytes(c);
    hide ContinuationByte;
    if 0x80 <= c < 0x800 {
      TwoBytes(c);
    } else if 0x800 <= c < 0x10000 {
      ThreeBytes(c);
    } else if 0x10000 <= c {
      FourBytes(c);
    }
    hide FromUtf8, ToUtf8, Utf8Length;
  }

  lemma {:induction false} AllCharacters(cps: seq<nat>)
    requires forall i :: 0 <= i < |cps| ==> CodePoint(cps[i])
    ensures Characters(EncodeAll(cps)) == seq(|cps|, i requires 0 <= i < |cps| => ToUtf8(cps[i]))
    ensures Whole(Encoding.Utf8, EncodeAll(cps)) && '\0' !in EncodeAll(cps)
  {
    if cps != [] {
      var c, rest := ToUtf8(cps[0]), EncodeAll(cps[1..]);
      OneCharacter(cps[0]);
      AllCharacters(cps[1..]);
      hide ToUtf8;
      assert (c + rest)[..|c|] == c && (c + rest)[|c|..] == rest;
    }
  }

  /** Code points go through their encodings unharmed: the table finds their boundaries and the bytes their values. */
  lemma Utf8RoundTrip(cps: seq<nat>)
    requires forall i :: 0 <= i < |cps| ==> CodePoint(cps[i])
    ensures DecodeAll(EncodeAll(cps)) == cps
  {
    hide FromUtf8, ToUtf8, Characters, EncodeAll;
    forall i | 0 <= i < |cps|
      ensures ToUtf8(cps[i]) != ""
    {
      OneCharacter(cps[i]);
    }
    AllCharacters(cps);
    forall i | 0 <= i < |cps|
      ensures FromUtf8(ToUtf8(cps[i])) == cps[i]
    {
      OneCharacter(cps[i]);
    }
  }

  // ---- Known characters ----

  /** The examples of section 7 of RFC 3629, the borders of the four lengths, and what is too large for all of them. */
  lemma KnownCharacters()
    ensures ToUtf8(0x41) == ['\U{41}'] && ToUtf8(0x7F) == ['\U{7F}']
    ensures ToUtf8(0x80) == ['\U{C2}', '\U{80}'] && ToUtf8(0x391) == ['\U{CE}', '\U{91}']
    ensures ToUtf8(0x7FF) == ['\U{DF}', '\U{BF}'] && ToUtf8(0x800) == ['\U{E0}', '\U{A0}', '\U{80}']
    ensures ToUtf8(0x2262) == ['\U{E2}', '\U{89}', '\U{A2}'] && ToUtf8(0xD55C) == ['\U{ED}', '\U{95}', '\U{9C}']
    ensures ToUtf8(0x65E5) == ['\U{E6}', '\U{97}', '\U{A5}'] && ToUtf8(0xFEFF) == ['\U{EF}', '\U{BB}', '\U{BF}']
    ensures ToUtf8(0xFFFF) == ['\U{EF}', '\U{BF}', '\U{BF}']
    ensures ToUtf8(0x10000) == ['\U{F0}', '\U{90}', '\U{80}', '\U{80}']
    ensures ToUtf8(0x233B4) == ['\U{F0}', '\U{A3}', '\U{8E}', '\U{B4}']
    ensures ToUtf8(0x10FFFF) == ['\U{F4}', '\U{8F}', '\U{BF}', '\U{BF}']
    ensures forall c: nat :: c >= 0x200000 ==> ToUtf8(c) == ""
  {}

  /** The byte table has an entry above one exactly for the bytes that begin the encoding of a code point beyond
      ASCII. */
  lemma LeadBytes(c: char)
    ensures Utf8Length(c) > 1 <==> exists p: nat :: 0x80 <= p <= 0x10FFFF && [c] <= ToUtf8(p)
  {
    if Utf8Length(c) > 1 {
      var b := c as int;
      var p: nat := if b < 0xE0 then (b - 0xC0) * 0x40
                    else if b == 0xE0 then 0x800
                    else if b < 0xF0 then (b - 0xE0) * 0x1000
                    else if b == 0xF0 then 0x10000
                    else (b - 0xF0) * 0x40000;
      assert [c] <= ToUtf8(p);
    }
    if p: nat :| 0x80 <= p <= 0x10FFFF && [c] <= ToUtf8(p) {
      OneCharacter(p);
    }
  }
}
