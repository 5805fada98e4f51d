// Printing an Oracle NUMBER (oraclefilter.c): an exponent byte and a mantissa
// in base 100 become decimal text.
module OracleNumber {

  type Byte = b: int | 0 <= b < 256

  // ---- What is printed ----

  function Digit(n: nat): char
    requires n < 10
  {
    ('0' as int + n) as char
  }

  /** "%02d", for numbers below 100; PrintfNum prints nothing for others. */
  function TwoDigits(n: nat): string {
    if n < 100 then [Digit(n / 10), Digit(n % 10)] else ""
  }

  /** "%d", for a byte. */
  function Decimal(n: nat): string
    requires n < 256
  {
    if n < 10 then [Digit(n)]
    else if n < 100 then [Digit(n / 10), Digit(n % 10)]
    else [Digit(n / 100), Digit(n / 10 % 10), Digit(n % 10)]
  }

  /** The pairs of digits from the `i`-th mantissa byte on, with the point where the integer part ends. */
  function Body(pairs: seq<Byte>, i: nat, intlen: nat): string {
    if pairs == [] then ""
    else
      (if i == intlen + 1 then (if intlen == 0 then "0." else ".") else "") +
      (if i == 1 && i < intlen then Decimal(pairs[0]) else TwoDigits(pairs[0])) + Body(pairs[1..], i + 1, intlen)
  }

  function Zeros(n: int): string {
    if n <= 0 then "" else "00" + Zeros(n - 1)
  }

  /** The digits of a number: its pairs, and pairs of zeros up to the point. */
  function Digits(pairs: seq<Byte>, intlen: nat): string {
    Body(pairs, 1, intlen) + if pairs == [] then "" else Zeros(intlen - |pairs|)
  }

  /** The byte arithmetic on one mantissa byte wraps around. */
  function Less(a: int, b: int): Byte {
    (a - b) % 256
  }

  function PositivePairs(data: seq<Byte>): (r: seq<Byte>)
    ensures |r| == |data| && forall i :: 0 <= i < |data| ==> r[i] == Less(data[i], 1)
  {
    seq(|data|, i requires 0 <= i < |data| => Less(data[i], 1))
  }

  function NegativePairs(data: seq<Byte>): (r: seq<Byte>)
    ensures |r| == |data| && forall i :: 0 <= i < |data| ==> r[i] == Less(101, data[i])
  {
    seq(|data|, i requires 0 <= i < |data| => Less(101, data[i]))
  }

  /** What PrintData appends for a NUMBER. */
  function Printed(data: seq<Byte>): string
    requires data != [] && data[0] < 0x3f ==> |data| >= 2
  {
    if data == [] then "NULL|"
    else if data[0] < 0x3f then
      if data[1] == 0 then "NULL|"
      else (if |data| > 2 then "-" else "") + Digits(NegativePairs(data[1..|data| - 1]), 63 - data[0]) + "|"
    else if data[0] >= 0xc0 then Digits(PositivePairs(data[1..]), data[0] - 192) + "|"
    else if data[0] >= 0x80 then "0|"
    else ""
  }

  // ---- The loops ----

  lemma BodyStep(done: string, pairs: seq<Byte>, i: nat, intlen: nat)
    requires 0 < i <= |pairs|
    ensures done + Body(pairs[i - 1..], i, intlen) ==
            done + (if i == intlen + 1 then (if intlen == 0 then "0." else ".") else "") +
              (if i == 1 && i < intlen then Decimal(pairs[i - 1]) else TwoDigits(pairs[i - 1])) +
              Body(pairs[i..], i + 1, intlen)
  {
    hide Decimal, TwoDigits;
    var rest := pairs[i - 1..];
    assert rest[1..] == pairs[i..] && rest[0] == pairs[i - 1];
    var a := if i == intlen + 1 then (if intlen == 0 then "0." else ".") else "";
    var b := if i == 1 && i < intlen then Decimal(pairs[i - 1]) else TwoDigits(pairs[i - 1]);
    assert done + (a + b + Body(pairs[i..], i + 1, intlen)) == done + a + b + Body(pairs[i..], i + 1, intlen);
  }

  /** The loop over the mantissa, which appends to the result; `pairs` is what the bytes stand for. */
  method PrintPairs(pairs: seq<Byte>, intlen: nat, result: string) returns (out: string)
    ensures out == result + Body(pairs, 1, intlen)
  {
    hide Body, Decimal, TwoDigits;
    out := result;
    var i := 1;
    assert pairs[0..] == pairs;
    while i <= |pairs|
      invariant 1 <= i <= |pairs| + 1
      invariant out + Body(pairs[i - 1..], i, intlen) == result + Body(pairs, 1, intlen)
    {
      BodyStep(out, pairs, i, intlen);
      if i - 1 == intlen {
        if intlen == 0 {
          out := out + "0";
        }
        out := out + ".";
      }
      if i == 1 && i < intlen {
        out := out + Decimal(pairs[i - 1]);
      } else {
        out := out + TwoDigits(pairs[i - 1]);
      }
      i := i + 1;
    }
    assert pairs[i - 1..] == [];
    NoPairs(out, i, intlen);
  }

  lemma NoPairs(done: string, i: nat, intlen: nat)
    ensures done + Body([], i, intlen) == done
  {}

  method PrintZeros(n: int, result: string) returns (out: string)
    ensures out == result + Zeros(n)
  {
    out := result;
    var i := 0;
    while i < n
      invariant i == 0 || i <= n
      invariant out + Zeros(n - i) == result + Zeros(n)
    {
      assert out + ("00" + Zeros(n - i - 1)) == out + "00" + Zeros(n - i - 1);
      out := out + "00";
      i := i + 1;
    }
  }

  /** The NUMBER branch of PrintData. */
  method PrintNumber(data: seq<Byte>, result: string) returns (out: string)
    requires data != [] && data[0] < 0x3f ==> |data| >= 2
    ensures out == result + Printed(data)
    ensures data == [] || (data[0] < 0x3f && data[1] == 0) ==> out == result + "NULL|"
    ensures data != [] && 0x3f <= data[0] < 0x80 ==> out == result
    ensures data != [] && 0x80 <= data[0] < 0xc0 ==> out == result + "0|"
  {
    hide Body, Zeros;
    out := result;
    if |data| == 0 {
      return result + "NULL|";
    }
    if data[0] < 0x3f {
      var nonzero := false;
      var i := 0;
      while i < |data|
        invariant 0 <= i <= |data| && !nonzero && (i > 0 ==> data[1] == 0)
      {
        if data[1] != 0 {
          nonzero := true;
          break;
        }
        i := i + 1;
      }
      if !nonzero {
        return result + "NULL|";
      }
      var pairs, intlen := NegativePairs(data[1..|data| - 1]), 63 - data[0];
      if |data| - 2 > 0 {
        out := out + "-";
      }
      out := PrintPairs(pairs, intlen, out);
      if |data| - 2 > 0 && intlen > |data| - 2 {
        out := PrintZeros(intlen + 2 - |data|, out);
      }
      out := out + "|";
      ZerosAway(intlen - |pairs|);
      assert out == result + ((if |data| > 2 then "-" else "") + Digits(pairs, intlen) + "|");
    } else if data[0] >= 0xc0 {
      var pairs, intlen := PositivePairs(data[1..]), data[0] - 192;
      out := PrintPairs(pairs, intlen, out);
      if |data| - 1 > 0 && intlen > |data| - 1 {
        out := PrintZeros(intlen + 1 - |data|, out);
      }
      out := out + "|";
      ZerosAway(intlen - |pairs|);
      assert out == result + (Digits(pairs, intlen) + "|");
    } else if data[0] >= 0x80 {
      out := out + "0|";
    }
  }

  lemma ZerosAway(n: int)
    ensures n <= 0 ==> Zeros(n) == ""
  {}

  // ---- What the text means ----

  predicate IsDigit(c: char) {
    '0' <= c <= '9'
  }

  function DigitValue(c: char): real {
    (c as int - '0' as int) as real
  }

  /** The digits behind a point. */
  function Fraction(s: string): real {
    if s == "" then 0.0 else (DigitValue(s[0]) + Fraction(s[1..])) / 10.0
  }

  /** Digits with or without a point, read from the left onto what has been read before. */
  function ReadOn(s: string, acc: real): real
    decreases |s|
  {
    if s == "" then acc
    else if s[0] == '.' then acc + Fraction(s[1..])
    else ReadOn(s[1..], acc * 10.0 + DigitValue(s[0]))
  }

  function TextValue(s: string): real {
    if s != "" && s[0] == '-' then -ReadOn(s[1..], 0.0) else ReadOn(s, 0.0)
  }

  function Pow100(e: int): real
    decreases if e < 0 then -e else e
  {
    if e == 0 then 1.0 else if e > 0 then 100.0 * Pow100(e - 1) else Pow100(e + 1) / 100.0
  }

  /** The sum of the pairs, the first one with the weight of 100 to the power `e`. */
  function Sum(pairs: seq<Byte>, e: int): real
    decreases |pairs|
  {
    if pairs == [] then 0.0 else pairs[0] as real * Pow100(e) + Sum(pairs[1..], e - 1)
  }

  lemma Pow100Step(e: int)
    ensures Pow100(e) == 100.0 * Pow100(e - 1)
  {}

  lemma {:induction false} SumShift(pairs: seq<Byte>, e: int)
    ensures Sum(pairs, e) == 100.0 * Sum(pairs, e - 1)
  {
    if pairs != [] {
      Pow100Step(e);
      SumShift(pairs[1..], e - 1);
      assert pairs[0] as real * (100.0 * Pow100(e - 1)) == 100.0 * (pairs[0] as real * Pow100(e - 1));
    }
  }

  lemma PairValue(n: nat)
    requires n < 100
    ensures DigitValue(Digit(n / 10)) * 10.0 + DigitValue(Digit(n % 10)) == n as real
    ensures Digit(n / 10) != '.' && Digit(n % 10) != '.'
  {}

  lemma ReadPair(n: nat, rest: string, acc: real)
    requires n < 100
    ensures ReadOn(TwoDigits(n) + rest, acc) == ReadOn(rest, acc * 100.0 + n as real)
    ensures Fraction(TwoDigits(n) + rest) == (n as real + Fraction(rest)) / 100.0
  {
    PairValue(n);
    var a, b := Digit(n / 10), Digit(n % 10);
    var s := TwoDigits(n) + rest;
    assert s[0] == a && s[1..][0] == b && s[1..][1..] == rest;
    hide Digit, DigitValue;
    assert ReadOn(s, acc) == ReadOn(s[1..], acc * 10.0 + DigitValue(a));
    assert ReadOn(s[1..], acc * 10.0 + DigitValue(a)) ==
           ReadOn(rest, (acc * 10.0 + DigitValue(a)) * 10.0 + DigitValue(b));
    assert Fraction(s) == (DigitValue(a) + Fraction(s[1..])) / 10.0;
    assert Fraction(s[1..]) == (DigitValue(b) + Fraction(rest)) / 10.0;
  }

  lemma ReadFirst(n: nat, rest: string)
    requires n < 100
    ensures ReadOn(Decimal(n) + rest, 0.0) == ReadOn(rest, n as real)
  {
    if n < 10 {
      var s := Decimal(n) + rest;
      assert s[1..] == rest;
    } else {
      ReadPair(n, rest, 0.0);
    }
  }

  predicate Pairs(pairs: seq<Byte>) {
    forall i :: 0 <= i < |pairs| ==> pairs[i] < 100
  }

  /** Behind the point, the pairs count downwards from the hundredths. */
  lemma {:induction false} FractionValue(pairs: seq<Byte>, i: nat, intlen: nat)
    requires Pairs(pairs) && i > intlen + 1
    ensures Fraction(Body(pairs, i, intlen)) == Sum(pairs, -1)
  {
    if pairs != [] {
      var rest := Body(pairs[1..], i + 1, intlen);
      FractionValue(pairs[1..], i + 1, intlen);
      ReadPair(pairs[0], rest, 0.0);
      SumShift(pairs[1..], -1);
      assert Body(pairs, i, intlen) == "" + TwoDigits(pairs[0]) + rest == TwoDigits(pairs[0]) + rest;
      hide Fraction, TwoDigits, Body;
      assert Pow100(-1) == 1.0 / 100.0;
    }
  }

  lemma {:induction false} ZerosValue(n: nat, acc: real)
    ensures ReadOn(Zeros(n), acc) == acc * Pow100(n)
  {
    if n > 0 {
      ZerosValue(n - 1, acc * 100.0 + 0.0);
      ReadPair(0, Zeros(n - 1), acc);
      assert TwoDigits(0) == "00";
      hide ReadOn;
      assert acc * 100.0 * Pow100(n - 1) == acc * (100.0 * Pow100(n - 1));
    }
  }

  lemma SumStep(pairs: seq<Byte>, e: int, acc: real)
    requires pairs != []
    ensures (acc * 100.0 + pairs[0] as real) * Pow100(e) + Sum(pairs[1..], e - 1) ==
            acc * Pow100(e + 1) + Sum(pairs, e)
  {
    Pow100Step(e + 1);
    var p, d := Pow100(e), pairs[0] as real;
    assert (acc * 100.0 + d) * p == acc * (100.0 * p) + d * p;
  }

  lemma BodyInside(pairs: seq<Byte>, i: nat, intlen: nat)
    requires pairs != [] && 1 < i <= intlen
    ensures Body(pairs, i, intlen) == TwoDigits(pairs[0]) + Body(pairs[1..], i + 1, intlen)
  {
    hide TwoDigits;
  }

  lemma BodyAtPoint(pairs: seq<Byte>, intlen: nat)
    requires pairs != [] && intlen > 0
    ensures Body(pairs, intlen + 1, intlen) == "." + (TwoDigits(pairs[0]) + Body(pairs[1..], intlen + 2, intlen))
  {
    hide TwoDigits;
  }

  /** From the second pair on, while the point is still ahead. */
  lemma {:induction false} BodyValue(pairs: seq<Byte>, i: nat, intlen: nat, acc: real)
    requires Pairs(pairs) && 1 < i <= intlen + 1
    ensures var r := intlen + 1 - i;
            ReadOn(Body(pairs, i, intlen) + Zeros(r - |pairs|), acc) == acc * Pow100(r) + Sum(pairs, r - 1)
    decreases |pairs|
  {
    var r := intlen + 1 - i;
    hide ReadOn, TwoDigits, Body;
    if pairs == [] {
      NoPairs("", i, intlen);
      assert Body(pairs, i, intlen) + Zeros(r) == "" + Body(pairs, i, intlen) + Zeros(r) == Zeros(r);
      ZerosValue(r, acc);
    } else {
      var rest := Body(pairs[1..], i + 1, intlen);
      if r == 0 {
        ZerosAway(r - |pairs|);
        BodyAtPoint(pairs, intlen);
        var s := TwoDigits(pairs[0]) + rest;
        assert Body(pairs, i, intlen) + "" == "." + s;
        PointValue(s, acc);
        ReadPair(pairs[0], rest, 0.0);
        FractionValue(pairs[1..], i + 1, intlen);
        FractionSum(pairs);
      } else {
        BodyInside(pairs, i, intlen);
        var z := Zeros(r - |pairs|);
        assert TwoDigits(pairs[0]) + rest + z == TwoDigits(pairs[0]) + (rest + z);
        ReadPair(pairs[0], rest + z, acc);
        BodyValue(pairs[1..], i + 1, intlen, acc * 100.0 + pairs[0] as real);
        SumStep(pairs, r - 1, acc);
      }
    }
  }

  lemma PointValue(s: string, acc: real)
    ensures ReadOn("." + s, acc) == acc + Fraction(s)
  {
    assert ("." + s)[1..] == s;
  }

  lemma FractionSum(pairs: seq<Byte>)
    requires pairs != []
    ensures (pairs[0] as real + Sum(pairs[1..], -1)) / 100.0 == Sum(pairs, -1)
  {
    SumShift(pairs[1..], -1);
    assert Pow100(-1) == 1.0 / 100.0;
  }

  lemma DigitsFromPoint(pairs: seq<Byte>)
    requires Pairs(pairs) && pairs != []
    ensures ReadOn(Digits(pairs, 0), 0.0) == Sum(pairs, -1) && Digits(pairs, 0) != "" && Digits(pairs, 0)[0] == '0'
  {
    hide ReadOn, Fraction, Sum, Pow100, DigitValue, TwoDigits;
    var rest := Body(pairs[1..], 2, 0);
    ZerosAway(-|pairs|);
    var s := TwoDigits(pairs[0]) + rest;
    assert Digits(pairs, 0) == "0." + s;
    LeadingZero(s);
    ReadPair(pairs[0], rest, 0.0);
    FractionValue(pairs[1..], 2, 0);
    FractionSum(pairs);
  }

  function FirstPair(n: nat, intlen: nat): string
    requires n < 256
  {
    if intlen > 1 then Decimal(n) else TwoDigits(n)
  }

  lemma ReadFirstPair(n: nat, intlen: nat, rest: string)
    requires n < 100
    ensures ReadOn(FirstPair(n, intlen) + rest, 0.0) == ReadOn(rest, n as real)
    ensures FirstPair(n, intlen) != "" && IsDigit(FirstPair(n, intlen)[0])
  {
    hide ReadOn;
    ReadFirst(n, rest);
    ReadPair(n, rest, 0.0);
  }

  lemma DigitsParts(pairs: seq<Byte>, intlen: nat)
    requires pairs != [] && intlen > 0
    ensures Digits(pairs, intlen) ==
            FirstPair(pairs[0], intlen) + (Body(pairs[1..], 2, intlen) + Zeros(intlen - 1 - |pairs[1..]|))
  {
    hide Decimal, TwoDigits, Zeros;
    var first, rest, z := FirstPair(pairs[0], intlen), Body(pairs[1..], 2, intlen), Zeros(intlen - |pairs|);
    assert Body(pairs, 1, intlen) == "" + first + rest == first + rest;
    assert first + rest + z == first + (rest + z);
  }

  /** The digits printed for a mantissa denote exactly the sum of its pairs, the first with
      weight 100 to the power `intlen` - 1. */
  lemma DigitsValue(pairs: seq<Byte>, intlen: nat)
    requires Pairs(pairs) && pairs != []
    ensures ReadOn(Digits(pairs, intlen), 0.0) == Sum(pairs, intlen - 1)
    ensures Digits(pairs, intlen) != "" && IsDigit(Digits(pairs, intlen)[0])
  {
    hide ReadOn, Fraction, Sum, Pow100, DigitValue, Digits, Body, Zeros, FirstPair;
    if intlen == 0 {
      DigitsFromPoint(pairs);
    } else {
      var rest := Body(pairs[1..], 2, intlen) + Zeros(intlen - 1 - |pairs[1..]|);
      DigitsParts(pairs, intlen);
      ReadFirstPair(pairs[0], intlen, rest);
      BodyValue(pairs[1..], 2, intlen, pairs[0] as real);
      SumStep(pairs, intlen - 1, 0.0);
    }
  }

  lemma LeadingZero(s: string)
    ensures ReadOn("0." + s, 0.0) == Fraction(s)
  {
    PointValue(s, 0.0);
    assert ("0." + s)[1..] == "." + s;
  }

  // ---- Numbers as Oracle stores them ----

  /** The bytes of a number with these pairs, of which `intlen` stand before the point;
      where that is negative, so many pairs of zeros follow the point. Zero has no pairs. */
  function Stored(negative: bool, pairs: seq<Byte>, intlen: int): seq<Byte>
    requires Pairs(pairs) && -64 <= intlen < 63
  {
    if pairs == [] then [0x80]
    else if negative then [63 - intlen] + seq(|pairs|, i requires 0 <= i < |pairs| => 101 - pairs[i]) + [102]
    else [192 + intlen] + seq(|pairs|, i requires 0 <= i < |pairs| => pairs[i] + 1)
  }

  /** The value of a stored number. */
  function Value(negative: bool, pairs: seq<Byte>, intlen: int): real {
    if negative then -Sum(pairs, intlen - 1) else Sum(pairs, intlen - 1)
  }

  /** A number is printed right: its value in decimal text, and a closing bar. */
  predicate PrintedRight(negative: bool, pairs: seq<Byte>, intlen: int)
    requires Pairs(pairs) && -64 <= intlen < 63
  {
    var p := Printed(Stored(negative, pairs, intlen));
    p != "" && p[|p| - 1] == '|' && TextValue(p[..|p| - 1]) == Value(negative, pairs, intlen)
  }

  lemma {:induction false} PowPositive(e: int)
    ensures Pow100(e) > 0.0
    decreases if e < 0 then -e else e
  {
    if e > 0 {
      PowPositive(e - 1);
    } else if e < 0 {
      PowPositive(e + 1);
    }
  }

  lemma {:induction false} SumPositive(pairs: seq<Byte>, e: int)
    ensures Sum(pairs, e) >= 0.0
    ensures pairs != [] && pairs[0] > 0 ==> Sum(pairs, e) > 0.0
    decreases |pairs|
  {
    if pairs != [] {
      PowPositive(e);
      SumPositive(pairs[1..], e - 1);
      assert pairs[0] > 0 ==> pairs[0] as real * Pow100(e) > 0.0;
    }
  }

  lemma ZeroText()
    ensures TextValue("0") == 0.0
  {
    assert "0"[1..] == "";
  }

  lemma LargeIsRight(negative: bool, pairs: seq<Byte>, intlen: nat)
    requires Pairs(pairs) && pairs != [] && intlen < 63 && (negative ==> intlen > 0)
    ensures PrintedRight(negative, pairs, intlen)
  {
    hide ReadOn, Sum, Digits;
    var data := Stored(negative, pairs, intlen);
    var p := Printed(data);
    DigitsValue(pairs, intlen);
    if negative {
      assert NegativePairs(data[1..|data| - 1]) == pairs;
      assert p[..|p| - 1] == "-" + Digits(pairs, intlen);
      assert p[..|p| - 1][1..] == Digits(pairs, intlen);
    } else {
      assert PositivePairs(data[1..]) == pairs;
      assert p[..|p| - 1] == Digits(pairs, intlen);
    }
  }

  /** A stored number is printed right exactly when it is zero, or its exponent leaves it an integer
      part, or, for a positive one, at least puts its first pair right behind the point. */
  lemma PrintedExactly(negative: bool, pairs: seq<Byte>, intlen: int)
    requires Pairs(pairs) && (pairs != [] ==> pairs[0] > 0) && -64 <= intlen < 63
    ensures PrintedRight(negative, pairs, intlen) <==> pairs == [] || intlen >= if negative then 1 else 0
  {
    if pairs == [] {
      ZeroText();
      assert "0|"[..1] == "0";
    } else if intlen >= if negative then 1 else 0 {
      LargeIsRight(negative, pairs, intlen);
    } else {
      hide Digits, TextValue;
      ZeroText();
      SumPositive(pairs, intlen - 1);
      assert negative || "0|"[..1] == "0";
    }
  }

  /** Zero is the single byte 0x80, and is printed as 0; a digit of the text means what it says. */
  lemma ZeroIsPrinted(negative: bool, intlen: int)
    requires -64 <= intlen < 63
    ensures Stored(negative, [], intlen) == [0x80] && Value(negative, [], intlen) == 0.0 && Printed([0x80]) == "0|"
    ensures TextValue("0") == 0.0 && TextValue("27.5") == 27.5 && TextValue("-0.03") == -0.03
  {
    ZeroText();
    assert "27.5"[1..] == "7.5" && "7.5"[1..] == ".5" && ".5"[1..] == "5" && "5"[1..] == "";
    assert "-0.03"[1..] == "0.03" && "0.03"[1..] == ".03" && ".03"[1..] == "03" && "03"[1..] == "3" && "3"[1..] == "";
    assert Fraction("5") == 0.5 && Fraction("3") == 0.3 && Fraction("03") == 0.03;
    assert ReadOn(".5", 27.0) == 27.5 && ReadOn("7.5", 2.0) == 27.5;
    assert ReadOn(".03", 0.0) == 0.03;
  }

  // ---- The form of the text ----

  predicate AllDigits(s: string) {
    forall i :: 0 <= i < |s| ==> IsDigit(s[i])
  }

  lemma TwoAreDigits(n: nat)
    requires n < 100
    ensures AllDigits(TwoDigits(n)) && |TwoDigits(n)| == 2
    ensures AllDigits(Decimal(n)) && |Decimal(n)| == if n < 10 then 1 else 2
    ensures n > 0 ==> Decimal(n)[0] != '0'
  {}

  lemma {:induction false} ZerosForm(n: int)
    ensures AllDigits(Zeros(n)) && |Zeros(n)| == if n <= 0 then 0 else 2 * n
  {
    if n > 0 {
      ZerosForm(n - 1);
    }
  }

  lemma {:induction false} FractionForm(pairs: seq<Byte>, i: nat, intlen: nat)
    requires Pairs(pairs) && i > intlen + 1
    ensures AllDigits(Body(pairs, i, intlen)) && |Body(pairs, i, intlen)| == 2 * |pairs|
    decreases |pairs|
  {
    hide TwoDigits, Decimal, IsDigit;
    if pairs != [] {
      TwoAreDigits(pairs[0]);
      FractionForm(pairs[1..], i + 1, intlen);
    }
  }

  /** Behind the first pair: two digits for each pair, and the point where the integer part ends. */
  lemma {:induction false} BodyForm(pairs: seq<Byte>, i: nat, intlen: nat) returns (whole: string, fraction: string)
    requires Pairs(pairs) && 2 <= i <= intlen + 1
    ensures AllDigits(whole) && AllDigits(fraction)
    ensures var k := intlen + 1 - i;
            |whole| == 2 * (if |pairs| <= k then |pairs| else k) && |fraction| == 2 * |pairs| - |whole|
    ensures Body(pairs, i, intlen) == whole + (if fraction == "" then "" else "." + fraction)
    decreases |pairs|
  {
    hide TwoDigits, Decimal, IsDigit;
    if pairs == [] {
      whole, fraction := "", "";
    } else {
      var first, rest := TwoDigits(pairs[0]), Body(pairs[1..], i + 1, intlen);
      TwoAreDigits(pairs[0]);
      if i == intlen + 1 {
        FractionForm(pairs[1..], i + 1, intlen);
        whole, fraction := "", first + rest;
        assert "." + first + rest == "." + (first + rest);
      } else {
        var w, f := BodyForm(pairs[1..], i + 1, intlen);
        whole, fraction := first + w, f;
        assert "" + first + (w + (if f == "" then "" else "." + f)) == whole + (if f == "" then "" else "." + f);
      }
    }
  }

  /** The text of a number has twice as many digits before the point as its exponent says, less one where the first
      pair has one digit only and is not the last before the point, and two for each pair behind the point, zeros
      included. With its value this leaves one text only. */
  lemma DigitsForm(pairs: seq<Byte>, intlen: nat) returns (whole: string, fraction: string)
    requires Pairs(pairs) && pairs != [] && pairs[0] > 0
    ensures AllDigits(whole) && AllDigits(fraction)
    ensures Digits(pairs, intlen) == whole + (if fraction == "" then "" else "." + fraction)
    ensures intlen == 0 ==> whole == "0"
    ensures intlen > 0 ==> |whole| == 2 * intlen - if intlen > 1 && pairs[0] < 10 then 1 else 0
    ensures intlen > 1 ==> whole[0] != '0'
    ensures |fraction| == if |pairs| <= intlen then 0 else 2 * (|pairs| - intlen)
  {
    hide TwoDigits, Decimal, IsDigit, Digits, Zeros;
    TwoAreDigits(pairs[0]);
    if intlen == 0 {
      FractionForm(pairs[1..], 2, 0);
      ZerosAway(-|pairs|);
      whole, fraction := "0", TwoDigits(pairs[0]) + Body(pairs[1..], 2, 0);
      FromPoint(pairs);
      ZeroIsDigit();
    } else {
      DigitsParts(pairs, intlen);
      var w, f := BodyForm(pairs[1..], 2, intlen);
      var n := intlen - 1 - |pairs[1..]|;
      ZerosForm(n);
      var first := FirstPair(pairs[0], intlen);
      whole, fraction := first + (w + Zeros(n)), f;
      assert first + (w + (if f == "" then "" else "." + f) + Zeros(n)) == whole + (if f == "" then "" else "." + f);
    }
  }

  lemma ZeroIsDigit()
    ensures AllDigits("0")
  {}

  lemma FromPoint(pairs: seq<Byte>)
    requires pairs != []
    ensures Digits(pairs, 0) == "0" + ("." + (TwoDigits(pairs[0]) + Body(pairs[1..], 2, 0)))
  {
    ZerosAway(-|pairs|);
    hide TwoDigits;
    var t, b := TwoDigits(pairs[0]), Body(pairs[1..], 2, 0);
    assert Body(pairs, 1, 0) == "0." + t + b;
    assert "0." + t + b + "" == "0" + ("." + (t + b));
  }

  lemma PairAhead(a: Byte, pairs: seq<Byte>, i: nat, intlen: nat)
    ensures Body([a] + pairs, i, intlen) ==
            (if i == intlen + 1 then (if intlen == 0 then "0." else ".") else "") +
              (if i == 1 && i < intlen then Decimal(a) else TwoDigits(a)) + Body(pairs, i + 1, intlen)
    ensures Body([], i, intlen) == ""
  {
    assert ([a] + pairs)[1..] == pairs;
    hide Decimal, TwoDigits;
  }

  lemma OnePair(a: Byte, intlen: nat)
    requires intlen <= 3
    ensures Digits([a], intlen) == if intlen == 0 then "0." + TwoDigits(a)
                                   else if intlen == 1 then TwoDigits(a)
                                   else if intlen == 2 then Decimal(a) + "00"
                                   else Decimal(a) + "0000"
  {
    PairAhead(a, [], 1, intlen);
    assert [a] + [] == [a];
    assert Zeros(0) == "" && Zeros(-1) == "" && Zeros(1) == "00" + Zeros(0) && Zeros(2) == "00" + Zeros(1);
    hide Decimal, TwoDigits, Body, Zeros;
  }

  lemma MorePairs()
    ensures Digits([1, 23, 45], 2) == "123.45" && Digits([12, 50], 1) == "12.50"
  {
    PairAhead(1, [23, 45], 1, 2);
    PairAhead(23, [45], 2, 2);
    PairAhead(45, [], 3, 2);
    PairAhead(12, [50], 1, 1);
    PairAhead(50, [], 2, 1);
    assert [1] + [23, 45] == [1, 23, 45] && [23] + [45] == [23, 45] && [45] + [] == [45];
    assert [12] + [50] == [12, 50] && [50] + [] == [50];
    hide Body;
    ZerosAway(-1);
  }

  lemma PositivePrinted(data: seq<Byte>, pairs: seq<Byte>, intlen: nat)
    requires |data| == |pairs| + 1 && intlen < 63 && data[0] == 192 + intlen
    requires forall i :: 0 <= i < |pairs| ==> pairs[i] < 255 && data[i + 1] == pairs[i] + 1
    ensures Printed(data) == Digits(pairs, intlen) + "|"
  {
    hide Digits;
    assert PositivePairs(data[1..]) == pairs;
  }

  lemma NegativePrinted(pairs: seq<Byte>)
    requires pairs == [1, 23, 45]
    ensures Printed([61, 100, 78, 56, 102]) == "-" + Digits(pairs, 2) + "|"
  {
    hide Digits;
    assert [61, 100, 78, 56, 102][1..4] == [100, 78, 56] && NegativePairs([100, 78, 56]) == pairs;
  }

  lemma WholePrinted()
    ensures Printed([0xc1, 6]) == "05|" && Printed([0xc2, 6]) == "500|" && Printed([0xc3, 2]) == "10000|"
  {
    hide *;
    WholeDigits();
    PositivePrinted([0xc1, 6], [5], 1);
    PositivePrinted([0xc2, 6], [5], 2);
    PositivePrinted([0xc3, 2], [1], 3);
  }

  lemma WholeDigits()
    ensures Digits([5], 1) == "05" && Digits([5], 2) == "500" && Digits([1], 3) == "10000"
  {
    OnePair(5, 1);
    OnePair(5, 2);
    OnePair(1, 3);
    hide Digits;
  }

  lemma HalfPrinted()
    ensures Printed([0xc0, 51]) == "0.50|"
  {
    OnePair(50, 0);
    hide Digits, Printed;
    PositivePrinted([0xc0, 51], [50], 0);
    assert "0." + "50" == "0.50";
  }

  lemma MorePrinted()
    ensures Printed([0xc2, 2, 24, 46]) == "123.45|" && Printed([0xc1, 13, 51]) == "12.50|"
  {
    hide *;
    MorePairs();
    PositivePrinted([0xc1, 13, 51], [12, 50], 1);
    PositivePrinted([0xc2, 2, 24, 46], [1, 23, 45], 2);
  }

  /** For instance 5, 500, 10000, 123.45, 12.5, 0.5 and -123.45. */
  lemma NumbersArePrinted()
    ensures Printed([0xc1, 6]) == "05|" && Printed([0xc2, 6]) == "500|" && Printed([0xc3, 2]) == "10000|"
    ensures Printed([0xc2, 2, 24, 46]) == "123.45|" && Printed([0xc1, 13, 51]) == "12.50|"
    ensures Printed([0xc0, 51]) == "0.50|" && Printed([61, 100, 78, 56, 102]) == "-123.45|"
  {
    hide *;
    WholePrinted();
    HalfPrinted();
    MorePrinted();
    MorePairs();
    NegativePrinted([1, 23, 45]);
    assert "-" + "123.45" + "|" == "-123.45|";
  }

  /** For instance, 0.0050 prints as 0, and -0.50 prints nothing at all. */
  lemma SmallNumbersAreLost()
    ensures Stored(false, [50], -1) == [0xbf, 51] && Printed([0xbf, 51]) == "0|"
    ensures Stored(true, [50], 0) == [0x3f, 51, 102] && Printed([0x3f, 51, 102]) == ""
  {}
}
