// Character references: decimal and hexadecimal ones of any length, the five
// named ones, and what is left of anything else that starts with '&'.
module XmlReferences {
  import opened Options
  import opened XmlText

  const DIGITS := "0123456789"
  const SMALL_HEX := "0123456789abcdef"
  const CAPITAL_HEX := "0123456789ABCDEF"

  /** The character is a digit of that value. */
  predicate DigitIs(c: char, v: nat, hex: bool) {
    if hex then v < 16 && c in [SMALL_HEX[v], CAPITAL_HEX[v]] else v < 10 && c == DIGITS[v]
  }

  predicate DigitsAre(s: string, vs: seq<nat>, hex: bool) {
    |s| == |vs| && forall i :: 0 <= i < |s| ==> DigitIs(s[i], vs[i], hex)
  }

  /** The number that digits stand for. */
  function Number(vs: seq<nat>, base: nat): nat {
    if vs == [] then 0 else Number(vs[..|vs| - 1], base) * base + vs[|vs| - 1]
  }

  function Base(hex: bool): nat {
    if hex then 16 else 10
  }

  lemma DigitValue(c: char, v: nat, hex: bool)
    requires DigitIs(c, v, hex)
    ensures (if hex then HexValue(c) else DecValue(c)) == Some(v) && c !in {';', '#', 'x', '&'}
  {
    if hex {
      assert v < 10 ==> SMALL_HEX[v] as int == '0' as int + v && CAPITAL_HEX[v] == SMALL_HEX[v];
      assert v >= 10 ==> SMALL_HEX[v] as int == 'a' as int + v - 10 && CAPITAL_HEX[v] as int == 'A' as int + v - 10;
    } else {
      assert DIGITS[v] as int == '0' as int + v;
    }
  }

  /** And there are no other digits. */
  lemma WhichDigit(c: char, hex: bool) returns (v: nat)
    requires (if hex then HexValue(c) else DecValue(c)).Some?
    ensures DigitIs(c, v, hex)
  {
    v := (if hex then HexValue(c) else DecValue(c)).value;
    DigitCharacter(v);
  }

  lemma DigitCharacter(v: nat)
    requires v < 16
    ensures v < 10 ==> DIGITS[v] as int == '0' as int + v && SMALL_HEX[v] == CAPITAL_HEX[v] == DIGITS[v]
    ensures v >= 10 ==> SMALL_HEX[v] as int == 'a' as int + v - 10 && CAPITAL_HEX[v] as int == 'A' as int + v - 10
  {}

  // ---- Arithmetic of 32-bit words ----

  lemma WrapSum(a: int, k: int)
    ensures (a + WORD * k) % WORD == a % WORD
  {}

  lemma WrapProduct(a: nat, h: nat)
    ensures (a % WORD) * h % WORD == a * h % WORD
  {
    var q := a / WORD;
    assert a == WORD * q + a % WORD;
    assert a * h == (a % WORD) * h + WORD * (q * h);
    WrapSum((a % WORD) * h, q * h);
  }

  lemma WrapStep(ucs: nat, mult: nat, base: nat, v: nat, h: nat)
    ensures ((ucs + mult * v % WORD) % WORD + (mult * base % WORD) * h) % WORD == (ucs + mult * (h * base + v)) % WORD
  {
    var x := mult * base;
    WrapProduct(x, h);
    var p, q := (ucs + mult * v % WORD) / WORD, mult * v / WORD;
    assert mult * (h * base + v) == x * h + mult * v;
    var y := (x % WORD) * h;
    assert y % WORD == x * h % WORD;
    WrapSums(ucs, mult * v, y, x * h);
  }

  lemma WrapSums(u: nat, a: nat, y: nat, z: nat)
    requires y % WORD == z % WORD
    ensures ((u + a % WORD) % WORD + y) % WORD == (u + (z + a)) % WORD
  {
    var i, j, k, l := a / WORD, (u + a % WORD) / WORD, y / WORD, z / WORD;
    assert a == WORD * i + a % WORD;
    assert u + a % WORD == WORD * j + (u + a % WORD) % WORD;
    assert y == WORD * k + y % WORD && z == WORD * l + z % WORD;
    assert (u + a % WORD) % WORD + y == (u + (z + a)) + WORD * (k - l - i - j);
    WrapSum(u + (z + a), k - l - i - j);
  }

  // ---- Numeric references ----

  function Stop(hex: bool): char {
    if hex then 'x' else '#'
  }

  lemma WalkStep(q: string, c: char, hex: bool, v: nat, ucs: nat, mult: nat)
    requires q != "" && q[0] == Stop(hex) && DigitIs(c, v, hex)
    ensures WalkBack(q + [c], Stop(hex), Base(hex), ucs, mult) ==
            WalkBack(q, Stop(hex), Base(hex), (ucs + mult * v % WORD) % WORD, mult * Base(hex) % WORD)
  {
    DigitValue(c, v, hex);
    var p := q + [c];
    assert p[0] == q[0] && p[|p| - 1] == c && p[..|p| - 1] == q;
    hide HexValue, DecValue, DigitIs;
  }

  lemma WalkStart(q: string, hex: bool, ucs: nat, mult: nat)
    requires q != "" && q[0] == Stop(hex) && q[|q| - 1] == Stop(hex)
    ensures WalkBack(q, Stop(hex), Base(hex), ucs, mult) == Some(ucs)
  {}

  /** The value reached behind one more digit, and its weight, in 32 bits. */
  function Added(ucs: nat, mult: nat, v: nat): nat {
    (ucs + mult * v % WORD) % WORD
  }

  function Raised(mult: nat, hex: bool): nat {
    mult * Base(hex) % WORD
  }

  function Total(ucs: nat, mult: nat, n: nat): nat {
    (ucs + mult * n) % WORD
  }

  lemma NoneAdded(ucs: nat, mult: nat)
    requires ucs < WORD
    ensures Total(ucs, mult, 0) == ucs
  {
    assert mult * 0 == 0;
  }

  lemma AddedIsWord(ucs: nat, mult: nat, v: nat)
    ensures Added(ucs, mult, v) < WORD
  {}

  lemma OneMoreDigit(s: string, vs: seq<nat>, hex: bool, ucs: nat, mult: nat)
    requires DigitsAre(s, vs, hex) && s != ""
    ensures |s| == |vs| && DigitIs(s[|s| - 1], vs[|vs| - 1], hex) && DigitsAre(s[..|s| - 1], vs[..|vs| - 1], hex)
    ensures Total(Added(ucs, mult, vs[|vs| - 1]), Raised(mult, hex), Number(vs[..|vs| - 1], Base(hex))) ==
            Total(ucs, mult, Number(vs, Base(hex)))
  {
    hide *;
    NumberSteps(s, vs, hex);
    var h := Number(vs[..|vs| - 1], Base(hex));
    WrapTotals(ucs, mult, vs[|vs| - 1], h, hex, Number(vs, Base(hex)));
  }

  lemma WrapTotals(ucs: nat, mult: nat, v: nat, h: nat, hex: bool, n: nat)
    requires n == h * Base(hex) + v
    ensures Total(Added(ucs, mult, v), Raised(mult, hex), h) == Total(ucs, mult, n)
  {
    WrapStep(ucs, mult, Base(hex), v, h);
    hide Base;
  }

  lemma WalkOne(q: string, c: char, hex: bool, v: nat, ucs: nat, mult: nat)
    requires q != "" && q[0] == Stop(hex) && DigitIs(c, v, hex)
    ensures WalkBack(q + [c], Stop(hex), Base(hex), ucs, mult) ==
            WalkBack(q, Stop(hex), Base(hex), Added(ucs, mult, v), Raised(mult, hex))
  {
    hide WalkBack, Stop, Base, DigitIs;
    WalkStep(q, c, hex, v, ucs, mult);
  }

  /** Walking back over digits adds up their number, in 32 bits, whatever stands in front of the mark. */
  lemma {:induction false} DigitsAddUp(pre: string, s: string, vs: seq<nat>, hex: bool, ucs: nat, mult: nat)
    requires DigitsAre(s, vs, hex) && ucs < WORD && (pre != "" ==> pre[0] == Stop(hex))
    ensures WalkBack(pre + [Stop(hex)] + s, Stop(hex), Base(hex), ucs, mult) ==
            Some(Total(ucs, mult, Number(vs, Base(hex))))
    decreases |s|
  {
    hide *;
    var q := pre + [Stop(hex)];
    if s == "" {
      NumberSteps(s, vs, hex);
      assert q + s == q;
      WalkStart(q, hex, ucs, mult);
      NoneAdded(ucs, mult);
    } else {
      var init, c := s[..|s| - 1], s[|s| - 1];
      OneMoreDigit(s, vs, hex, ucs, mult);
      var v := vs[|vs| - 1];
      assert q + s == q + init + [c];
      StartsWithStop(pre, init, hex);
      WalkOne(q + init, c, hex, v, ucs, mult);
      AddedIsWord(ucs, mult, v);
      DigitsAddUp(pre, init, vs[..|vs| - 1], hex, Added(ucs, mult, v), Raised(mult, hex));
    }
  }

  lemma StartsWithStop(pre: string, init: string, hex: bool)
    requires pre != "" ==> pre[0] == Stop(hex)
    ensures var q := pre + [Stop(hex)] + init; q != "" && q[0] == Stop(hex)
  {
    hide Stop;
  }

  lemma NumberSteps(s: string, vs: seq<nat>, hex: bool)
    requires DigitsAre(s, vs, hex)
    ensures |s| == |vs| && (s == "" ==> Number(vs, Base(hex)) == 0)
    ensures s != "" ==>
              && DigitIs(s[|s| - 1], vs[|vs| - 1], hex) && DigitsAre(s[..|s| - 1], vs[..|vs| - 1], hex)
              && Number(vs, Base(hex)) == Number(vs[..|vs| - 1], Base(hex)) * Base(hex) + vs[|vs| - 1]
  {
    hide DigitIs, Base;
  }

  /** A character that is neither a digit nor the mark ends the walk with nothing. */
  lemma {:induction false} JunkEndsWalk(s: string, hex: bool, i: nat, ucs: nat, mult: nat)
    requires i < |s| && Stop(hex) !in s && forall v: nat :: !DigitIs(s[i], v, hex)
    ensures WalkBack([Stop(hex)] + s, Stop(hex), Base(hex), ucs, mult) == None
    decreases |s|
  {
    var stop, base := Stop(hex), Base(hex);
    var p, c := [stop] + s, s[|s| - 1];
    assert p[|p| - 1] == c && c in s && p[..|p| - 1] == [stop] + s[..|s| - 1];
    var d := if hex then HexValue(c) else DecValue(c);
    if d.Some? {
      var v := WhichDigit(c, hex);
      assert i < |s| - 1;
      JunkEndsWalk(s[..|s| - 1], hex, i, (ucs + mult * d.value % WORD) % WORD, mult * base % WORD);
    }
  }

  function Mark(hex: bool): string {
    if hex then "&#x" else "&#"
  }

  lemma {:induction false} SemicolonAt(s: string, rest: string)
    requires ';' !in s
    ensures Find(s + (";" + rest), ';') == Some(|s|)
  {
    var p := s + (";" + rest);
    if s != "" {
      assert p[1..] == s[1..] + (";" + rest);
      SemicolonAt(s[1..], rest);
    } else {
      assert p == ";" + rest;
    }
  }

  lemma NumericStart(enc: Encoding, p: string)
    requires |p| > 2 && p[0] == '&' && p[1] == '#'
    ensures var hex := p[2] == 'x';
            var from := if hex then 3 else 2;
            var semi := Find(p[from..], ';');
            GetEntity(enc, p) ==
            if semi.None? then CharResult(None, "")
            else
              var ucs := WalkBack(p[from - 1..from + semi.value], Stop(hex), Base(hex), 0, 1);
              if ucs.None? then CharResult(None, "")
              else CharResult(Some(p[from + semi.value + 1..]), ReferenceBytes(enc, ucs.value))
  {
    hide WalkBack, Find, ReferenceBytes, StringEqual;
  }

  lemma MarkParts(hex: bool, s: string, rest: string)
    requires !hex ==> s == "" || s[0] != 'x'
    ensures var p, n := Mark(hex) + (s + (";" + rest)), |Mark(hex)|;
            && |p| > 2 && p[0] == '&' && p[1] == '#' && (p[2] == 'x' <==> hex) && n == (if hex then 3 else 2)
            && p[n..] == s + (";" + rest) && p[n - 1..n + |s|] == [Stop(hex)] + s && p[n + |s| + 1..] == rest
  {
    var p, n, more := Mark(hex) + (s + (";" + rest)), |Mark(hex)|, s + (";" + rest);
    MarkEnds(hex);
    assert p[2] == if hex then 'x' else more[0];
    assert more[0] != 'x' || hex;
    PartsOf(Mark(hex), s, rest);
  }

  lemma MarkEnds(hex: bool)
    ensures var m := Mark(hex);
            |m| == (if hex then 3 else 2) && m[0] == '&' && m[1] == '#' && (hex ==> m[2] == 'x') &&
            m[|m| - 1] == Stop(hex)
  {}

  lemma PartsOf(m: string, s: string, rest: string)
    requires m != ""
    ensures var p, n := m + (s + (";" + rest)), |m|;
            p[n..] == s + (";" + rest) && p[n - 1..n + |s|] == [m[n - 1]] + s && p[n + |s| + 1..] == rest
  {}

  /** What GetEntity makes of a numeric reference that is closed by a semicolon. */
  lemma NumericEntity(enc: Encoding, hex: bool, s: string, rest: string)
    requires ';' !in s && (!hex ==> s == "" || s[0] != 'x')
    ensures var ucs := WalkBack([Stop(hex)] + s, Stop(hex), Base(hex), 0, 1);
            GetEntity(enc, Mark(hex) + (s + (";" + rest))) ==
            if ucs.None? then CharResult(None, "") else CharResult(Some(rest), ReferenceBytes(enc, ucs.value))
  {
    hide *;
    SemicolonAt(s, rest);
    MarkParts(hex, s, rest);
    NumericStart(enc, Mark(hex) + (s + (";" + rest)));
  }

  lemma DigitsAreNoMarks(s: string, vs: seq<nat>, hex: bool)
    requires DigitsAre(s, vs, hex)
    ensures ';' !in s && (s == "" || s[0] != 'x')
  {
    forall i | 0 <= i < |s|
      ensures s[i] !in {';', 'x'}
    {
      assert DigitIs(s[i], vs[i], hex);
      DigitValue(s[i], vs[i], hex);
    }
  }

  /** A reference of any number of digits, small and capital ones alike, stands for the number that they denote, in 32
      bits: in UTF-8 for the bytes of that code point, and else for its lowest byte. */
  lemma NumericReference(enc: Encoding, hex: bool, s: string, vs: seq<nat>, rest: string)
    requires DigitsAre(s, vs, hex)
    ensures var n := Number(vs, Base(hex)) % 0x1_0000_0000;
            GetEntity(enc, Mark(hex) + (s + (";" + rest))) ==
            CharResult(Some(rest), if enc.Utf8? then ToUtf8(n) else [(n % 256) as char])
  {
    hide WalkBack, GetEntity, ToUtf8, DigitIs, Number;
    DigitsAreNoMarks(s, vs, hex);
    NumericEntity(enc, hex, s, rest);
    DigitsAddUp("", s, vs, hex, 0, 1);
    assert "" + [Stop(hex)] + s == [Stop(hex)] + s;
  }

  /** In a hexadecimal reference only what stands behind the last 'x' counts. */
  lemma LastMarkCounts(enc: Encoding, a: string, s: string, vs: seq<nat>, rest: string)
    requires DigitsAre(s, vs, true) && ';' !in a
    ensures GetEntity(enc, "&#x" + (a + "x" + s + (";" + rest))) == GetEntity(enc, "&#x" + (s + (";" + rest)))
  {
    hide WalkBack, GetEntity, DigitIs, Number;
    DigitsAreNoMarks(s, vs, true);
    NumericEntity(enc, true, s, rest);
    NumericEntity(enc, true, a + "x" + s, rest);
    DigitsAddUp("", s, vs, true, 0, 1);
    DigitsAddUp("x" + a, s, vs, true, 0, 1);
    assert "" + ['x'] + s == ['x'] + s && "x" + a + ['x'] + s == ['x'] + (a + "x" + s);
  }

  /** A reference with anything else in it makes reading give up, and so does one without a semicolon. */
  lemma BrokenReference(enc: Encoding, hex: bool, s: string, i: nat, rest: string)
    requires i < |s| && Stop(hex) !in s && ';' !in s && (!hex ==> s[0] != 'x')
    ensures (forall v: nat :: !DigitIs(s[i], v, hex)) ==>
              GetEntity(enc, Mark(hex) + (s + (";" + rest))) == CharResult(None, "")
    ensures GetEntity(enc, Mark(hex) + s) == CharResult(None, "")
  {
    hide WalkBack, DigitIs, ReferenceBytes;
    NumericEntity(enc, hex, s, rest);
    if forall v: nat :: !DigitIs(s[i], v, hex) {
      JunkEndsWalk(s, hex, i, 0, 1);
    }
    var p := Mark(hex) + s;
    assert p[|Mark(hex)|..] == s && (p[2] == 'x' <==> hex);
  }

  // ---- Names ----

  /** An ampersand that starts no reference is dropped, and reading goes on behind it. */
  lemma OtherAmpersand(enc: Encoding, p: string)
    requires p != "" && p[0] == '&' && !(|p| > 2 && p[1] == '#')
    ensures "&amp;" <= p ==> GetEntity(enc, p) == CharResult(Some(p[5..]), "&")
    ensures "&lt;" <= p ==> GetEntity(enc, p) == CharResult(Some(p[4..]), "<")
    ensures "&gt;" <= p ==> GetEntity(enc, p) == CharResult(Some(p[4..]), ">")
    ensures "&quot;" <= p ==> GetEntity(enc, p) == CharResult(Some(p[6..]), "\"")
    ensures "&apos;" <= p ==> GetEntity(enc, p) == CharResult(Some(p[6..]), "\'")
    ensures !("&amp;" <= p || "&lt;" <= p || "&gt;" <= p || "&quot;" <= p || "&apos;" <= p) ==>
              GetEntity(enc, p) == CharResult(Some(p[1..]), "")
  {
    StartsWith(p, "&amp;");
    StartsWith(p, "&lt;");
    StartsWith(p, "&gt;");
    StartsWith(p, "&quot;");
    StartsWith(p, "&apos;");
    hide StringEqual;
    assert "&amp;" <= p ==> p[1] == 'a' && p[2] == 'm';
    assert "&apos;" <= p ==> p[1] == 'a' && p[2] == 'p';
    assert "&lt;" <= p ==> p[1] == 'l';
    assert "&gt;" <= p ==> p[1] == 'g';
    assert "&quot;" <= p ==> p[1] == 'q';
  }

  lemma StartsWith(p: string, t: string)
    requires t != ""
    ensures StringEqual(p, t, false) <==> t <= p
  {
    if t <= p {
      assert forall i :: 0 <= i < |t| ==> p[i] == p[..|t|][i];
    }
  }
}
