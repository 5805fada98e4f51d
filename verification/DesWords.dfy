// The same cipher on machine words, as it is usually programmed: permutations
// by shifts and masks, and every output bit of an S-box looked up in a word that
// holds its truth table. It computes the cipher of DesSpec for every key and
// text, and on constants its value can be read off step by step.
module DesWords {
  import opened DesSpec
  import opened DesTheorems

  // ---- Words and bits ----

  function Low(v: bv64): Bit {
    if v & 1 == 1 then 1 else 0
  }

  /** Bit `p` of a word, bit 0 being the lightest. */
  function WordBit(v: bv64, p: nat): Bit
    requires p < 64
  {
    Low(v >> p)
  }

  /** The word holds the bits, the heaviest first. */
  ghost predicate Holds(bits: Bits, v: bv64) {
    |bits| <= 64 && forall i :: 0 <= i < |bits| ==> bits[i] == WordBit(v, |bits| - 1 - i)
  }

  // ---- The key schedule ----

  /** Permuted choice 1. */
  function ChoiceWord(v: bv64): bv64 {
    (((v >> 7) & 1) << 55) | (((v >> 15) & 1) << 54) | (((v >> 23) & 1) << 53) | (((v >> 31) & 1) << 52) |
    (((v >> 39) & 1) << 51) | (((v >> 47) & 1) << 50) | (((v >> 55) & 1) << 49) | (((v >> 63) & 1) << 48) |
    (((v >> 6) & 1) << 47) | (((v >> 14) & 1) << 46) | (((v >> 22) & 1) << 45) | (((v >> 30) & 1) << 44) |
    (((v >> 38) & 1) << 43) | (((v >> 46) & 1) << 42) | (((v >> 54) & 1) << 41) | (((v >> 62) & 1) << 40) |
    (((v >> 5) & 1) << 39) | (((v >> 13) & 1) << 38) | (((v >> 21) & 1) << 37) | (((v >> 29) & 1) << 36) |
    (((v >> 37) & 1) << 35) | (((v >> 45) & 1) << 34) | (((v >> 53) & 1) << 33) | (((v >> 61) & 1) << 32) |
    (((v >> 4) & 1) << 31) | (((v >> 12) & 1) << 30) | (((v >> 20) & 1) << 29) | (((v >> 28) & 1) << 28) |
    (((v >> 1) & 1) << 27) | (((v >> 9) & 1) << 26) | (((v >> 17) & 1) << 25) | (((v >> 25) & 1) << 24) |
    (((v >> 33) & 1) << 23) | (((v >> 41) & 1) << 22) | (((v >> 49) & 1) << 21) | (((v >> 57) & 1) << 20) |
    (((v >> 2) & 1) << 19) | (((v >> 10) & 1) << 18) | (((v >> 18) & 1) << 17) | (((v >> 26) & 1) << 16) |
    (((v >> 34) & 1) << 15) | (((v >> 42) & 1) << 14) | (((v >> 50) & 1) << 13) | (((v >> 58) & 1) << 12) |
    (((v >> 3) & 1) << 11) | (((v >> 11) & 1) << 10) | (((v >> 19) & 1) << 9) | (((v >> 27) & 1) << 8) |
    (((v >> 35) & 1) << 7) | (((v >> 43) & 1) << 6) | (((v >> 51) & 1) << 5) | (((v >> 59) & 1) << 4) |
    (((v >> 36) & 1) << 3) | (((v >> 44) & 1) << 2) | (((v >> 52) & 1) << 1) | ((v >> 60) & 1)
  }

  /** A word of two key halves. */
  predicate KeyFits(cd: bv64) {
    cd >> 56 == 0
  }

  /** Both key halves turned left, by one place or by two. */
  function TurnWord(cd: bv64, n: bv6): bv64
    requires n <= 28
  {
    var c, d := cd >> 28, cd & 0xFFFFFFF;
    ((((c << n) | (c >> (28 - n))) & 0xFFFFFFF) << 28) | (((d << n) | (d >> (28 - n))) & 0xFFFFFFF)
  }

  /** Permuted choice 2. */
  function KeyWord(t: bv64): bv64 {
    (((t >> 42) & 1) << 47) | (((t >> 39) & 1) << 46) | (((t >> 45) & 1) << 45) | (((t >> 32) & 1) << 44) |
    (((t >> 55) & 1) << 43) | (((t >> 51) & 1) << 42) | (((t >> 53) & 1) << 41) | (((t >> 28) & 1) << 40) |
    (((t >> 41) & 1) << 39) | (((t >> 50) & 1) << 38) | (((t >> 35) & 1) << 37) | (((t >> 46) & 1) << 36) |
    (((t >> 33) & 1) << 35) | (((t >> 37) & 1) << 34) | (((t >> 44) & 1) << 33) | (((t >> 52) & 1) << 32) |
    (((t >> 30) & 1) << 31) | (((t >> 48) & 1) << 30) | (((t >> 40) & 1) << 29) | (((t >> 49) & 1) << 28) |
    (((t >> 29) & 1) << 27) | (((t >> 36) & 1) << 26) | (((t >> 43) & 1) << 25) | (((t >> 54) & 1) << 24) |
    (((t >> 15) & 1) << 23) | (((t >> 4) & 1) << 22) | (((t >> 25) & 1) << 21) | (((t >> 19) & 1) << 20) |
    (((t >> 9) & 1) << 19) | (((t >> 1) & 1) << 18) | (((t >> 26) & 1) << 17) | (((t >> 16) & 1) << 16) |
    (((t >> 5) & 1) << 15) | (((t >> 11) & 1) << 14) | (((t >> 23) & 1) << 13) | (((t >> 8) & 1) << 12) |
    (((t >> 12) & 1) << 11) | (((t >> 7) & 1) << 10) | (((t >> 17) & 1) << 9) | ((t & 1) << 8) |
    (((t >> 22) & 1) << 7) | (((t >> 3) & 1) << 6) | (((t >> 10) & 1) << 5) | (((t >> 14) & 1) << 4) |
    (((t >> 6) & 1) << 3) | (((t >> 20) & 1) << 2) | (((t >> 27) & 1) << 1) | ((t >> 24) & 1)
  }

  // ---- The rounds ----

  function InitialLeft(v: bv64): bv64 {
    (((v >> 6) & 1) << 31) | (((v >> 14) & 1) << 30) | (((v >> 22) & 1) << 29) | (((v >> 30) & 1) << 28) |
    (((v >> 38) & 1) << 27) | (((v >> 46) & 1) << 26) | (((v >> 54) & 1) << 25) | (((v >> 62) & 1) << 24) |
    (((v >> 4) & 1) << 23) | (((v >> 12) & 1) << 22) | (((v >> 20) & 1) << 21) | (((v >> 28) & 1) << 20) |
    (((v >> 36) & 1) << 19) | (((v >> 44) & 1) << 18) | (((v >> 52) & 1) << 17) | (((v >> 60) & 1) << 16) |
    (((v >> 2) & 1) << 15) | (((v >> 10) & 1) << 14) | (((v >> 18) & 1) << 13) | (((v >> 26) & 1) << 12) |
    (((v >> 34) & 1) << 11) | (((v >> 42) & 1) << 10) | (((v >> 50) & 1) << 9) | (((v >> 58) & 1) << 8) |
    ((v & 1) << 7) | (((v >> 8) & 1) << 6) | (((v >> 16) & 1) << 5) | (((v >> 24) & 1) << 4) |
    (((v >> 32) & 1) << 3) | (((v >> 40) & 1) << 2) | (((v >> 48) & 1) << 1) | ((v >> 56) & 1)
  }

  function InitialRight(v: bv64): bv64 {
    (((v >> 7) & 1) << 31) | (((v >> 15) & 1) << 30) | (((v >> 23) & 1) << 29) | (((v >> 31) & 1) << 28) |
    (((v >> 39) & 1) << 27) | (((v >> 47) & 1) << 26) | (((v >> 55) & 1) << 25) | (((v >> 63) & 1) << 24) |
    (((v >> 5) & 1) << 23) | (((v >> 13) & 1) << 22) | (((v >> 21) & 1) << 21) | (((v >> 29) & 1) << 20) |
    (((v >> 37) & 1) << 19) | (((v >> 45) & 1) << 18) | (((v >> 53) & 1) << 17) | (((v >> 61) & 1) << 16) |
    (((v >> 3) & 1) << 15) | (((v >> 11) & 1) << 14) | (((v >> 19) & 1) << 13) | (((v >> 27) & 1) << 12) |
    (((v >> 35) & 1) << 11) | (((v >> 43) & 1) << 10) | (((v >> 51) & 1) << 9) | (((v >> 59) & 1) << 8) |
    (((v >> 1) & 1) << 7) | (((v >> 9) & 1) << 6) | (((v >> 17) & 1) << 5) | (((v >> 25) & 1) << 4) |
    (((v >> 33) & 1) << 3) | (((v >> 41) & 1) << 2) | (((v >> 49) & 1) << 1) | ((v >> 57) & 1)
  }

  function FinalWord(v: bv64): bv64 {
    (((v >> 24) & 1) << 63) | (((v >> 56) & 1) << 62) | (((v >> 16) & 1) << 61) | (((v >> 48) & 1) << 60) |
    (((v >> 8) & 1) << 59) | (((v >> 40) & 1) << 58) | ((v & 1) << 57) | (((v >> 32) & 1) << 56) |
    (((v >> 25) & 1) << 55) | (((v >> 57) & 1) << 54) | (((v >> 17) & 1) << 53) | (((v >> 49) & 1) << 52) |
    (((v >> 9) & 1) << 51) | (((v >> 41) & 1) << 50) | (((v >> 1) & 1) << 49) | (((v >> 33) & 1) << 48) |
    (((v >> 26) & 1) << 47) | (((v >> 58) & 1) << 46) | (((v >> 18) & 1) << 45) | (((v >> 50) & 1) << 44) |
    (((v >> 10) & 1) << 43) | (((v >> 42) & 1) << 42) | (((v >> 2) & 1) << 41) | (((v >> 34) & 1) << 40) |
    (((v >> 27) & 1) << 39) | (((v >> 59) & 1) << 38) | (((v >> 19) & 1) << 37) | (((v >> 51) & 1) << 36) |
    (((v >> 11) & 1) << 35) | (((v >> 43) & 1) << 34) | (((v >> 3) & 1) << 33) | (((v >> 35) & 1) << 32) |
    (((v >> 28) & 1) << 31) | (((v >> 60) & 1) << 30) | (((v >> 20) & 1) << 29) | (((v >> 52) & 1) << 28) |
    (((v >> 12) & 1) << 27) | (((v >> 44) & 1) << 26) | (((v >> 4) & 1) << 25) | (((v >> 36) & 1) << 24) |
    (((v >> 29) & 1) << 23) | (((v >> 61) & 1) << 22) | (((v >> 21) & 1) << 21) | (((v >> 53) & 1) << 20) |
    (((v >> 13) & 1) << 19) | (((v >> 45) & 1) << 18) | (((v >> 5) & 1) << 17) | (((v >> 37) & 1) << 16) |
    (((v >> 30) & 1) << 15) | (((v >> 62) & 1) << 14) | (((v >> 22) & 1) << 13) | (((v >> 54) & 1) << 12) |
    (((v >> 14) & 1) << 11) | (((v >> 46) & 1) << 10) | (((v >> 6) & 1) << 9) | (((v >> 38) & 1) << 8) |
    (((v >> 31) & 1) << 7) | (((v >> 63) & 1) << 6) | (((v >> 23) & 1) << 5) | (((v >> 55) & 1) << 4) |
    (((v >> 15) & 1) << 3) | (((v >> 47) & 1) << 2) | (((v >> 7) & 1) << 1) | ((v >> 39) & 1)
  }

  /** The eight inputs of the S-boxes. */
  function InputsWord(k: bv64, r: bv64): bv64 {
    var e := ((r & 1) << 33) | ((r & 0xFFFFFFFF) << 1) | ((r >> 31) & 1);
    k ^ (
      (((e >> 28) & 63) << 42) | (((e >> 24) & 63) << 36) | (((e >> 20) & 63) << 30) | (((e >> 16) & 63) << 24) |
      (((e >> 12) & 63) << 18) | (((e >> 8) & 63) << 12) | (((e >> 4) & 63) << 6) | (e & 63))
  }

  /** The new right half: each bit of the old left one with a bit of an S-box. */
  function OutputWord(l: bv64, x: bv64): bv64 {
    l ^ (
      (((0x09B77C1AC34998E7 >> ((x >> 24) & 63)) & 1) << 31) | (((0x746A8B7462949FC3 >> ((x >> 36) & 63)) & 1) << 30) |
      (((0xA4CD96D24B76B948 >> ((x >> 18) & 63)) & 1) << 29) | (((0xB44AB695C9A4695B >> ((x >> 12) & 63)) & 1) << 28) |
      (((0xC17ABD2438C716B9 >> ((x >> 0) & 63)) & 1) << 27) | (((0x4B8D9C63A965569A >> ((x >> 30) & 63)) & 1) << 26) |
      (((0x348E9679497969A6 >> ((x >> 6) & 63)) & 1) << 25) | (((0x429DCD6A79E1348E >> ((x >> 18) & 63)) & 1) << 24) |
      (((0x869D497A86E67619 >> ((x >> 42) & 63)) & 1) << 23) | (((0xACD1168F692CCE71 >> ((x >> 24) & 63)) & 1) << 22) |
      (((0x52CBE13C6D9216DA >> ((x >> 12) & 63)) & 1) << 21) | (((0x869CD96699E643C3 >> ((x >> 6) & 63)) & 1) << 20) |
      (((0xE196196E69C3A659 >> ((x >> 36) & 63)) & 1) << 19) | (((0x695B9CA191666B96 >> ((x >> 18) & 63)) & 1) << 18) |
      (((0xA71658A7C8F13F0C >> ((x >> 0) & 63)) & 1) << 17) | (((0xD96A863526F4794A >> ((x >> 30) & 63)) & 1) << 16) |
      (((0xB0C7871B497826BD >> ((x >> 42) & 63)) & 1) << 15) | (((0xCD235AD2B865168F >> ((x >> 36) & 63)) & 1) << 14) |
      (((0x95A36A597C3CA34C >> ((x >> 12) & 63)) & 1) << 13) | (((0xCB69718C74CA0E97 >> ((x >> 24) & 63)) & 1) << 12) |
      (((0x9F6281CD619C7C2B >> ((x >> 0) & 63)) & 1) << 11) | (((0x6A95F41A9E4B81F4 >> ((x >> 6) & 63)) & 1) << 10) |
      (((0x27E9D492609F1F29 >> ((x >> 42) & 63)) & 1) << 9) | (((0x96692D696B9C90D3 >> ((x >> 30) & 63)) & 1) << 8) |
      (((0xC70B39C692F05D2B >> ((x >> 18) & 63)) & 1) << 7) | (((0x92C3E719ED90583E >> ((x >> 24) & 63)) & 1) << 6) |
      (((0x394E96B1596AA569 >> ((x >> 0) & 63)) & 1) << 5) | (((0x68F93C169346C3E9 >> ((x >> 36) & 63)) & 1) << 4) |
      (((0xC69938D615E69A69 >> ((x >> 12) & 63)) & 1) << 3) | (((0x76B9960C39C2B749 >> ((x >> 30) & 63)) & 1) << 2) |
      (((0x917BE9066F81B478 >> ((x >> 42) & 63)) & 1) << 1) | ((0x92C761F82C96D966 >> ((x >> 6) & 63)) & 1))
  }

  /** The cipher from round `j` on. */
  function RoundsWord(cd: bv64, l: bv64, r: bv64, j: nat): bv64
    requires j <= 16
    decreases 16 - j
  {
    if j == 16 then FinalWord((r << 32) | (l & 0xFFFFFFFF))
    else
      var next := TurnWord(cd, if LsCount(j) == 1 then 1 else 2);
      RoundsWord(next, r, OutputWord(l, InputsWord(KeyWord(next), r)), j + 1)
  }

  function EncryptWord(key: bv64, text: bv64): bv64 {
    RoundsWord(ChoiceWord(key), InitialLeft(text), InitialRight(text), 0)
  }

  // ---- Bits of words ----

  /** Bit `p` of `w` is bit `a` of `v`. */
  ghost predicate Same(w: bv64, p: nat, v: bv64, a: nat) {
    p < 64 && a < 64 && ((w >> p) ^ (v >> a)) & 1 == 0
  }

  lemma SameLow(v: bv64, w: bv64)
    requires (v ^ w) & 1 == 0
    ensures Low(v) == Low(w)
  {}

  lemma SameBit(w: bv64, p: nat, v: bv64, a: nat)
    requires Same(w, p, v, a)
    ensures WordBit(w, p) == WordBit(v, a)
  {
    hide Low;
    SameLow(w >> p, v >> a);
  }

  /** Eight bits of `w`, from bit `p` downwards, are the named bits of `v`. */
  ghost predicate Picks(w: bv64, p: nat, v: bv64, a: nat, b: nat, c: nat, d: nat, e: nat, f: nat, g: nat, h: nat) {
    && p >= 7 && Same(w, p, v, a) && Same(w, p - 1, v, b) && Same(w, p - 2, v, c) && Same(w, p - 3, v, d)
    && Same(w, p - 4, v, e) && Same(w, p - 5, v, f) && Same(w, p - 6, v, g) && Same(w, p - 7, v, h)
  }

  /** So are eight bits of the list, from place `i` on. */
  ghost predicate Listed(s: Bits, i: nat, v: bv64, a: nat, b: nat, c: nat, d: nat, e: nat, f: nat, g: nat, h: nat) {
    && i + 8 <= |s| && a < 64 && b < 64 && c < 64 && d < 64 && e < 64 && f < 64 && g < 64 && h < 64
    && s[i] == WordBit(v, a) && s[i + 1] == WordBit(v, b) && s[i + 2] == WordBit(v, c) && s[i + 3] == WordBit(v, d)
    && s[i + 4] == WordBit(v, e) && s[i + 5] == WordBit(v, f) && s[i + 6] == WordBit(v, g) && s[i + 7] == WordBit(v, h)
  }

  /** Eight bits of the list are bits of the word, from bit `p` downwards. */
  ghost predicate Octet(s: Bits, i: nat, w: bv64, p: nat) {
    && i + 8 <= |s| && 7 <= p < 64
    && s[i] == WordBit(w, p) && s[i + 1] == WordBit(w, p - 1) && s[i + 2] == WordBit(w, p - 2)
    && s[i + 3] == WordBit(w, p - 3) && s[i + 4] == WordBit(w, p - 4) && s[i + 5] == WordBit(w, p - 5)
    && s[i + 6] == WordBit(w, p - 6) && s[i + 7] == WordBit(w, p - 7)
  }

  lemma PickedOctet(s: Bits, i: nat, w: bv64, p: nat, v: bv64,
                    a: nat, b: nat, c: nat, d: nat, e: nat, f: nat, g: nat, h: nat)
    requires Picks(w, p, v, a, b, c, d, e, f, g, h) && Listed(s, i, v, a, b, c, d, e, f, g, h)
    ensures Octet(s, i, w, p)
  {
    SameInRange(w, p, v, a);
    hide Same, WordBit;
    SameBit(w, p, v, a);
    SameBit(w, p - 1, v, b);
    SameBit(w, p - 2, v, c);
    SameBit(w, p - 3, v, d);
    SameBit(w, p - 4, v, e);
    SameBit(w, p - 5, v, f);
    SameBit(w, p - 6, v, g);
    SameBit(w, p - 7, v, h);
  }

  lemma SameInRange(w: bv64, p: nat, v: bv64, a: nat)
    requires Same(w, p, v, a)
    ensures p < 64
  {}

  /** What is picked for the word and listed for the list agrees. */
  lemma Octets(s: Bits, w: bv64, v: bv64)
    ensures forall i: nat, p: nat, a: nat, b: nat, c: nat, d: nat, e: nat, f: nat, g: nat, h: nat ::
              Picks(w, p, v, a, b, c, d, e, f, g, h) && Listed(s, i, v, a, b, c, d, e, f, g, h) ==> Octet(s, i, w, p)
  {
    forall i: nat, p: nat, a: nat, b: nat, c: nat, d: nat, e: nat, f: nat, g: nat, h: nat |
        Picks(w, p, v, a, b, c, d, e, f, g, h) && Listed(s, i, v, a, b, c, d, e, f, g, h)
      ensures Octet(s, i, w, p)
    {
      PickedOctet(s, i, w, p, v, a, b, c, d, e, f, g, h);
    }
  }

  ghost predicate OctetAt(s: Bits, j: nat, w: bv64) {
    8 * j + 8 <= |s| <= 64 && Octet(s, 8 * j, w, |s| - 1 - 8 * j)
  }

  lemma OctetsHold(s: Bits, w: bv64)
    requires |s| <= 64 && |s| % 8 == 0 && forall j :: 0 <= j < |s| / 8 ==> OctetAt(s, j, w)
    ensures Holds(s, w)
  {
    hide WordBit;
    forall i | 0 <= i < |s|
      ensures s[i] == WordBit(w, |s| - 1 - i)
    {
      assert OctetAt(s, i / 8, w);
      assert i == 8 * (i / 8) + i % 8;
    }
  }

  // ---- Permutations ----

  lemma LeftPicks(v: bv64)
    ensures var w := InitialLeft(v);
            && Picks(w, 31, v, 6, 14, 22, 30, 38, 46, 54, 62)
            && Picks(w, 23, v, 4, 12, 20, 28, 36, 44, 52, 60)
            && Picks(w, 15, v, 2, 10, 18, 26, 34, 42, 50, 58)
            && Picks(w, 7, v, 0, 8, 16, 24, 32, 40, 48, 56)
  {}

  lemma LeftListed(bits: BlockBits, v: bv64)
    requires Holds(bits, v)
    ensures var s := InitialPermutation(bits).l;
            && Listed(s, 0, v, 6, 14, 22, 30, 38, 46, 54, 62)
            && Listed(s, 8, v, 4, 12, 20, 28, 36, 44, 52, 60)
            && Listed(s, 16, v, 2, 10, 18, 26, 34, 42, 50, 58)
            && Listed(s, 24, v, 0, 8, 16, 24, 32, 40, 48, 56)
  {
    hide WordBit;
  }

  lemma RightPicks(v: bv64)
    ensures var w := InitialRight(v);
            && Picks(w, 31, v, 7, 15, 23, 31, 39, 47, 55, 63)
            && Picks(w, 23, v, 5, 13, 21, 29, 37, 45, 53, 61)
            && Picks(w, 15, v, 3, 11, 19, 27, 35, 43, 51, 59)
            && Picks(w, 7, v, 1, 9, 17, 25, 33, 41, 49, 57)
  {}

  lemma RightListed(bits: BlockBits, v: bv64)
    requires Holds(bits, v)
    ensures var s := InitialPermutation(bits).r;
            && Listed(s, 0, v, 7, 15, 23, 31, 39, 47, 55, 63)
            && Listed(s, 8, v, 5, 13, 21, 29, 37, 45, 53, 61)
            && Listed(s, 16, v, 3, 11, 19, 27, 35, 43, 51, 59)
            && Listed(s, 24, v, 1, 9, 17, 25, 33, 41, 49, 57)
  {
    hide WordBit;
  }

  lemma InitialIs(bits: BlockBits, v: bv64)
    requires Holds(bits, v)
    ensures Holds(InitialPermutation(bits).l, InitialLeft(v)) && Holds(InitialPermutation(bits).r, InitialRight(v))
  {
    hide WordBit, InitialLeft, InitialRight, InitialPermutation, Picks, Listed, Octet;
    var h, a, b := InitialPermutation(bits), InitialLeft(v), InitialRight(v);
    LeftPicks(v);
    RightPicks(v);
    LeftListed(bits, v);
    RightListed(bits, v);
    Octets(h.l, a, v);
    Octets(h.r, b, v);
    assert OctetAt(h.l, 0, a) && OctetAt(h.l, 1, a) && OctetAt(h.l, 2, a) && OctetAt(h.l, 3, a);
    OctetsHold(h.l, a);
    assert OctetAt(h.r, 0, b) && OctetAt(h.r, 1, b) && OctetAt(h.r, 2, b) && OctetAt(h.r, 3, b);
    OctetsHold(h.r, b);
  }

  lemma JoinedLeft(l: bv64, r: bv64)
    ensures var w := (l << 32) | (r & 0xFFFFFFFF);
            && Picks(w, 63, l, 31, 30, 29, 28, 27, 26, 25, 24)
            && Picks(w, 55, l, 23, 22, 21, 20, 19, 18, 17, 16)
            && Picks(w, 47, l, 15, 14, 13, 12, 11, 10, 9, 8)
            && Picks(w, 39, l, 7, 6, 5, 4, 3, 2, 1, 0)
  {}

  lemma JoinedRight(l: bv64, r: bv64)
    ensures var w := (l << 32) | (r & 0xFFFFFFFF);
            && Picks(w, 31, r, 31, 30, 29, 28, 27, 26, 25, 24)
            && Picks(w, 23, r, 23, 22, 21, 20, 19, 18, 17, 16)
            && Picks(w, 15, r, 15, 14, 13, 12, 11, 10, 9, 8)
            && Picks(w, 7, r, 7, 6, 5, 4, 3, 2, 1, 0)
  {}

  lemma JoinedListed(l: Half, r: Half, u: bv64, v: bv64)
    requires Holds(l, u) && Holds(r, v)
    ensures var s := l + r;
            && Listed(s, 0, u, 31, 30, 29, 28, 27, 26, 25, 24)
            && Listed(s, 8, u, 23, 22, 21, 20, 19, 18, 17, 16)
            && Listed(s, 16, u, 15, 14, 13, 12, 11, 10, 9, 8)
            && Listed(s, 24, u, 7, 6, 5, 4, 3, 2, 1, 0)
  {
    hide WordBit;
  }

  lemma JoinedListedRight(l: Half, r: Half, u: bv64, v: bv64)
    requires Holds(l, u) && Holds(r, v)
    ensures var s := l + r;
            && Listed(s, 32, v, 31, 30, 29, 28, 27, 26, 25, 24)
            && Listed(s, 40, v, 23, 22, 21, 20, 19, 18, 17, 16)
            && Listed(s, 48, v, 15, 14, 13, 12, 11, 10, 9, 8)
            && Listed(s, 56, v, 7, 6, 5, 4, 3, 2, 1, 0)
  {
    hide WordBit;
  }

  lemma JoinedIs(l: Half, r: Half, u: bv64, v: bv64)
    requires Holds(l, u) && Holds(r, v)
    ensures Holds(l + r, (u << 32) | (v & 0xFFFFFFFF))
  {
    hide WordBit, Picks, Listed, Octet;
    var s, w := l + r, (u << 32) | (v & 0xFFFFFFFF);
    JoinedLeft(u, v);
    JoinedRight(u, v);
    JoinedListed(l, r, u, v);
    JoinedListedRight(l, r, u, v);
    Octets(s, w, u);
    Octets(s, w, v);
    assert OctetAt(s, 0, w) && OctetAt(s, 1, w) && OctetAt(s, 2, w) && OctetAt(s, 3, w) &&
           OctetAt(s, 4, w) && OctetAt(s, 5, w) && OctetAt(s, 6, w) && OctetAt(s, 7, w);
    OctetsHold(s, w);
  }

  lemma FinalPicks(v: bv64)
    ensures var w := FinalWord(v);
            && Picks(w, 63, v, 24, 56, 16, 48, 8, 40, 0, 32)
            && Picks(w, 55, v, 25, 57, 17, 49, 9, 41, 1, 33)
            && Picks(w, 47, v, 26, 58, 18, 50, 10, 42, 2, 34)
            && Picks(w, 39, v, 27, 59, 19, 51, 11, 43, 3, 35)
  {}

  lemma FinalPicksLow(v: bv64)
    ensures var w := FinalWord(v);
            && Picks(w, 31, v, 28, 60, 20, 52, 12, 44, 4, 36)
            && Picks(w, 23, v, 29, 61, 21, 53, 13, 45, 5, 37)
            && Picks(w, 15, v, 30, 62, 22, 54, 14, 46, 6, 38)
            && Picks(w, 7, v, 31, 63, 23, 55, 15, 47, 7, 39)
  {}

  lemma FinalListed(l: Half, r: Half, v: bv64)
    requires Holds(l + r, v)
    ensures var s := FinalPermutation(l, r);
            && Listed(s, 0, v, 24, 56, 16, 48, 8, 40, 0, 32)
            && Listed(s, 8, v, 25, 57, 17, 49, 9, 41, 1, 33)
            && Listed(s, 16, v, 26, 58, 18, 50, 10, 42, 2, 34)
            && Listed(s, 24, v, 27, 59, 19, 51, 11, 43, 3, 35)
  {
    hide WordBit;
  }

  lemma FinalListedLow(l: Half, r: Half, v: bv64)
    requires Holds(l + r, v)
    ensures var s := FinalPermutation(l, r);
            && Listed(s, 32, v, 28, 60, 20, 52, 12, 44, 4, 36)
            && Listed(s, 40, v, 29, 61, 21, 53, 13, 45, 5, 37)
            && Listed(s, 48, v, 30, 62, 22, 54, 14, 46, 6, 38)
            && Listed(s, 56, v, 31, 63, 23, 55, 15, 47, 7, 39)
  {
    hide WordBit;
  }

  lemma FinalIs(l: Half, r: Half, v: bv64)
    requires Holds(l + r, v)
    ensures Holds(FinalPermutation(l, r), FinalWord(v))
  {
    hide WordBit, FinalWord, FinalPermutation, Picks, Listed, Octet;
    var s, w := FinalPermutation(l, r), FinalWord(v);
    FinalPicks(v);
    FinalPicksLow(v);
    FinalListed(l, r, v);
    FinalListedLow(l, r, v);
    Octets(s, w, v);
    assert OctetAt(s, 0, w) && OctetAt(s, 1, w) && OctetAt(s, 2, w) && OctetAt(s, 3, w) &&
           OctetAt(s, 4, w) && OctetAt(s, 5, w) && OctetAt(s, 6, w) && OctetAt(s, 7, w);
    OctetsHold(s, w);
  }

  lemma ChoicePicks(v: bv64)
    ensures var w := ChoiceWord(v);
            && Picks(w, 55, v, 7, 15, 23, 31, 39, 47, 55, 63)
            && Picks(w, 47, v, 6, 14, 22, 30, 38, 46, 54, 62)
            && Picks(w, 39, v, 5, 13, 21, 29, 37, 45, 53, 61)
            && Picks(w, 31, v, 4, 12, 20, 28, 1, 9, 17, 25)
  {}

  lemma ChoicePicksLow(v: bv64)
    ensures var w := ChoiceWord(v);
            && Picks(w, 23, v, 33, 41, 49, 57, 2, 10, 18, 26)
            && Picks(w, 15, v, 34, 42, 50, 58, 3, 11, 19, 27)
            && Picks(w, 7, v, 35, 43, 51, 59, 36, 44, 52, 60)
  {}

  lemma ChoiceListed(bits: BlockBits, v: bv64)
    requires Holds(bits, v)
    ensures var s := KeyC(bits, 0) + KeyD(bits, 0);
            && Listed(s, 0, v, 7, 15, 23, 31, 39, 47, 55, 63)
            && Listed(s, 8, v, 6, 14, 22, 30, 38, 46, 54, 62)
            && Listed(s, 16, v, 5, 13, 21, 29, 37, 45, 53, 61)
            && Listed(s, 24, v, 4, 12, 20, 28, 1, 9, 17, 25)
  {
    hide WordBit;
  }

  lemma ChoiceListedLow(bits: BlockBits, v: bv64)
    requires Holds(bits, v)
    ensures var s := KeyC(bits, 0) + KeyD(bits, 0);
            && Listed(s, 32, v, 33, 41, 49, 57, 2, 10, 18, 26)
            && Listed(s, 40, v, 34, 42, 50, 58, 3, 11, 19, 27)
            && Listed(s, 48, v, 35, 43, 51, 59, 36, 44, 52, 60)
  {
    hide WordBit;
  }

  lemma ChoiceIs(bits: BlockBits, v: bv64)
    requires Holds(bits, v)
    ensures Holds(KeyC(bits, 0) + KeyD(bits, 0), ChoiceWord(v))
  {
    hide WordBit, ChoiceWord, KeyC, KeyD, Picks, Listed, Octet;
    var s, w := KeyC(bits, 0) + KeyD(bits, 0), ChoiceWord(v);
    ChoicePicks(v);
    ChoicePicksLow(v);
    ChoiceListed(bits, v);
    ChoiceListedLow(bits, v);
    Octets(s, w, v);
    assert OctetAt(s, 0, w) && OctetAt(s, 1, w) && OctetAt(s, 2, w) && OctetAt(s, 3, w) &&
           OctetAt(s, 4, w) && OctetAt(s, 5, w) && OctetAt(s, 6, w);
    OctetsHold(s, w);
  }

  lemma ChoiceFits(v: bv64)
    ensures KeyFits(ChoiceWord(v))
  {}

  lemma KeyPicks(t: bv64)
    ensures var w := KeyWord(t);
            && Picks(w, 47, t, 42, 39, 45, 32, 55, 51, 53, 28)
            && Picks(w, 39, t, 41, 50, 35, 46, 33, 37, 44, 52)
            && Picks(w, 31, t, 30, 48, 40, 49, 29, 36, 43, 54)
  {}

  lemma KeyPicksLow(t: bv64)
    ensures var w := KeyWord(t);
            && Picks(w, 23, t, 15, 4, 25, 19, 9, 1, 26, 16)
            && Picks(w, 15, t, 5, 11, 23, 8, 12, 7, 17, 0)
            && Picks(w, 7, t, 22, 3, 10, 14, 6, 20, 27, 24)
  {}

  lemma KeyListed(c: KeyHalf, d: KeyHalf, t: bv64)
    requires Holds(c + d, t)
    ensures var s := Son(c, d);
            && Listed(s, 0, t, 42, 39, 45, 32, 55, 51, 53, 28)
            && Listed(s, 8, t, 41, 50, 35, 46, 33, 37, 44, 52)
            && Listed(s, 16, t, 30, 48, 40, 49, 29, 36, 43, 54)
  {
    hide WordBit;
  }

  lemma KeyListedLow(c: KeyHalf, d: KeyHalf, t: bv64)
    requires Holds(c + d, t)
    ensures var s := Son(c, d);
            && Listed(s, 24, t, 15, 4, 25, 19, 9, 1, 26, 16)
            && Listed(s, 32, t, 5, 11, 23, 8, 12, 7, 17, 0)
            && Listed(s, 40, t, 22, 3, 10, 14, 6, 20, 27, 24)
  {
    hide WordBit;
  }

  lemma KeyIs(c: KeyHalf, d: KeyHalf, t: bv64)
    requires Holds(c + d, t)
    ensures Holds(Son(c, d), KeyWord(t))
  {
    hide WordBit, KeyWord, Son, Picks, Listed, Octet;
    var s, w := Son(c, d), KeyWord(t);
    KeyPicks(t);
    KeyPicksLow(t);
    KeyListed(c, d, t);
    KeyListedLow(c, d, t);
    Octets(s, w, t);
    assert OctetAt(s, 0, w) && OctetAt(s, 1, w) && OctetAt(s, 2, w) && OctetAt(s, 3, w) &&
           OctetAt(s, 4, w) && OctetAt(s, 5, w);
    OctetsHold(s, w);
  }

  lemma RotatedBits(c: KeyHalf, d: KeyHalf, v: bv64)
    requires Holds(c + d, v)
    ensures var s := RotateLeft(c, 1) + RotateLeft(d, 1);
            forall i :: 0 <= i < 56 ==> s[i] == WordBit(v, if i == 27 then 55 else if i == 55 then 27 else 54 - i)
  {
    hide WordBit;
    var s, t := RotateLeft(c, 1) + RotateLeft(d, 1), c + d;
    forall i | 0 <= i < 56
      ensures s[i] == WordBit(v, if i == 27 then 55 else if i == 55 then 27 else 54 - i)
    {
      assert s[i] == t[if i == 27 then 0 else if i == 55 then 28 else i + 1];
    }
  }

  lemma TurnPicks(v: bv64)
    requires KeyFits(v)
    ensures var w := TurnWord(v, 1);
            && Picks(w, 55, v, 54, 53, 52, 51, 50, 49, 48, 47)
            && Picks(w, 47, v, 46, 45, 44, 43, 42, 41, 40, 39)
            && Picks(w, 39, v, 38, 37, 36, 35, 34, 33, 32, 31)
            && Picks(w, 31, v, 30, 29, 28, 55, 26, 25, 24, 23)
  {}

  lemma TurnPicksLow(v: bv64)
    requires KeyFits(v)
    ensures var w := TurnWord(v, 1);
            && Picks(w, 23, v, 22, 21, 20, 19, 18, 17, 16, 15)
            && Picks(w, 15, v, 14, 13, 12, 11, 10, 9, 8, 7)
            && Picks(w, 7, v, 6, 5, 4, 3, 2, 1, 0, 27)
  {}

  lemma TurnListed(c: KeyHalf, d: KeyHalf, v: bv64)
    requires Holds(c + d, v)
    ensures var s := RotateLeft(c, 1) + RotateLeft(d, 1);
            && Listed(s, 0, v, 54, 53, 52, 51, 50, 49, 48, 47)
            && Listed(s, 8, v, 46, 45, 44, 43, 42, 41, 40, 39)
  {
    RotatedBits(c, d, v);
    hide Holds, RotateLeft;
    hide WordBit;
  }

  lemma TurnListedMore(c: KeyHalf, d: KeyHalf, v: bv64)
    requires Holds(c + d, v)
    ensures var s := RotateLeft(c, 1) + RotateLeft(d, 1);
            && Listed(s, 16, v, 38, 37, 36, 35, 34, 33, 32, 31)
            && Listed(s, 24, v, 30, 29, 28, 55, 26, 25, 24, 23)
  {
    RotatedBits(c, d, v);
    hide Holds, RotateLeft;
    hide WordBit;
  }

  lemma TurnListedLow(c: KeyHalf, d: KeyHalf, v: bv64)
    requires Holds(c + d, v)
    ensures var s := RotateLeft(c, 1) + RotateLeft(d, 1);
            && Listed(s, 32, v, 22, 21, 20, 19, 18, 17, 16, 15)
            && Listed(s, 40, v, 14, 13, 12, 11, 10, 9, 8, 7)
  {
    RotatedBits(c, d, v);
    hide Holds, RotateLeft;
    hide WordBit;
  }

  lemma TurnListedLast(c: KeyHalf, d: KeyHalf, v: bv64)
    requires Holds(c + d, v)
    ensures var s := RotateLeft(c, 1) + RotateLeft(d, 1);
            && Listed(s, 48, v, 6, 5, 4, 3, 2, 1, 0, 27)
  {
    RotatedBits(c, d, v);
    hide Holds, RotateLeft;
    hide WordBit;
  }

  lemma TurnIs(c: KeyHalf, d: KeyHalf, v: bv64)
    requires Holds(c + d, v) && KeyFits(v)
    ensures Holds(RotateLeft(c, 1) + RotateLeft(d, 1), TurnWord(v, 1))
  {
    hide WordBit, KeyFits, TurnWord, RotateLeft, Picks, Listed, Octet;
    var s, w := RotateLeft(c, 1) + RotateLeft(d, 1), TurnWord(v, 1);
    TurnPicks(v);
    TurnPicksLow(v);
    TurnListed(c, d, v);
    TurnListedMore(c, d, v);
    TurnListedLow(c, d, v);
    TurnListedLast(c, d, v);
    Octets(s, w, v);
    assert OctetAt(s, 0, w) && OctetAt(s, 1, w) && OctetAt(s, 2, w) && OctetAt(s, 3, w) &&
           OctetAt(s, 4, w) && OctetAt(s, 5, w) && OctetAt(s, 6, w);
    OctetsHold(s, w);
  }

  lemma TurnFits(v: bv64, n: bv6)
    requires n <= 28
    ensures KeyFits(TurnWord(v, n))
  {}

  lemma TurnTwice(v: bv64)
    requires KeyFits(v)
    ensures TurnWord(v, 2) == TurnWord(TurnWord(v, 1), 1)
  {}

  // ---- The inputs of the S-boxes ----

  /** Two bits added, as Xor adds them. */
  function Add(a: Bit, b: Bit): Bit {
    (a as int + b as int) % 2
  }

  lemma XorAdds(a: Bits, b: Bits)
    requires |a| == |b|
    ensures forall i :: 0 <= i < |a| ==> Xor(a, b)[i] == Add(a[i], b[i])
  {}

  /** The lightest bit of `u` is the sum of the other two. */
  ghost predicate Sums(u: bv64, v: bv64, w: bv64) {
    (u ^ v ^ w) & 1 == 0
  }

  lemma LowXor(u: bv64, v: bv64, w: bv64)
    requires Sums(u, v, w)
    ensures Low(u) == Add(Low(v), Low(w))
  {}

  function Down(v: bv64, p: nat): bv64
    requires p < 64
  {
    v >> p
  }

  lemma LowDown(v: bv64, p: nat)
    requires p < 64
    ensures WordBit(v, p) == Low(Down(v, p))
  {}

  lemma SumsDown(x: bv64, p: nat, v: bv64, a: nat, k: bv64)
    requires Mixed(x, p, v, a, k)
    ensures p < 64 && a < 64 && Sums(Down(x, p), Down(v, a), Down(k, p))
  {}

  /** Bit `p` of `x` is bit `a` of `v` and bit `p` of `k` added. */
  ghost predicate Mixed(x: bv64, p: nat, v: bv64, a: nat, k: bv64) {
    p < 64 && a < 64 && Sums(x >> p, v >> a, k >> p)
  }

  lemma MixedBit(x: bv64, p: nat, v: bv64, a: nat, k: bv64)
    requires Mixed(x, p, v, a, k)
    ensures p < 64 && a < 64 && WordBit(x, p) == Add(WordBit(v, a), WordBit(k, p))
  {
    hide *;
    SumsDown(x, p, v, a, k);
    LowXor(Down(x, p), Down(v, a), Down(k, p));
    LowDown(x, p);
    LowDown(v, a);
    LowDown(k, p);
  }

  ghost predicate Mixes(x: bv64, p: nat, k: bv64, v: bv64,
                        a: nat, b: nat, c: nat, d: nat, e: nat, f: nat, g: nat, h: nat) {
    && 7 <= p < 64 && a < 64 && b < 64 && c < 64 && d < 64 && e < 64 && f < 64 && g < 64 && h < 64
    && ((x >> p) ^ (v >> a) ^ (k >> p)) & 1 == 0 && ((x >> (p - 1)) ^ (v >> b) ^ (k >> (p - 1))) & 1 == 0
    && ((x >> (p - 2)) ^ (v >> c) ^ (k >> (p - 2))) & 1 == 0 && ((x >> (p - 3)) ^ (v >> d) ^ (k >> (p - 3))) & 1 == 0
    && ((x >> (p - 4)) ^ (v >> e) ^ (k >> (p - 4))) & 1 == 0 && ((x >> (p - 5)) ^ (v >> f) ^ (k >> (p - 5))) & 1 == 0
    && ((x >> (p - 6)) ^ (v >> g) ^ (k >> (p - 6))) & 1 == 0 && ((x >> (p - 7)) ^ (v >> h) ^ (k >> (p - 7))) & 1 == 0
  }

  lemma EachMixed(x: bv64, p: nat, k: bv64, v: bv64,
                  a: nat, b: nat, c: nat, d: nat, e: nat, f: nat, g: nat, h: nat)
    requires Mixes(x, p, k, v, a, b, c, d, e, f, g, h)
    ensures p >= 7 && Mixed(x, p, v, a, k) && Mixed(x, p - 1, v, b, k) && Mixed(x, p - 2, v, c, k)
    ensures Mixed(x, p - 3, v, d, k) && Mixed(x, p - 4, v, e, k) && Mixed(x, p - 5, v, f, k)
    ensures Mixed(x, p - 6, v, g, k) && Mixed(x, p - 7, v, h, k)
  {}

  lemma MixedOctet(s: RoundKey, key: RoundKey, i: nat, x: bv64, p: nat, k: bv64, v: bv64,
                   a: nat, b: nat, c: nat, d: nat, e: nat, f: nat, g: nat, h: nat)
    requires Mixes(x, p, k, v, a, b, c, d, e, f, g, h) && Listed(s, i, v, a, b, c, d, e, f, g, h)
    requires Octet(key, i, k, p)
    ensures Octet(Xor(s, key), i, x, p)
  {
    hide Mixes, Mixed, WordBit, Xor, Add;
    XorAdds(s, key);
    EachMixed(x, p, k, v, a, b, c, d, e, f, g, h);
    MixedBit(x, p, v, a, k);
    MixedBit(x, p - 1, v, b, k);
    MixedBit(x, p - 2, v, c, k);
    MixedBit(x, p - 3, v, d, k);
    MixedBit(x, p - 4, v, e, k);
    MixedBit(x, p - 5, v, f, k);
    MixedBit(x, p - 6, v, g, k);
    MixedBit(x, p - 7, v, h, k);
  }

  lemma MixedOctets(s: RoundKey, key: RoundKey, x: bv64, k: bv64, v: bv64)
    ensures forall i: nat, p: nat, a: nat, b: nat, c: nat, d: nat, e: nat, f: nat, g: nat, h: nat ::
              (Mixes(x, p, k, v, a, b, c, d, e, f, g, h) && Listed(s, i, v, a, b, c, d, e, f, g, h) &&
               Octet(key, i, k, p)) ==>
              Octet(Xor(s, key), i, x, p)
  {
    forall i: nat, p: nat, a: nat, b: nat, c: nat, d: nat, e: nat, f: nat, g: nat, h: nat |
        Mixes(x, p, k, v, a, b, c, d, e, f, g, h) && Listed(s, i, v, a, b, c, d, e, f, g, h) && Octet(key, i, k, p)
      ensures Octet(Xor(s, key), i, x, p)
    {
      MixedOctet(s, key, i, x, p, k, v, a, b, c, d, e, f, g, h);
    }
  }

  lemma HeldOctet(s: Bits, i: nat, w: bv64, p: nat)
    requires Holds(s, w) && i + 8 <= |s| && p == |s| - 1 - i
    ensures Octet(s, i, w, p)
  {
    hide WordBit;
  }

  lemma InputMixes0(k: bv64, r: bv64)
    ensures Mixes(InputsWord(k, r), 47, k, r, 0, 31, 30, 29, 28, 27, 28, 27)
  {}

  lemma InputMixes1(k: bv64, r: bv64)
    ensures Mixes(InputsWord(k, r), 39, k, r, 26, 25, 24, 23, 24, 23, 22, 21)
  {}

  lemma InputMixes2(k: bv64, r: bv64)
    ensures Mixes(InputsWord(k, r), 31, k, r, 20, 19, 20, 19, 18, 17, 16, 15)
  {}

  lemma InputMixes3(k: bv64, r: bv64)
    ensures Mixes(InputsWord(k, r), 23, k, r, 16, 15, 14, 13, 12, 11, 12, 11)
  {}

  lemma InputMixes4(k: bv64, r: bv64)
    ensures Mixes(InputsWord(k, r), 15, k, r, 10, 9, 8, 7, 8, 7, 6, 5)
  {}

  lemma InputMixes5(k: bv64, r: bv64)
    ensures Mixes(InputsWord(k, r), 7, k, r, 4, 3, 4, 3, 2, 1, 0, 31)
  {}

  lemma SpreadListed(r: Half, v: bv64)
    requires Holds(r, v)
    ensures var s := Spread(r);
            && Listed(s, 0, v, 0, 31, 30, 29, 28, 27, 28, 27)
            && Listed(s, 8, v, 26, 25, 24, 23, 24, 23, 22, 21)
            && Listed(s, 16, v, 20, 19, 20, 19, 18, 17, 16, 15)
  {
    hide WordBit;
  }

  lemma SpreadListedLow(r: Half, v: bv64)
    requires Holds(r, v)
    ensures var s := Spread(r);
            && Listed(s, 24, v, 16, 15, 14, 13, 12, 11, 12, 11)
            && Listed(s, 32, v, 10, 9, 8, 7, 8, 7, 6, 5)
            && Listed(s, 40, v, 4, 3, 4, 3, 2, 1, 0, 31)
  {
    hide WordBit;
  }

  lemma InputsAre(key: RoundKey, r: Half, k: bv64, v: bv64)
    requires Holds(key, k) && Holds(r, v)
    ensures Holds(Xor(Spread(r), key), InputsWord(k, v))
  {
    hide *;
    var s, x := Xor(Spread(r), key), InputsWord(k, v);
    InputMixes0(k, v);
    InputMixes1(k, v);
    InputMixes2(k, v);
    InputMixes3(k, v);
    InputMixes4(k, v);
    InputMixes5(k, v);
    SpreadListed(r, v);
    SpreadListedLow(r, v);
    HeldOctet(key, 0, k, 47);
    HeldOctet(key, 8, k, 39);
    HeldOctet(key, 16, k, 31);
    HeldOctet(key, 24, k, 23);
    HeldOctet(key, 32, k, 15);
    HeldOctet(key, 40, k, 7);
    MixedOctets(Spread(r), key, x, k, v);
    SixOctetsHold(s, x);
  }

  lemma SixOctetsHold(s: Bits, w: bv64)
    requires |s| == 48 && Octet(s, 0, w, 47) && Octet(s, 8, w, 39) && Octet(s, 16, w, 31)
    requires Octet(s, 24, w, 23) && Octet(s, 32, w, 15) && Octet(s, 40, w, 7)
    ensures Holds(s, w)
  {
    hide WordBit, Octet;
    assert OctetAt(s, 0, w) && OctetAt(s, 1, w) && OctetAt(s, 2, w) && OctetAt(s, 3, w) &&
           OctetAt(s, 4, w) && OctetAt(s, 5, w);
    OctetsHold(s, w);
  }

  // ---- The S-boxes ----

  /** What a truth table holds for the input `x`. */
  function Truth(c: bv64, x: bv64): Bit {
    Low(c >> (x & 63))
  }

  /** The number that four truth tables give for the input `x`. */
  function Taken(c0: bv64, c1: bv64, c2: bv64, c3: bv64, x: bv64): (v: int)
    ensures 0 <= v < 16
  {
    (if (c0 >> (x & 63)) & 1 == 1 then 8 else 0) + (if (c1 >> (x & 63)) & 1 == 1 then 4 else 0) +
    (if (c2 >> (x & 63)) & 1 == 1 then 2 else 0) + if (c3 >> (x & 63)) & 1 == 1 then 1 else 0
  }

  /** A row of the S-box that four truth tables describe; the outer bits of the input choose it. */
  function Row(c0: bv64, c1: bv64, c2: bv64, c3: bv64, y: bv64): seq<int> {
    [Taken(c0, c1, c2, c3, y), Taken(c0, c1, c2, c3, y | 2), Taken(c0, c1, c2, c3, y | 4),
     Taken(c0, c1, c2, c3, y | 6), Taken(c0, c1, c2, c3, y | 8), Taken(c0, c1, c2, c3, y | 10),
     Taken(c0, c1, c2, c3, y | 12), Taken(c0, c1, c2, c3, y | 14), Taken(c0, c1, c2, c3, y | 16),
     Taken(c0, c1, c2, c3, y | 18), Taken(c0, c1, c2, c3, y | 20), Taken(c0, c1, c2, c3, y | 22),
     Taken(c0, c1, c2, c3, y | 24), Taken(c0, c1, c2, c3, y | 26), Taken(c0, c1, c2, c3, y | 28),
     Taken(c0, c1, c2, c3, y | 30)]
  }

  function Rows(c0: bv64, c1: bv64, c2: bv64, c3: bv64): seq<seq<int>> {
    [Row(c0, c1, c2, c3, 0), Row(c0, c1, c2, c3, 1), Row(c0, c1, c2, c3, 32), Row(c0, c1, c2, c3, 33)]
  }

  lemma NibbleBits(b0: Bit, b1: Bit, b2: Bit, b3: Bit)
    ensures var v := 8 * b0 as int + 4 * b1 as int + 2 * b2 as int + b3;
            NibbleBit(v, 0) == b0 && NibbleBit(v, 1) == b1 && NibbleBit(v, 2) == b2 && NibbleBit(v, 3) == b3
  {}

  lemma TakenSum(c0: bv64, c1: bv64, c2: bv64, c3: bv64, x: bv64)
    ensures Taken(c0, c1, c2, c3, x) ==
            8 * Truth(c0, x) as int + 4 * Truth(c1, x) as int + 2 * Truth(c2, x) as int +
            Truth(c3, x)
  {}

  /** The bits of that number are the entries of the four tables. */
  lemma TakenBits(c0: bv64, c1: bv64, c2: bv64, c3: bv64, x: bv64)
    ensures var v := Taken(c0, c1, c2, c3, x);
            && NibbleBit(v, 0) == Truth(c0, x) && NibbleBit(v, 1) == Truth(c1, x)
            && NibbleBit(v, 2) == Truth(c2, x) && NibbleBit(v, 3) == Truth(c3, x)
  {
    hide *;
    TakenSum(c0, c1, c2, c3, x);
    NibbleBits(Truth(c0, x), Truth(c1, x), Truth(c2, x), Truth(c3, x));
  }

  lemma RowEntry(c0: bv64, c1: bv64, c2: bv64, c3: bv64, x: bv64)
    requires x < 64
    ensures var z := 8 * WordBit(x, 4) as int + 4 * WordBit(x, 3) as int + 2 * WordBit(x, 2) as int + WordBit(x, 1);
            Row(c0, c1, c2, c3, x & 33)[z] == Taken(c0, c1, c2, c3, x)
  {
    hide Taken;
  }

  lemma RowChosen(c0: bv64, c1: bv64, c2: bv64, c3: bv64, x: bv64)
    requires x < 64
    ensures var y := 2 * WordBit(x, 5) as int + WordBit(x, 0);
            Rows(c0, c1, c2, c3)[y] == Row(c0, c1, c2, c3, x & 33)
  {
    hide Row;
  }

  lemma Masked(c0: bv64, c1: bv64, c2: bv64, c3: bv64, x: bv64)
    ensures x & 63 < 64 && Taken(c0, c1, c2, c3, x & 63) == Taken(c0, c1, c2, c3, x)
    ensures WordBit(x & 63, 0) == WordBit(x, 0) && WordBit(x & 63, 1) == WordBit(x, 1)
    ensures WordBit(x & 63, 2) == WordBit(x, 2) && WordBit(x & 63, 3) == WordBit(x, 3)
    ensures WordBit(x & 63, 4) == WordBit(x, 4) && WordBit(x & 63, 5) == WordBit(x, 5)
  {}

  /** The bits that go into an S-box are the lightest six of the word. */
  ghost predicate Window(a: RoundKey, b: nat, x: bv64) {
    && b < 8 && a[6 * b] == WordBit(x, 5) && a[6 * b + 1] == WordBit(x, 4) && a[6 * b + 2] == WordBit(x, 3)
    && a[6 * b + 3] == WordBit(x, 2) && a[6 * b + 4] == WordBit(x, 1) && a[6 * b + 5] == WordBit(x, 0)
  }

  lemma SixLow(b5: bv64, b4: bv64, b3: bv64, b2: bv64, b1: bv64, b0: bv64)
    ensures var y := ((b5 & 1) << 5) | ((b4 & 1) << 4) | ((b3 & 1) << 3) | ((b2 & 1) << 2) | ((b1 & 1) << 1) | (b0 & 1);
            && WordBit(y, 5) == Low(b5) && WordBit(y, 4) == Low(b4) && WordBit(y, 3) == Low(b3)
            && WordBit(y, 2) == Low(b2) && WordBit(y, 1) == Low(b1) && WordBit(y, 0) == Low(b0)
  {}

  /** The six bits of an S-box input, when they are gathered from those words. */
  lemma SixBits(x: bv64, b5: bv64, b4: bv64, b3: bv64, b2: bv64, b1: bv64, b0: bv64)
    requires x & 63 ==
             ((b5 & 1) << 5) | ((b4 & 1) << 4) | ((b3 & 1) << 3) | ((b2 & 1) << 2) | ((b1 & 1) << 1) | (b0 & 1)
    ensures WordBit(x, 5) == Low(b5) && WordBit(x, 4) == Low(b4) && WordBit(x, 3) == Low(b3)
    ensures WordBit(x, 2) == Low(b2) && WordBit(x, 1) == Low(b1) && WordBit(x, 0) == Low(b0)
  {
    hide *;
    SixLow(b5, b4, b3, b2, b1, b0);
    Masked(0, 0, 0, 0, x);
  }

  ghost predicate Shifted(x: bv64, b: nat, y: bv64) {
    && b < 8 && WordBit(y, 5) == WordBit(x, 47 - 6 * b) && WordBit(y, 4) == WordBit(x, 46 - 6 * b)
    && WordBit(y, 3) == WordBit(x, 45 - 6 * b) && WordBit(y, 2) == WordBit(x, 44 - 6 * b)
    && WordBit(y, 1) == WordBit(x, 43 - 6 * b) && WordBit(y, 0) == WordBit(x, 42 - 6 * b)
  }

  lemma WindowIs(a: RoundKey, x: bv64, b: nat, y: bv64)
    requires Holds(a, x) && Shifted(x, b, y)
    ensures Window(a, b, y)
  {
    hide WordBit;
  }

  lemma BoxValue(b: nat, a: RoundKey, x: bv64)
    requires Window(a, b, x)
    ensures var y, z := 2 * WordBit(x, 5) as int + WordBit(x, 0),
                        8 * WordBit(x, 4) as int + 4 * WordBit(x, 3) as int + 2 * WordBit(x, 2) as int + WordBit(x, 1);
            SBoxValue(b, a) == SBox(b)[y][z]
  {
    hide SBox, WordBit;
  }

  /** An S-box that is described by truth tables takes its value from them. */
  lemma BoxTaken(b: nat, a: RoundKey, x: bv64, c0: bv64, c1: bv64, c2: bv64, c3: bv64)
    requires b < 8 && Rows(c0, c1, c2, c3) == SBox(b)
    requires Window(a, b, x)
    ensures SBoxValue(b, a) == Taken(c0, c1, c2, c3, x)
  {
    hide *;
    var u := x & 63;
    Masked(c0, c1, c2, c3, x);
    RowEntry(c0, c1, c2, c3, u);
    RowChosen(c0, c1, c2, c3, u);
    BoxValue(b, a, x);
  }

  /** Bit `p` of `w` is bit `p` of `l` and the entry of a truth table added. */
  ghost predicate Fed(w: bv64, l: bv64, p: nat, c: bv64, x: bv64) {
    p < 64 && Sums(w >> p, l >> p, c >> (x & 63))
  }

  lemma FedBit(w: bv64, l: bv64, p: nat, c: bv64, x: bv64)
    requires Fed(w, l, p, c, x)
    ensures p < 64 && WordBit(w, p) == Add(WordBit(l, p), Truth(c, x))
  {
    hide *;
    FedSums(w, l, p, c, x);
    LowXor(Down(w, p), Down(l, p), Entry(c, x));
    LowDown(w, p);
    LowDown(l, p);
    LowEntry(c, x);
  }

  /** The truth table, shifted to the entry for `x`. */
  function Entry(c: bv64, x: bv64): bv64 {
    c >> (x & 63)
  }

  lemma LowEntry(c: bv64, x: bv64)
    ensures Truth(c, x) == Low(Entry(c, x))
  {}

  lemma FedSums(w: bv64, l: bv64, p: nat, c: bv64, x: bv64)
    requires Fed(w, l, p, c, x)
    ensures p < 64 && Sums(Down(w, p), Down(l, p), Entry(c, x))
  {}

  /** The four output bits of an S-box, where they end up. */
  ghost predicate BoxOut(w: bv64, l: bv64, v: int, p: nat, q: nat, r: nat, s: nat) {
    && p < 64 && q < 64 && r < 64 && s < 64 && 0 <= v < 16
    && WordBit(w, p) == Add(WordBit(l, p), NibbleBit(v, 0))
    && WordBit(w, q) == Add(WordBit(l, q), NibbleBit(v, 1))
    && WordBit(w, r) == Add(WordBit(l, r), NibbleBit(v, 2))
    && WordBit(w, s) == Add(WordBit(l, s), NibbleBit(v, 3))
  }

  lemma BoxFeeds(b: nat, a: RoundKey, x: bv64, w: bv64, l: bv64, c0: bv64, c1: bv64, c2: bv64, c3: bv64,
                 p: nat, q: nat, r: nat, s: nat)
    requires b < 8 && Rows(c0, c1, c2, c3) == SBox(b)
    requires Window(a, b, x)
    requires Fed(w, l, p, c0, x) && Fed(w, l, q, c1, x) && Fed(w, l, r, c2, x) && Fed(w, l, s, c3, x)
    ensures BoxOut(w, l, SBoxValue(b, a), p, q, r, s)
  {
    hide WordBit, Truth, SBox, SBoxValue, Rows, Taken, Fed, NibbleBit, Add;
    BoxTaken(b, a, x, c0, c1, c2, c3);
    TakenBits(c0, c1, c2, c3, x);
    FedBit(w, l, p, c0, x);
    FedBit(w, l, q, c1, x);
    FedBit(w, l, r, c2, x);
    FedBit(w, l, s, c3, x);
  }

  lemma BoxOuts(b: nat, a: RoundKey, x: bv64, w: bv64, l: bv64, p: nat, q: nat, r: nat, s: nat)
    requires b < 8 && Window(a, b, x)
    ensures forall c0, c1, c2, c3 {:trigger Rows(c0, c1, c2, c3)} ::
              Rows(c0, c1, c2, c3) == SBox(b) &&
              Fed(w, l, p, c0, x) && Fed(w, l, q, c1, x) && Fed(w, l, r, c2, x) && Fed(w, l, s, c3, x) ==>
                BoxOut(w, l, SBoxValue(b, a), p, q, r, s)
  {
    hide *;
    forall c0, c1, c2, c3 | Rows(c0, c1, c2, c3) == SBox(b) &&
        Fed(w, l, p, c0, x) && Fed(w, l, q, c1, x) && Fed(w, l, r, c2, x) && Fed(w, l, s, c3, x)
      ensures BoxOut(w, l, SBoxValue(b, a), p, q, r, s)
    {
      BoxFeeds(b, a, x, w, l, c0, c1, c2, c3, p, q, r, s);
    }
  }

  lemma Truth0()
    ensures Rows(0x869D497A86E67619, 0xB0C7871B497826BD, 0x27E9D492609F1F29, 0x917BE9066F81B478) == SBox(0)
  {}

  lemma Feeds0(l: bv64, x: bv64)
    ensures var w := OutputWord(l, x);
            && Fed(w, l, 23, 0x869D497A86E67619, x >> 42) && Fed(w, l, 15, 0xB0C7871B497826BD, x >> 42)
            && Fed(w, l, 9, 0x27E9D492609F1F29, x >> 42) && Fed(w, l, 1, 0x917BE9066F81B478, x >> 42)
  {}

  lemma Window0(x: bv64)
    ensures Shifted(x, 0, x >> 42)
  {
    SixBits(x >> 42, x >> 47, x >> 46, x >> 45, x >> 44, x >> 43, x >> 42);
    hide Low;
  }

  lemma Box0(a: RoundKey, l: bv64, x: bv64)
    requires Holds(a, x)
    ensures BoxOut(OutputWord(l, x), l, SBoxValue(0, a), 23, 15, 9, 1)
  {
    hide *;
    Window0(x);
    WindowIs(a, x, 0, x >> 42);
    Truth0();
    Feeds0(l, x);
    BoxOuts(0, a, x >> 42, OutputWord(l, x), l, 23, 15, 9, 1);
  }

  lemma Truth1()
    ensures Rows(0xE196196E69C3A659, 0x68F93C169346C3E9, 0x746A8B7462949FC3, 0xCD235AD2B865168F) == SBox(1)
  {}

  lemma Feeds1(l: bv64, x: bv64)
    ensures var w := OutputWord(l, x);
            && Fed(w, l, 19, 0xE196196E69C3A659, x >> 36) && Fed(w, l, 4, 0x68F93C169346C3E9, x >> 36)
            && Fed(w, l, 30, 0x746A8B7462949FC3, x >> 36) && Fed(w, l, 14, 0xCD235AD2B865168F, x >> 36)
  {}

  lemma Window1(x: bv64)
    ensures Shifted(x, 1, x >> 36)
  {
    SixBits(x >> 36, x >> 41, x >> 40, x >> 39, x >> 38, x >> 37, x >> 36);
    hide Low;
  }

  lemma Box1(a: RoundKey, l: bv64, x: bv64)
    requires Holds(a, x)
    ensures BoxOut(OutputWord(l, x), l, SBoxValue(1, a), 19, 4, 30, 14)
  {
    hide *;
    Window1(x);
    WindowIs(a, x, 1, x >> 36);
    Truth1();
    Feeds1(l, x);
    BoxOuts(1, a, x >> 36, OutputWord(l, x), l, 19, 4, 30, 14);
  }

  lemma Truth2()
    ensures Rows(0x96692D696B9C90D3, 0xD96A863526F4794A, 0x76B9960C39C2B749, 0x4B8D9C63A965569A) == SBox(2)
  {}

  lemma Feeds2(l: bv64, x: bv64)
    ensures var w := OutputWord(l, x);
            && Fed(w, l, 8, 0x96692D696B9C90D3, x >> 30) && Fed(w, l, 16, 0xD96A863526F4794A, x >> 30)
            && Fed(w, l, 2, 0x76B9960C39C2B749, x >> 30) && Fed(w, l, 26, 0x4B8D9C63A965569A, x >> 30)
  {}

  lemma Window2(x: bv64)
    ensures Shifted(x, 2, x >> 30)
  {
    SixBits(x >> 30, x >> 35, x >> 34, x >> 33, x >> 32, x >> 31, x >> 30);
    hide Low;
  }

  lemma Box2(a: RoundKey, l: bv64, x: bv64)
    requires Holds(a, x)
    ensures BoxOut(OutputWord(l, x), l, SBoxValue(2, a), 8, 16, 2, 26)
  {
    hide *;
    Window2(x);
    WindowIs(a, x, 2, x >> 30);
    Truth2();
    Feeds2(l, x);
    BoxOuts(2, a, x >> 30, OutputWord(l, x), l, 8, 16, 2, 26);
  }

  lemma Truth3()
    ensures Rows(0x92C3E719ED90583E, 0xCB69718C74CA0E97, 0xACD1168F692CCE71, 0x09B77C1AC34998E7) == SBox(3)
  {}

  lemma Feeds3(l: bv64, x: bv64)
    ensures var w := OutputWord(l, x);
            && Fed(w, l, 6, 0x92C3E719ED90583E, x >> 24) && Fed(w, l, 12, 0xCB69718C74CA0E97, x >> 24)
            && Fed(w, l, 22, 0xACD1168F692CCE71, x >> 24) && Fed(w, l, 31, 0x09B77C1AC34998E7, x >> 24)
  {}

  lemma Window3(x: bv64)
    ensures Shifted(x, 3, x >> 24)
  {
    SixBits(x >> 24, x >> 29, x >> 28, x >> 27, x >> 26, x >> 25, x >> 24);
    hide Low;
  }

  lemma Box3(a: RoundKey, l: bv64, x: bv64)
    requires Holds(a, x)
    ensures BoxOut(OutputWord(l, x), l, SBoxValue(3, a), 6, 12, 22, 31)
  {
    hide *;
    Window3(x);
    WindowIs(a, x, 3, x >> 24);
    Truth3();
    Feeds3(l, x);
    BoxOuts(3, a, x >> 24, OutputWord(l, x), l, 6, 12, 22, 31);
  }

  lemma Truth4()
    ensures Rows(0x429DCD6A79E1348E, 0x695B9CA191666B96, 0xC70B39C692F05D2B, 0xA4CD96D24B76B948) == SBox(4)
  {}

  lemma Feeds4(l: bv64, x: bv64)
    ensures var w := OutputWord(l, x);
            && Fed(w, l, 24, 0x429DCD6A79E1348E, x >> 18) && Fed(w, l, 18, 0x695B9CA191666B96, x >> 18)
            && Fed(w, l, 7, 0xC70B39C692F05D2B, x >> 18) && Fed(w, l, 29, 0xA4CD96D24B76B948, x >> 18)
  {}

  lemma Window4(x: bv64)
    ensures Shifted(x, 4, x >> 18)
  {
    SixBits(x >> 18, x >> 23, x >> 22, x >> 21, x >> 20, x >> 19, x >> 18);
    hide Low;
  }

  lemma Box4(a: RoundKey, l: bv64, x: bv64)
    requires Holds(a, x)
    ensures BoxOut(OutputWord(l, x), l, SBoxValue(4, a), 24, 18, 7, 29)
  {
    hide *;
    Window4(x);
    WindowIs(a, x, 4, x >> 18);
    Truth4();
    Feeds4(l, x);
    BoxOuts(4, a, x >> 18, OutputWord(l, x), l, 24, 18, 7, 29);
  }

  lemma Truth5()
    ensures Rows(0xB44AB695C9A4695B, 0xC69938D615E69A69, 0x52CBE13C6D9216DA, 0x95A36A597C3CA34C) == SBox(5)
  {}

  lemma Feeds5(l: bv64, x: bv64)
    ensures var w := OutputWord(l, x);
            && Fed(w, l, 28, 0xB44AB695C9A4695B, x >> 12) && Fed(w, l, 3, 0xC69938D615E69A69, x >> 12)
            && Fed(w, l, 21, 0x52CBE13C6D9216DA, x >> 12) && Fed(w, l, 13, 0x95A36A597C3CA34C, x >> 12)
  {}

  lemma Window5(x: bv64)
    ensures Shifted(x, 5, x >> 12)
  {
    SixBits(x >> 12, x >> 17, x >> 16, x >> 15, x >> 14, x >> 13, x >> 12);
    hide Low;
  }

  lemma Box5(a: RoundKey, l: bv64, x: bv64)
    requires Holds(a, x)
    ensures BoxOut(OutputWord(l, x), l, SBoxValue(5, a), 28, 3, 21, 13)
  {
    hide *;
    Window5(x);
    WindowIs(a, x, 5, x >> 12);
    Truth5();
    Feeds5(l, x);
    BoxOuts(5, a, x >> 12, OutputWord(l, x), l, 28, 3, 21, 13);
  }

  lemma Truth6()
    ensures Rows(0x92C761F82C96D966, 0x869CD96699E643C3, 0x6A95F41A9E4B81F4, 0x348E9679497969A6) == SBox(6)
  {}

  lemma Feeds6(l: bv64, x: bv64)
    ensures var w := OutputWord(l, x);
            && Fed(w, l, 0, 0x92C761F82C96D966, x >> 6) && Fed(w, l, 20, 0x869CD96699E643C3, x >> 6)
            && Fed(w, l, 10, 0x6A95F41A9E4B81F4, x >> 6) && Fed(w, l, 25, 0x348E9679497969A6, x >> 6)
  {}

  lemma Window6(x: bv64)
    ensures Shifted(x, 6, x >> 6)
  {
    SixBits(x >> 6, x >> 11, x >> 10, x >> 9, x >> 8, x >> 7, x >> 6);
    hide Low;
  }

  lemma Box6(a: RoundKey, l: bv64, x: bv64)
    requires Holds(a, x)
    ensures BoxOut(OutputWord(l, x), l, SBoxValue(6, a), 0, 20, 10, 25)
  {
    hide *;
    Window6(x);
    WindowIs(a, x, 6, x >> 6);
    Truth6();
    Feeds6(l, x);
    BoxOuts(6, a, x >> 6, OutputWord(l, x), l, 0, 20, 10, 25);
  }

  lemma Truth7()
    ensures Rows(0xC17ABD2438C716B9, 0x394E96B1596AA569, 0xA71658A7C8F13F0C, 0x9F6281CD619C7C2B) == SBox(7)
  {}

  lemma Feeds7(l: bv64, x: bv64)
    ensures var w := OutputWord(l, x);
            && Fed(w, l, 27, 0xC17ABD2438C716B9, x >> 0) && Fed(w, l, 5, 0x394E96B1596AA569, x >> 0)
            && Fed(w, l, 17, 0xA71658A7C8F13F0C, x >> 0) && Fed(w, l, 11, 0x9F6281CD619C7C2B, x >> 0)
  {}

  lemma Window7(x: bv64)
    ensures Shifted(x, 7, x >> 0)
  {
    SixBits(x >> 0, x >> 5, x >> 4, x >> 3, x >> 2, x >> 1, x >> 0);
    hide Low;
  }

  lemma Box7(a: RoundKey, l: bv64, x: bv64)
    requires Holds(a, x)
    ensures BoxOut(OutputWord(l, x), l, SBoxValue(7, a), 27, 5, 17, 11)
  {
    hide *;
    Window7(x);
    WindowIs(a, x, 7, x >> 0);
    Truth7();
    Feeds7(l, x);
    BoxOuts(7, a, x >> 0, OutputWord(l, x), l, 27, 5, 17, 11);
  }

  // ---- Rounds ----

  /** Where the four bits of an S-box go. */
  ghost predicate Placed(f: Half, a: RoundKey, b: nat, i: nat, j: nat, m: nat, n: nat) {
    && b < 8 && i < 32 && j < 32 && m < 32 && n < 32
    && f[i] == NibbleBit(SBoxValue(b, a), 0) && f[j] == NibbleBit(SBoxValue(b, a), 1)
    && f[m] == NibbleBit(SBoxValue(b, a), 2) && f[n] == NibbleBit(SBoxValue(b, a), 3)
  }

  lemma CipherBits(key: RoundKey, r: Half)
    ensures var a, f := Xor(Spread(r), key), CipherF(key, r);
            && Placed(f, a, 0, 8, 16, 22, 30) && Placed(f, a, 1, 12, 27, 1, 17) && Placed(f, a, 2, 23, 15, 29, 5)
            && Placed(f, a, 3, 25, 19, 9, 0) && Placed(f, a, 4, 7, 13, 24, 2) && Placed(f, a, 5, 3, 28, 10, 18)
            && Placed(f, a, 6, 31, 11, 21, 6) && Placed(f, a, 7, 4, 26, 14, 20)
  {
    hide SBoxValue, NibbleBit, ERTab;
  }

  /** Bit `i` of the new half is the old bit and the bit of f added. */
  ghost predicate NewBit(f: Half, i: nat, w: bv64, u: bv64) {
    i < 32 && WordBit(w, 31 - i) == Add(WordBit(u, 31 - i), f[i])
  }

  lemma BoxPlaces(f: Half, a: RoundKey, b: nat, w: bv64, u: bv64, p: nat, q: nat, r: nat, s: nat)
    requires p < 32 && q < 32 && r < 32 && s < 32 && Placed(f, a, b, 31 - p, 31 - q, 31 - r, 31 - s)
    requires BoxOut(w, u, SBoxValue(b, a), p, q, r, s)
    ensures NewBit(f, 31 - p, w, u) && NewBit(f, 31 - q, w, u) && NewBit(f, 31 - r, w, u) && NewBit(f, 31 - s, w, u)
  {
    hide WordBit, NibbleBit, SBoxValue, Add;
  }

  lemma NewBitsHold(f: Half, l: Half, w: bv64, u: bv64)
    requires Holds(l, u) && forall i :: 0 <= i < 32 ==> NewBit(f, i, w, u)
    ensures Holds(Xor(f, l), w)
  {
    hide WordBit;
    forall i | 0 <= i < 32
      ensures Xor(f, l)[i] == WordBit(w, 31 - i)
    {
      assert NewBit(f, i, w, u);
    }
  }

  lemma BoxesHold(key: RoundKey, l: Half, r: Half, a: RoundKey, w: bv64, u: bv64)
    requires a == Xor(Spread(r), key) && Holds(l, u)
    requires BoxOut(w, u, SBoxValue(0, a), 23, 15, 9, 1)
    requires BoxOut(w, u, SBoxValue(1, a), 19, 4, 30, 14)
    requires BoxOut(w, u, SBoxValue(2, a), 8, 16, 2, 26)
    requires BoxOut(w, u, SBoxValue(3, a), 6, 12, 22, 31)
    requires BoxOut(w, u, SBoxValue(4, a), 24, 18, 7, 29)
    requires BoxOut(w, u, SBoxValue(5, a), 28, 3, 21, 13)
    requires BoxOut(w, u, SBoxValue(6, a), 0, 20, 10, 25)
    requires BoxOut(w, u, SBoxValue(7, a), 27, 5, 17, 11)
    ensures Holds(Xor(CipherF(key, r), l), w)
  {
    hide *;
    var f := CipherF(key, r);
    CipherBits(key, r);
    BoxPlaces(f, a, 0, w, u, 23, 15, 9, 1);
    BoxPlaces(f, a, 1, w, u, 19, 4, 30, 14);
    BoxPlaces(f, a, 2, w, u, 8, 16, 2, 26);
    BoxPlaces(f, a, 3, w, u, 6, 12, 22, 31);
    BoxPlaces(f, a, 4, w, u, 24, 18, 7, 29);
    BoxPlaces(f, a, 5, w, u, 28, 3, 21, 13);
    BoxPlaces(f, a, 6, w, u, 0, 20, 10, 25);
    BoxPlaces(f, a, 7, w, u, 27, 5, 17, 11);
    NewBitsHold(f, l, w, u);
  }

  lemma OutputIs(key: RoundKey, l: Half, r: Half, k: bv64, u: bv64, v: bv64)
    requires Holds(key, k) && Holds(l, u) && Holds(r, v)
    ensures Holds(Xor(CipherF(key, r), l), OutputWord(u, InputsWord(k, v)))
  {
    hide *;
    var a, x := Xor(Spread(r), key), InputsWord(k, v);
    InputsAre(key, r, k, v);
    Box0(a, u, x);
    Box1(a, u, x);
    Box2(a, u, x);
    Box3(a, u, x);
    Box4(a, u, x);
    Box5(a, u, x);
    Box6(a, u, x);
    Box7(a, u, x);
    BoxesHold(key, l, r, a, OutputWord(u, x), u);
  }

  lemma NextTurn(bits: BlockBits, cd: bv64, j: nat)
    requires j < 16 && KeyFits(cd) && Holds(KeyC(bits, j) + KeyD(bits, j), cd)
    ensures var next := TurnWord(cd, if LsCount(j) == 1 then 1 else 2);
            KeyFits(next) && Holds(KeyC(bits, j + 1) + KeyD(bits, j + 1), next)
  {
    hide Holds, TurnWord, KeyFits, RotateLeft, Pc1C, Pc1D;
    var c, d := KeyC(bits, j), KeyD(bits, j);
    TurnIs(c, d, cd);
    TurnFits(cd, 1);
    if LsCount(j) == 2 {
      TurnTwice(cd);
      TurnFits(cd, 2);
      TurnIs(RotateLeft(c, 1), RotateLeft(d, 1), TurnWord(cd, 1));
      RotateTwice(c, 1, 1);
      RotateTwice(d, 1, 1);
    }
  }

  lemma RoundsStep(f: RoundFunction, keys: seq<RoundKey>, h: Halves, j: nat)
    requires j < |keys|
    ensures Rounds(f, keys[..j + 1], h) == Round(f, keys[j], Rounds(f, keys[..j], h))
  {
    assert keys[..j + 1][..j] == keys[..j];
  }

  /** The words hold the halves after `j` rounds, and hold the result in the end. */
  lemma {:induction false} RoundsAre(bits: BlockBits, h: Halves, cd: bv64, l: bv64, r: bv64, j: nat)
    requires j <= 16 && KeyFits(cd) && Holds(KeyC(bits, j) + KeyD(bits, j), cd)
    requires var g := Rounds(CipherF, SubKeys(bits)[..j], h); Holds(g.l, l) && Holds(g.r, r)
    ensures var g := Rounds(CipherF, SubKeys(bits), h);
            Holds(FinalPermutation(g.r, g.l), RoundsWord(cd, l, r, j))
    decreases 16 - j
  {
    hide Holds, CipherF, Rounds, KeyFits, KeyC, KeyD, Son, TurnWord, KeyWord, InputsWord, OutputWord, FinalWord,
         FinalPermutation, LsCount;
    var keys := SubKeys(bits);
    var g := Rounds(CipherF, keys[..j], h);
    if j == 16 {
      assert keys[..j] == keys;
      JoinedIs(g.r, g.l, r, l);
      FinalIs(g.r, g.l, (r << 32) | (l & 0xFFFFFFFF));
    } else {
      var next := TurnWord(cd, if LsCount(j) == 1 then 1 else 2);
      var k := KeyWord(next);
      NextTurn(bits, cd, j);
      KeyIs(KeyC(bits, j + 1), KeyD(bits, j + 1), next);
      OutputIs(keys[j], g.l, g.r, k, l, r);
      RoundsStep(CipherF, keys, h, j);
      RoundsAre(bits, h, next, r, OutputWord(l, InputsWord(k, r)), j + 1);
    }
  }

  // ---- Blocks ----

  /** The byte of a word from bit `p` on. */
  function WordByte(v: bv64, p: nat): Byte
    requires p <= 56
  {
    (if (v >> (p + 7)) & 1 == 1 then 128 else 0) + (if (v >> (p + 6)) & 1 == 1 then 64 else 0) +
    (if (v >> (p + 5)) & 1 == 1 then 32 else 0) + (if (v >> (p + 4)) & 1 == 1 then 16 else 0) +
    (if (v >> (p + 3)) & 1 == 1 then 8 else 0) + (if (v >> (p + 2)) & 1 == 1 then 4 else 0) +
    (if (v >> (p + 1)) & 1 == 1 then 2 else 0) + if (v >> p) & 1 == 1 then 1 else 0
  }

  /** The block that is written as this number, its first byte the heaviest. */
  function Bytes(v: bv64): Block {
    hide *;
    [WordByte(v, 56), WordByte(v, 48), WordByte(v, 40), WordByte(v, 32),
     WordByte(v, 24), WordByte(v, 16), WordByte(v, 8), WordByte(v, 0)]
  }

  lemma ByteSum(v: bv64, p: nat)
    requires p <= 56
    ensures WordByte(v, p) ==
            (8 * WordBit(v, p + 7) as int + 4 * WordBit(v, p + 6) as int + 2 * WordBit(v, p + 5) as int +
             WordBit(v, p + 4)) * 16 +
            8 * WordBit(v, p + 3) as int + 4 * WordBit(v, p + 2) as int + 2 * WordBit(v, p + 1) as int + WordBit(v, p)
  {}

  lemma ByteBits(v: bv64, p: nat)
    requires p <= 56
    ensures var b := WordByte(v, p);
            && BitOf(b, 0) == WordBit(v, p + 7) && BitOf(b, 1) == WordBit(v, p + 6) && BitOf(b, 2) == WordBit(v, p + 5)
            && BitOf(b, 3) == WordBit(v, p + 4) && BitOf(b, 4) == WordBit(v, p + 3) && BitOf(b, 5) == WordBit(v, p + 2)
            && BitOf(b, 6) == WordBit(v, p + 1) && BitOf(b, 7) == WordBit(v, p)
  {
    hide WordByte, WordBit;
    ByteSum(v, p);
    Quotients(WordBit(v, p + 7), WordBit(v, p + 6), WordBit(v, p + 5), WordBit(v, p + 4),
              WordBit(v, p + 3), WordBit(v, p + 2), WordBit(v, p + 1), WordBit(v, p));
  }

  lemma BytesHold(v: bv64)
    ensures Holds(Expand(Bytes(v)), v)
  {
    hide WordByte, WordBit, BitOf;
    forall i | 0 <= i < 64
      ensures Expand(Bytes(v))[i] == WordBit(v, 63 - i)
    {
      ByteBits(v, 56 - 8 * (i / 8));
    }
  }

  lemma HeldOnce(a: Bits, b: Bits, v: bv64)
    requires |a| == |b| && Holds(a, v) && Holds(b, v)
    ensures a == b
  {
    hide WordBit;
  }

  lemma CryptIs(bits: BlockBits, text: BlockBits)
    ensures var h := InitialPermutation(text);
            var g := Rounds(CipherF, SubKeys(bits), h);
            CryptBits(SubKeys(bits), text) == FinalPermutation(g.r, g.l) && Rounds(CipherF, SubKeys(bits)[..0], h) == h
  {
    hide CipherF, SubKeys, InitialPermutation, FinalPermutation;
  }

  lemma EncryptIs(key: Block, text: Block)
    ensures Encrypt(key, text) == Compress(CryptBits(SubKeys(Expand(key)), Expand(text)))
  {
    hide CryptBits, SubKeys, Expand, Compress;
  }

  lemma EncryptWordIs(key: bv64, text: bv64)
    ensures EncryptWord(key, text) == RoundsWord(ChoiceWord(key), InitialLeft(text), InitialRight(text), 0)
  {
    hide RoundsWord, ChoiceWord, InitialLeft, InitialRight;
  }

  /** The machine words compute the cipher, for every key and every text. */
  lemma EncryptIsWords(key: bv64, text: bv64)
    ensures Encrypt(Bytes(key), Bytes(text)) == Bytes(EncryptWord(key, text))
  {
    hide *;
    var bits, t, w := Expand(Bytes(key)), Expand(Bytes(text)), EncryptWord(key, text);
    EncryptIs(Bytes(key), Bytes(text));
    EncryptWordIs(key, text);
    CryptIs(bits, t);
    BytesHold(key);
    BytesHold(text);
    BytesHold(w);
    ChoiceIs(bits, key);
    ChoiceFits(key);
    InitialIs(t, text);
    RoundsAre(bits, InitialPermutation(t), ChoiceWord(key), InitialLeft(text), InitialRight(text), 0);
    HeldOnce(CryptBits(SubKeys(bits), t), Expand(Bytes(w)), w);
    CompressExpand(Bytes(w));
  }
}
