// What the S-boxes were designed for: each row is a permutation, and a change of
// one input bit changes at least two output bits.
module DesDesign {
  import opened DesSpec
  import opened DesWords

  // ---- Rows are permutations ----

  lemma RowFull0(y: nat, v: int)
    requires y < 4 && 0 <= v < 16
    ensures v in SBox0()[y]
  {}

  lemma RowFull1(y: nat, v: int)
    requires y < 4 && 0 <= v < 16
    ensures v in SBox1()[y]
  {}

  lemma RowFull2(y: nat, v: int)
    requires y < 4 && 0 <= v < 16
    ensures v in SBox2()[y]
  {}

  lemma RowFull3(y: nat, v: int)
    requires y < 4 && 0 <= v < 16
    ensures v in SBox3()[y]
  {}

  lemma RowFull4(y: nat, v: int)
    requires y < 4 && 0 <= v < 16
    ensures v in SBox4()[y]
  {}

  lemma RowFull5(y: nat, v: int)
    requires y < 4 && 0 <= v < 16
    ensures v in SBox5()[y]
  {}

  lemma RowFull6(y: nat, v: int)
    requires y < 4 && 0 <= v < 16
    ensures v in SBox6()[y]
  {}

  lemma RowFull7(y: nat, v: int)
    requires y < 4 && 0 <= v < 16
    ensures v in SBox7()[y]
  {}

  lemma RowFull(i: nat, y: nat, v: int)
    requires i < 8 && y < 4 && 0 <= v < 16
    ensures v in SBox(i)[y]
  {
    hide SBox0, SBox1, SBox2, SBox3, SBox4, SBox5, SBox6, SBox7;
    if i == 0 {
      RowFull0(y, v);
    } else if i == 1 {
      RowFull1(y, v);
    } else if i == 2 {
      RowFull2(y, v);
    } else if i == 3 {
      RowFull3(y, v);
    } else if i == 4 {
      RowFull4(y, v);
    } else if i == 5 {
      RowFull5(y, v);
    } else if i == 6 {
      RowFull6(y, v);
    } else {
      assert i == 7;
      RowFull7(y, v);
    }
  }

  lemma {:induction false} FewElements(s: seq<int>, values: set<int>)
    requires forall v :: v in values ==> v in s
    ensures |values| <= |s|
  {
    if s != [] {
      var rest := values - {s[0]};
      forall v | v in rest
        ensures v in s[1..]
      {
        assert v in s && v != s[0];
      }
      FewElements(s[1..], rest);
      SmallerSet(values, rest, s[0]);
    } else {
      assert forall v :: v in values ==> v in s;
      assert values == {};
    }
  }

  lemma SmallerSet(values: set<int>, rest: set<int>, x: int)
    requires rest == values - {x}
    ensures |values| <= |rest| + 1
  {
    if x in values {
      assert values == rest + {x};
    } else {
      assert values == rest;
    }
  }

  /** The numbers below n. */
  ghost function Below(n: nat): (values: set<int>)
    ensures forall v :: v in values <==> 0 <= v < n
    ensures |values| == n
  {
    if n == 0 then {} else Below(n - 1) + {n - 1}
  }

  lemma StillThere(row: seq<int>, z: nat, w: nat, v: int)
    requires z < w < |row| && row[z] == row[w] && v in row
    ensures v in row[..w] + row[w + 1..]
  {
    var rest := row[..w] + row[w + 1..];
    var n :| 0 <= n < |row| && row[n] == v;
    assert n < w ==> rest[n] == v;
    assert n > w ==> rest[n - 1] == v;
    assert n == w ==> rest[z] == v;
  }

  /** A list as long as the number of its values holds none of them twice. */
  lemma NoneTwice(row: seq<int>, values: set<int>, z: nat, w: nat)
    requires z < w < |row| == |values| && forall v :: v in values ==> v in row
    ensures row[z] != row[w]
  {
    if row[z] == row[w] {
      var rest := row[..w] + row[w + 1..];
      forall v | v in values
        ensures v in rest
      {
        StillThere(row, z, w, v);
      }
      FewElements(rest, values);
    }
  }

  /** Every row of every S-box is a permutation of the numbers from 0 to 15. */
  lemma RowsArePermutations(i: nat, y: nat)
    requires i < 8 && y < 4
    ensures forall v :: 0 <= v < 16 ==> v in SBox(i)[y]
    ensures forall z, w :: 0 <= z < w < 16 ==> SBox(i)[y][z] != SBox(i)[y][w]
  {
    hide SBox;
    var row, values := SBox(i)[y], Below(16);
    forall v | 0 <= v < 16
      ensures v in row
    {
      RowFull(i, y, v);
    }
    forall z, w | 0 <= z < w < 16
      ensures row[z] != row[w]
    {
      NoneTwice(row, values, z, w);
    }
  }

  // ---- One input bit changes two output bits ----

  /** A truth table with the entries exchanged whose inputs differ in one bit. */
  function Flip(c: bv64, s: bv64, m: bv64): bv64
    requires s < 64
  {
    ((c >> s) & m) | ((c & m) << s)
  }

  function Diff(c: bv64, s: bv64, m: bv64): bv64
    requires s < 64
  {
    c ^ Flip(c, s, m)
  }

  predicate Ones(a: bv64, b: bv64, c: bv64) {
    a | b | c == 0xFFFFFFFFFFFFFFFF
  }

  /** Of any three of the tables, one differs from its flipped form at each place. */
  predicate FarAt(c0: bv64, c1: bv64, c2: bv64, c3: bv64, s: bv64, m: bv64)
    requires s < 64
  {
    && Ones(Diff(c0, s, m), Diff(c1, s, m), Diff(c2, s, m))
    && Ones(Diff(c0, s, m), Diff(c1, s, m), Diff(c3, s, m))
    && Ones(Diff(c0, s, m), Diff(c2, s, m), Diff(c3, s, m))
    && Ones(Diff(c1, s, m), Diff(c2, s, m), Diff(c3, s, m))
  }

  /** For each of the six input bits. */
  predicate Far(c0: bv64, c1: bv64, c2: bv64, c3: bv64) {
    && FarAt(c0, c1, c2, c3, 1, 0x5555555555555555) && FarAt(c0, c1, c2, c3, 2, 0x3333333333333333)
    && FarAt(c0, c1, c2, c3, 4, 0x0F0F0F0F0F0F0F0F) && FarAt(c0, c1, c2, c3, 8, 0x00FF00FF00FF00FF)
    && FarAt(c0, c1, c2, c3, 16, 0x0000FFFF0000FFFF) && FarAt(c0, c1, c2, c3, 32, 0x00000000FFFFFFFF)
  }

  lemma Far0()
    ensures Rows(0x869D497A86E67619, 0xB0C7871B497826BD, 0x27E9D492609F1F29, 0x917BE9066F81B478) == SBox(0)
    ensures Far(0x869D497A86E67619, 0xB0C7871B497826BD, 0x27E9D492609F1F29, 0x917BE9066F81B478)
  {
    Truth0();
    hide Rows, SBox;
  }

  lemma Far1()
    ensures Rows(0xE196196E69C3A659, 0x68F93C169346C3E9, 0x746A8B7462949FC3, 0xCD235AD2B865168F) == SBox(1)
    ensures Far(0xE196196E69C3A659, 0x68F93C169346C3E9, 0x746A8B7462949FC3, 0xCD235AD2B865168F)
  {
    Truth1();
    hide Rows, SBox;
  }

  lemma Far2()
    ensures Rows(0x96692D696B9C90D3, 0xD96A863526F4794A, 0x76B9960C39C2B749, 0x4B8D9C63A965569A) == SBox(2)
    ensures Far(0x96692D696B9C90D3, 0xD96A863526F4794A, 0x76B9960C39C2B749, 0x4B8D9C63A965569A)
  {
    Truth2();
    hide Rows, SBox;
  }

  lemma Far3()
    ensures Rows(0x92C3E719ED90583E, 0xCB69718C74CA0E97, 0xACD1168F692CCE71, 0x09B77C1AC34998E7) == SBox(3)
    ensures Far(0x92C3E719ED90583E, 0xCB69718C74CA0E97, 0xACD1168F692CCE71, 0x09B77C1AC34998E7)
  {
    Truth3();
    hide Rows, SBox;
  }

  lemma Far4()
    ensures Rows(0x429DCD6A79E1348E, 0x695B9CA191666B96, 0xC70B39C692F05D2B, 0xA4CD96D24B76B948) == SBox(4)
    ensures Far(0x429DCD6A79E1348E, 0x695B9CA191666B96, 0xC70B39C692F05D2B, 0xA4CD96D24B76B948)
  {
    Truth4();
    hide Rows, SBox;
  }

  lemma Far5()
    ensures Rows(0xB44AB695C9A4695B, 0xC69938D615E69A69, 0x52CBE13C6D9216DA, 0x95A36A597C3CA34C) == SBox(5)
    ensures Far(0xB44AB695C9A4695B, 0xC69938D615E69A69, 0x52CBE13C6D9216DA, 0x95A36A597C3CA34C)
  {
    Truth5();
    hide Rows, SBox;
  }

  lemma Far6()
    ensures Rows(0x92C761F82C96D966, 0x869CD96699E643C3, 0x6A95F41A9E4B81F4, 0x348E9679497969A6) == SBox(6)
    ensures Far(0x92C761F82C96D966, 0x869CD96699E643C3, 0x6A95F41A9E4B81F4, 0x348E9679497969A6)
  {
    Truth6();
    hide Rows, SBox;
  }

  lemma Far7()
    ensures Rows(0xC17ABD2438C716B9, 0x394E96B1596AA569, 0xA71658A7C8F13F0C, 0x9F6281CD619C7C2B) == SBox(7)
    ensures Far(0xC17ABD2438C716B9, 0x394E96B1596AA569, 0xA71658A7C8F13F0C, 0x9F6281CD619C7C2B)
  {
    Truth7();
    hide Rows, SBox;
  }

  /** Each S-box is described by truth tables that are far apart. */
  lemma FarTables(i: nat) returns (c0: bv64, c1: bv64, c2: bv64, c3: bv64)
    requires i < 8
    ensures Rows(c0, c1, c2, c3) == SBox(i) && Far(c0, c1, c2, c3)
  {
    hide *;
    if i == 0 {
      Far0();
      c0, c1, c2, c3 := 0x869D497A86E67619, 0xB0C7871B497826BD, 0x27E9D492609F1F29, 0x917BE9066F81B478;
    } else if i == 1 {
      Far1();
      c0, c1, c2, c3 := 0xE196196E69C3A659, 0x68F93C169346C3E9, 0x746A8B7462949FC3, 0xCD235AD2B865168F;
    } else if i == 2 {
      Far2();
      c0, c1, c2, c3 := 0x96692D696B9C90D3, 0xD96A863526F4794A, 0x76B9960C39C2B749, 0x4B8D9C63A965569A;
    } else if i == 3 {
      Far3();
      c0, c1, c2, c3 := 0x92C3E719ED90583E, 0xCB69718C74CA0E97, 0xACD1168F692CCE71, 0x09B77C1AC34998E7;
    } else if i == 4 {
      Far4();
      c0, c1, c2, c3 := 0x429DCD6A79E1348E, 0x695B9CA191666B96, 0xC70B39C692F05D2B, 0xA4CD96D24B76B948;
    } else if i == 5 {
      Far5();
      c0, c1, c2, c3 := 0xB44AB695C9A4695B, 0xC69938D615E69A69, 0x52CBE13C6D9216DA, 0x95A36A597C3CA34C;
    } else if i == 6 {
      Far6();
      c0, c1, c2, c3 := 0x92C761F82C96D966, 0x869CD96699E643C3, 0x6A95F41A9E4B81F4, 0x348E9679497969A6;
    } else {
      Far7();
      c0, c1, c2, c3 := 0xC17ABD2438C716B9, 0x394E96B1596AA569, 0xA71658A7C8F13F0C, 0x9F6281CD619C7C2B;
    }
  }

  /** The entry of `c` for the input `z` is the one of `f` for the input `x`. */
  predicate Turned(c: bv64, f: bv64, x: bv64, z: bv64) {
    (c >> (z & 63)) & 1 == (f >> (x & 63)) & 1
  }

  lemma FlipEntry1(c: bv64, x: bv64)
    ensures Turned(c, Flip(c, 1, 0x5555555555555555), x, x ^ 1)
  {}

  lemma FlipEntry2(c: bv64, x: bv64)
    ensures Turned(c, Flip(c, 2, 0x3333333333333333), x, x ^ 2)
  {}

  lemma FlipEntry4(c: bv64, x: bv64)
    ensures Turned(c, Flip(c, 4, 0x0F0F0F0F0F0F0F0F), x, x ^ 4)
  {}

  lemma FlipEntry8(c: bv64, x: bv64)
    ensures Turned(c, Flip(c, 8, 0x00FF00FF00FF00FF), x, x ^ 8)
  {}

  lemma FlipEntry16(c: bv64, x: bv64)
    ensures Turned(c, Flip(c, 16, 0x0000FFFF0000FFFF), x, x ^ 16)
  {}

  lemma FlipEntry32(c: bv64, x: bv64)
    ensures Turned(c, Flip(c, 32, 0x00000000FFFFFFFF), x, x ^ 32)
  {}

  /** The six ways of exchanging neighbours. */
  predicate IsFlip(s: bv64, m: bv64) {
    || (s == 1 && m == 0x5555555555555555) || (s == 2 && m == 0x3333333333333333)
    || (s == 4 && m == 0x0F0F0F0F0F0F0F0F) || (s == 8 && m == 0x00FF00FF00FF00FF)
    || (s == 16 && m == 0x0000FFFF0000FFFF) || (s == 32 && m == 0x00000000FFFFFFFF)
  }

  lemma FlipEntry(c: bv64, s: bv64, m: bv64, x: bv64, z: bv64)
    requires IsFlip(s, m) && z == x ^ s
    ensures s < 64 && Turned(c, Flip(c, s, m), x, z)
  {
    hide Flip, Turned;
    if s == 1 {
      FlipEntry1(c, x);
    } else if s == 2 {
      FlipEntry2(c, x);
    } else if s == 4 {
      FlipEntry4(c, x);
    } else if s == 8 {
      FlipEntry8(c, x);
    } else if s == 16 {
      FlipEntry16(c, x);
    } else {
      FlipEntry32(c, x);
    }
  }

  lemma BitSet(a: bv64, b: bv64, c: bv64, x: bv64)
    requires Ones(a, b, c)
    ensures Truth(a, x) == 1 || Truth(b, x) == 1 || Truth(c, x) == 1
  {}

  lemma TurnedIs(c: bv64, f: bv64, x: bv64, z: bv64)
    requires Turned(c, f, x, z)
    ensures (c >> (z & 63)) & 1 == (f >> (x & 63)) & 1
  {}

  lemma RawTurned(c: bv64, f: bv64, x: bv64, z: bv64)
    requires (c >> (z & 63)) & 1 == (f >> (x & 63)) & 1
    ensures ((c ^ f) >> (x & 63)) & 1 == 1 <==> (c >> (x & 63)) & 1 != (c >> (z & 63)) & 1
  {}

  lemma TruthIs(c: bv64, x: bv64)
    ensures Truth(c, x) == 1 <==> (c >> (x & 63)) & 1 == 1
  {}

  lemma XorTruth(c: bv64, f: bv64, x: bv64)
    ensures Truth(XorWord(c, f), x) == 1 <==> ((c ^ f) >> (x & 63)) & 1 == 1
  {}

  lemma OneOrZero(a: bv64, b: bv64)
    ensures a & 1 != b & 1 <==> (a & 1 == 1) != (b & 1 == 1)
  {}

  lemma TurnedBit(c: bv64, f: bv64, x: bv64, z: bv64)
    requires Turned(c, f, x, z)
    ensures Truth(XorWord(c, f), x) == 1 <==> Truth(c, x) != Truth(c, z)
  {
    hide *;
    TurnedIs(c, f, x, z);
    RawTurned(c, f, x, z);
    TruthIs(c, x);
    TruthIs(c, z);
    XorTruth(c, f, x);
    OneOrZero(c >> (x & 63), c >> (z & 63));
  }

  function XorWord(a: bv64, b: bv64): bv64 {
    a ^ b
  }

  lemma DiffIsXor(c: bv64, s: bv64, m: bv64)
    requires s < 64
    ensures Diff(c, s, m) == XorWord(c, Flip(c, s, m))
  {
    hide Flip;
  }

  lemma DiffBit(c: bv64, s: bv64, m: bv64, x: bv64, z: bv64)
    requires s < 64 && Turned(c, Flip(c, s, m), x, z)
    ensures Truth(Diff(c, s, m), x) == 1 <==> Truth(c, x) != Truth(c, z)
  {
    hide *;
    DiffIsXor(c, s, m);
    TurnedBit(c, Flip(c, s, m), x, z);
  }

  lemma OneOfThree(a: bv64, b: bv64, c: bv64, s: bv64, m: bv64, x: bv64, z: bv64)
    requires s < 64 && Ones(Diff(a, s, m), Diff(b, s, m), Diff(c, s, m))
    requires Turned(a, Flip(a, s, m), x, z) && Turned(b, Flip(b, s, m), x, z) && Turned(c, Flip(c, s, m), x, z)
    ensures Truth(a, x) != Truth(a, z) || Truth(b, x) != Truth(b, z) || Truth(c, x) != Truth(c, z)
  {
    hide *;
    BitSet(Diff(a, s, m), Diff(b, s, m), Diff(c, s, m), x);
    DiffBit(a, s, m, x, z);
    DiffBit(b, s, m, x, z);
    DiffBit(c, s, m, x, z);
  }

  /** In how many of their four bits two numbers differ. */
  function Differences(v: int, w: int): nat {
    (if v / 8 % 2 != w / 8 % 2 then 1 else 0) + (if v / 4 % 2 != w / 4 % 2 then 1 else 0) +
    (if v / 2 % 2 != w / 2 % 2 then 1 else 0) + if v % 2 != w % 2 then 1 else 0
  }

  lemma DifferencesAre(v: int, w: int)
    requires 0 <= v < 16 && 0 <= w < 16
    ensures Differences(v, w) ==
            (if NibbleBit(v, 0) != NibbleBit(w, 0) then 1 else 0) +
            (if NibbleBit(v, 1) != NibbleBit(w, 1) then 1 else 0) +
            (if NibbleBit(v, 2) != NibbleBit(w, 2) then 1 else 0) + if NibbleBit(v, 3) != NibbleBit(w, 3) then 1 else 0
  {}

  lemma AtLeastTwo(p0: bool, p1: bool, p2: bool, p3: bool)
    requires (p0 || p1 || p2) && (p0 || p1 || p3) && (p0 || p2 || p3) && (p1 || p2 || p3)
    ensures (if p0 then 1 else 0) + (if p1 then 1 else 0) + (if p2 then 1 else 0) + (if p3 then 1 else 0) >= 2
  {}

  lemma FarApart(c0: bv64, c1: bv64, c2: bv64, c3: bv64, s: bv64, m: bv64, x: bv64, z: bv64)
    requires s < 64 && IsFlip(s, m) && FarAt(c0, c1, c2, c3, s, m) && z == x ^ s
    ensures Differences(Taken(c0, c1, c2, c3, x), Taken(c0, c1, c2, c3, z)) >= 2
  {
    hide *;
    FlipEntry(c0, s, m, x, z);
    FlipEntry(c1, s, m, x, z);
    FlipEntry(c2, s, m, x, z);
    FlipEntry(c3, s, m, x, z);
    FlippedTruths(c0, c1, c2, c3, s, m, x, z);
    AtLeastTwo(Truth(c0, x) != Truth(c0, z), Truth(c1, x) != Truth(c1, z),
               Truth(c2, x) != Truth(c2, z), Truth(c3, x) != Truth(c3, z));
    TakenBits(c0, c1, c2, c3, x);
    TakenBits(c0, c1, c2, c3, z);
    DifferencesAre(Taken(c0, c1, c2, c3, x), Taken(c0, c1, c2, c3, z));
  }

  lemma FlippedTruths(c0: bv64, c1: bv64, c2: bv64, c3: bv64, s: bv64, m: bv64, x: bv64, z: bv64)
    requires s < 64 && FarAt(c0, c1, c2, c3, s, m)
    requires Turned(c0, Flip(c0, s, m), x, z) && Turned(c1, Flip(c1, s, m), x, z)
    requires Turned(c2, Flip(c2, s, m), x, z) && Turned(c3, Flip(c3, s, m), x, z)
    ensures Truth(c0, x) != Truth(c0, z) || Truth(c1, x) != Truth(c1, z) || Truth(c2, x) != Truth(c2, z)
    ensures Truth(c0, x) != Truth(c0, z) || Truth(c1, x) != Truth(c1, z) || Truth(c3, x) != Truth(c3, z)
    ensures Truth(c0, x) != Truth(c0, z) || Truth(c2, x) != Truth(c2, z) || Truth(c3, x) != Truth(c3, z)
    ensures Truth(c1, x) != Truth(c1, z) || Truth(c2, x) != Truth(c2, z) || Truth(c3, x) != Truth(c3, z)
  {
    hide Flip, Diff, Ones, Turned, Truth;
    OneOfThree(c0, c1, c2, s, m, x, z);
    OneOfThree(c0, c1, c3, s, m, x, z);
    OneOfThree(c0, c2, c3, s, m, x, z);
    OneOfThree(c1, c2, c3, s, m, x, z);
  }

  /** Bit `q` of an S-box input, counted from the left, as a word. */
  function BitWord(q: nat): bv64 {
    if q == 0 then 32 else if q == 1 then 16 else if q == 2 then 8 else if q == 3 then 4 else if q == 4 then 2 else 1
  }

  function MaskWord(q: nat): bv64 {
    if q == 0 then 0x00000000FFFFFFFF else if q == 1 then 0x0000FFFF0000FFFF else if q == 2 then 0x00FF00FF00FF00FF
    else if q == 3 then 0x0F0F0F0F0F0F0F0F else if q == 4 then 0x3333333333333333 else 0x5555555555555555
  }

  lemma FarForBit(c0: bv64, c1: bv64, c2: bv64, c3: bv64, q: nat)
    requires q < 6 && Far(c0, c1, c2, c3)
    ensures var s, m := BitWord(q), MaskWord(q);
            s < 64 && IsFlip(s, m) && FarAt(c0, c1, c2, c3, s, m)
  {
    hide FarAt;
  }

  lemma FlippedApart(c0: bv64, c1: bv64, c2: bv64, c3: bv64, q: nat, x: bv64)
    requires q < 6 && Far(c0, c1, c2, c3)
    ensures Differences(Taken(c0, c1, c2, c3, x), Taken(c0, c1, c2, c3, x ^ BitWord(q))) >= 2
  {
    hide *;
    FarForBit(c0, c1, c2, c3, q);
    FarApart(c0, c1, c2, c3, BitWord(q), MaskWord(q), x, x ^ BitWord(q));
  }

  /** The bits with one of them changed. */
  function Changed(a: RoundKey, k: nat): RoundKey
    requires k < 48
  {
    a[k := 1 - a[k]]
  }

  /** The input of an S-box as a word. */
  function SixWord(a: RoundKey, i: nat): bv64
    requires i < 8
  {
    (if a[6 * i] == 1 then 32 else 0) | (if a[6 * i + 1] == 1 then 16 else 0) | (if a[6 * i + 2] == 1 then 8 else 0) |
    (if a[6 * i + 3] == 1 then 4 else 0) | (if a[6 * i + 4] == 1 then 2 else 0) | if a[6 * i + 5] == 1 then 1 else 0
  }

  lemma SixWindow(a: RoundKey, i: nat)
    requires i < 8
    ensures Window(a, i, SixWord(a, i))
  {}

  predicate IsXor(z: bv64, x: bv64, s: bv64) {
    z == x ^ s
  }

  lemma MaskedBit0(v: bv64)
    ensures WordBit(v, 0) == 0 <==> v & 1 == 0
  {}

  lemma MaskedXor0(z: bv64, x: bv64, s: bv64)
    requires IsXor(z, x, s)
    ensures z & 1 == 0 <==> (x & 1 == 0) == (s & 1 == 0)
  {}

  lemma XorBit0(z: bv64, x: bv64, s: bv64)
    requires IsXor(z, x, s)
    ensures WordBit(z, 0) == if WordBit(s, 0) == 1 then 1 - WordBit(x, 0) else WordBit(x, 0)
  {
    hide *;
    MaskedXor0(z, x, s);
    MaskedBit0(z);
    MaskedBit0(x);
    MaskedBit0(s);
  }

  lemma MaskedBit1(v: bv64)
    ensures WordBit(v, 1) == 0 <==> v & 2 == 0
  {}

  lemma MaskedXor1(z: bv64, x: bv64, s: bv64)
    requires IsXor(z, x, s)
    ensures z & 2 == 0 <==> (x & 2 == 0) == (s & 2 == 0)
  {}

  lemma XorBit1(z: bv64, x: bv64, s: bv64)
    requires IsXor(z, x, s)
    ensures WordBit(z, 1) == if WordBit(s, 1) == 1 then 1 - WordBit(x, 1) else WordBit(x, 1)
  {
    hide *;
    MaskedXor1(z, x, s);
    MaskedBit1(z);
    MaskedBit1(x);
    MaskedBit1(s);
  }

  lemma MaskedBit2(v: bv64)
    ensures WordBit(v, 2) == 0 <==> v & 4 == 0
  {}

  lemma MaskedXor2(z: bv64, x: bv64, s: bv64)
    requires IsXor(z, x, s)
    ensures z & 4 == 0 <==> (x & 4 == 0) == (s & 4 == 0)
  {}

  lemma XorBit2(z: bv64, x: bv64, s: bv64)
    requires IsXor(z, x, s)
    ensures WordBit(z, 2) == if WordBit(s, 2) == 1 then 1 - WordBit(x, 2) else WordBit(x, 2)
  {
    hide *;
    MaskedXor2(z, x, s);
    MaskedBit2(z);
    MaskedBit2(x);
    MaskedBit2(s);
  }

  lemma MaskedBit3(v: bv64)
    ensures WordBit(v, 3) == 0 <==> v & 8 == 0
  {}

  lemma MaskedXor3(z: bv64, x: bv64, s: bv64)
    requires IsXor(z, x, s)
    ensures z & 8 == 0 <==> (x & 8 == 0) == (s & 8 == 0)
  {}

  lemma XorBit3(z: bv64, x: bv64, s: bv64)
    requires IsXor(z, x, s)
    ensures WordBit(z, 3) == if WordBit(s, 3) == 1 then 1 - WordBit(x, 3) else WordBit(x, 3)
  {
    hide *;
    MaskedXor3(z, x, s);
    MaskedBit3(z);
    MaskedBit3(x);
    MaskedBit3(s);
  }

  lemma MaskedBit4(v: bv64)
    ensures WordBit(v, 4) == 0 <==> v & 16 == 0
  {}

  lemma MaskedXor4(z: bv64, x: bv64, s: bv64)
    requires IsXor(z, x, s)
    ensures z & 16 == 0 <==> (x & 16 == 0) == (s & 16 == 0)
  {}

  lemma XorBit4(z: bv64, x: bv64, s: bv64)
    requires IsXor(z, x, s)
    ensures WordBit(z, 4) == if WordBit(s, 4) == 1 then 1 - WordBit(x, 4) else WordBit(x, 4)
  {
    hide *;
    MaskedXor4(z, x, s);
    MaskedBit4(z);
    MaskedBit4(x);
    MaskedBit4(s);
  }

  lemma MaskedBit5(v: bv64)
    ensures WordBit(v, 5) == 0 <==> v & 32 == 0
  {}

  lemma MaskedXor5(z: bv64, x: bv64, s: bv64)
    requires IsXor(z, x, s)
    ensures z & 32 == 0 <==> (x & 32 == 0) == (s & 32 == 0)
  {}

  lemma XorBit5(z: bv64, x: bv64, s: bv64)
    requires IsXor(z, x, s)
    ensures WordBit(z, 5) == if WordBit(s, 5) == 1 then 1 - WordBit(x, 5) else WordBit(x, 5)
  {
    hide *;
    MaskedXor5(z, x, s);
    MaskedBit5(z);
    MaskedBit5(x);
    MaskedBit5(s);
  }

  lemma XorBits(x: bv64, s: bv64, z: bv64)
    requires IsXor(z, x, s)
    ensures WordBit(z, 0) == if WordBit(s, 0) == 1 then 1 - WordBit(x, 0) else WordBit(x, 0)
    ensures WordBit(z, 1) == if WordBit(s, 1) == 1 then 1 - WordBit(x, 1) else WordBit(x, 1)
    ensures WordBit(z, 2) == if WordBit(s, 2) == 1 then 1 - WordBit(x, 2) else WordBit(x, 2)
    ensures WordBit(z, 3) == if WordBit(s, 3) == 1 then 1 - WordBit(x, 3) else WordBit(x, 3)
    ensures WordBit(z, 4) == if WordBit(s, 4) == 1 then 1 - WordBit(x, 4) else WordBit(x, 4)
    ensures WordBit(z, 5) == if WordBit(s, 5) == 1 then 1 - WordBit(x, 5) else WordBit(x, 5)
  {
    hide *;
    XorBit0(z, x, s);
    XorBit1(z, x, s);
    XorBit2(z, x, s);
    XorBit3(z, x, s);
    XorBit4(z, x, s);
    XorBit5(z, x, s);
  }

  lemma BitWordBits(q: nat)
    requires q < 6
    ensures var s := BitWord(q);
            && WordBit(s, 5) == (if q == 0 then 1 else 0) && WordBit(s, 4) == (if q == 1 then 1 else 0)
            && WordBit(s, 3) == (if q == 2 then 1 else 0) && WordBit(s, 2) == (if q == 3 then 1 else 0)
            && WordBit(s, 1) == (if q == 4 then 1 else 0) && WordBit(s, 0) == (if q == 5 then 1 else 0)
  {}

  /** The last six bits of `z` are those of `x`, but for the one counted `q`. */
  predicate FlipsBit(x: bv64, z: bv64, q: nat) {
    && WordBit(z, 5) == (if q == 0 then 1 - WordBit(x, 5) else WordBit(x, 5))
    && WordBit(z, 4) == (if q == 1 then 1 - WordBit(x, 4) else WordBit(x, 4))
    && WordBit(z, 3) == (if q == 2 then 1 - WordBit(x, 3) else WordBit(x, 3))
    && WordBit(z, 2) == (if q == 3 then 1 - WordBit(x, 2) else WordBit(x, 2))
    && WordBit(z, 1) == (if q == 4 then 1 - WordBit(x, 1) else WordBit(x, 1))
    && WordBit(z, 0) == (if q == 5 then 1 - WordBit(x, 0) else WordBit(x, 0))
  }

  lemma BitWordFlips(x: bv64, z: bv64, s: bv64, q: nat)
    requires q < 6 && s == BitWord(q) && IsXor(z, x, s)
    ensures FlipsBit(x, z, q)
  {
    hide WordBit, BitWord, IsXor;
    XorBits(x, s, z);
    BitWordBits(q);
  }

  lemma FlippedWindow(a: RoundKey, i: nat, q: nat, x: bv64, z: bv64)
    requires i < 8 && q < 6 && Window(a, i, x) && FlipsBit(x, z, q)
    ensures Window(Changed(a, 6 * i + q), i, z)
  {
    hide WordBit;
  }

  lemma IsXorOf(x: bv64, s: bv64)
    ensures IsXor(x ^ s, x, s)
  {}

  /** Changing one bit of what goes into an S-box changes at least two bits of what comes out. */
  lemma OneBitTwoBits(i: nat, a: RoundKey, q: nat)
    requires i < 8 && q < 6
    ensures Differences(SBoxValue(i, a), SBoxValue(i, Changed(a, 6 * i + q))) >= 2
  {
    hide *;
    var b, x := Changed(a, 6 * i + q), SixWord(a, i);
    SixWindow(a, i);
    IsXorOf(x, BitWord(q));
    BitWordFlips(x, x ^ BitWord(q), BitWord(q), q);
    FlippedWindow(a, i, q, x, x ^ BitWord(q));
    var c0, c1, c2, c3 := FarTables(i);
    BoxTaken(i, a, x, c0, c1, c2, c3);
    BoxTaken(i, b, x ^ BitWord(q), c0, c1, c2, c3);
    FlippedApart(c0, c1, c2, c3, q, x);
  }
}
