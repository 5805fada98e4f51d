// What the cipher of DBRecord/datasafe.h guarantees: deciphering undoes
// enciphering, complements pass through, and the schedule's rotations close.
module DesTheorems {
  import opened DesSpec

  // ---- Bytes and bits ----

  lemma HalvesOfByte(v: int)
    ensures v / 4 == v / 2 / 2 && v / 8 == v / 4 / 2 && v / 16 == v / 8 / 2 && v / 32 == v / 16 / 2
         && v / 64 == v / 32 / 2 && v / 128 == v / 64 / 2
  {}

  lemma SumOfBits(v: int)
    requires 0 <= v < 256
    ensures v / 128 % 2 * 128 + v / 64 % 2 * 64 + v / 32 % 2 * 32 + v / 16 % 2 * 16
            + v / 8 % 2 * 8 + v / 4 % 2 * 4 + v / 2 % 2 * 2 + v % 2 == v
  {
    HalvesOfByte(v);
  }

  lemma ByteOfBits(b: Byte)
    ensures ByteOf(seq(8, j requires 0 <= j < 8 => BitOf(b, j))) == b
  {
    var s := seq(8, j requires 0 <= j < 8 => BitOf(b, j));
    assert s[0] == b / 128 % 2 && s[1] == b / 64 % 2 && s[2] == b / 32 % 2 && s[3] == b / 16 % 2;
    assert s[4] == b / 8 % 2 && s[5] == b / 4 % 2 && s[6] == b / 2 % 2 && s[7] == b % 2;
    SumOfBits(b);
  }

  lemma Quotients(b0: Bit, b1: Bit, b2: Bit, b3: Bit, b4: Bit, b5: Bit, b6: Bit, b7: Bit)
    ensures var high: int := b0 as int * 8 + b1 as int * 4 + b2 as int * 2 + b3;
            var v: int := high * 16 + b4 as int * 8 + b5 as int * 4 + b6 as int * 2 + b7;
            && v / 128 % 2 == b0 && v / 64 % 2 == b1 && v / 32 % 2 == b2 && v / 16 % 2 == b3
            && v / 8 % 2 == b4 && v / 4 % 2 == b5 && v / 2 % 2 == b6 && v % 2 == b7
  {
    var high: int := b0 as int * 8 + b1 as int * 4 + b2 as int * 2 + b3;
    var v: int := high * 16 + b4 as int * 8 + b5 as int * 4 + b6 as int * 2 + b7;
    assert v / 128 == b0 && v / 64 == b0 as int * 2 + b1 && v / 32 == b0 as int * 4 + b1 as int * 2 + b2;
    assert v / 16 == high && v / 8 == high * 2 + b4 && v / 4 == high * 4 + b5 + b4 as int * 2;
    assert v / 2 == high * 8 + b6 + b5 as int * 2 + b4 as int * 4;
  }

  lemma BitsOfByte(bits: Bits, j: nat)
    requires |bits| == 8 && j < 8
    ensures BitOf(ByteOf(bits), j) == bits[j]
  {
    Quotients(bits[0], bits[1], bits[2], bits[3], bits[4], bits[5], bits[6], bits[7]);
  }

  lemma SliceOfExpand(bytes: seq<Byte>, i: nat)
    requires i < |bytes|
    ensures Expand(bytes)[8 * i..8 * i + 8] == seq(8, j requires 0 <= j < 8 => BitOf(bytes[i], j))
  {
    hide BitOf;
    forall j | 0 <= j < 8
      ensures Expand(bytes)[8 * i..8 * i + 8][j] == BitOf(bytes[i], j)
    {
      assert (8 * i + j) / 8 == i && (8 * i + j) % 8 == j;
    }
  }

  /** Packing undoes unpacking. */
  lemma CompressExpand(bytes: seq<Byte>)
    ensures Compress(Expand(bytes)) == bytes
  {
    hide BitOf, ByteOf;
    forall i | 0 <= i < |bytes|
      ensures Compress(Expand(bytes))[i] == bytes[i]
    {
      SliceOfExpand(bytes, i);
      ByteOfBits(bytes[i]);
    }
  }

  /** Unpacking undoes packing. */
  lemma ExpandCompress(bits: Bits)
    requires |bits| % 8 == 0
    ensures Expand(Compress(bits)) == bits
  {
    hide BitOf, ByteOf;
    forall i | 0 <= i < |bits|
      ensures Expand(Compress(bits))[i] == bits[i]
    {
      var k := i / 8;
      assert i == 8 * k + i % 8;
      BitsOfByte(bits[8 * k..8 * k + 8], i % 8);
    }
  }

  // ---- The two permutations are inverse ----

  lemma IpTabRows(r: nat, c: nat)
    requires r < 8 && c < 8
    ensures IpTab(8 * r + c) == (if r < 4 then 58 + 2 * r else 49 + 2 * r) - 8 * c
  {
    assert (8 * r + c) / 8 == r && (8 * r + c) % 8 == c;
  }

  lemma FpTabRows(r: nat, c: nat)
    requires r < 8 && c < 8
    ensures FpTab(8 * r + c) == (if c % 2 == 0 then 40 else 8) - r + 8 * (c / 2)
  {
    assert (8 * r + c) / 8 == r && (8 * r + c) % 8 == c;
  }

  lemma TablesInverse(i: nat)
    requires i < 64
    ensures FpTab(IpTab(i) - 1) == i + 1
    ensures IpTab(FpTab(i) - 1) == i + 1
  {
    hide IpTab, FpTab;
    var r, c := i / 8, i % 8;
    assert i == 8 * r + c;
    IpTabRows(r, c);
    if r < 4 {
      assert IpTab(i) - 1 == 8 * (7 - c) + (2 * r + 1);
      FpTabRows(7 - c, 2 * r + 1);
    } else {
      assert IpTab(i) - 1 == 8 * (7 - c) + 2 * (r - 4);
      FpTabRows(7 - c, 2 * (r - 4));
    }
    FpTabRows(r, c);
    if c % 2 == 0 {
      assert FpTab(i) - 1 == 8 * (4 + c / 2) + (7 - r);
      IpTabRows(4 + c / 2, 7 - r);
    } else {
      assert FpTab(i) - 1 == 8 * (c / 2) + (7 - r);
      IpTabRows(c / 2, 7 - r);
    }
  }

  lemma InitialOfFinal(l: Half, r: Half)
    ensures InitialPermutation(FinalPermutation(l, r)) == Halves(l, r)
  {
    hide IpTab, FpTab;
    var b, s := FinalPermutation(l, r), l + r;
    forall i | 0 <= i < 64
      ensures b[IpTab(i) - 1] == s[i]
    {
      TablesInverse(i);
    }
    var h := InitialPermutation(b);
    assert h.l == l && h.r == r;
  }

  lemma FinalOfInitial(bits: BlockBits)
    ensures var h := InitialPermutation(bits); FinalPermutation(h.l, h.r) == bits
  {
    hide IpTab, FpTab;
    var h := InitialPermutation(bits);
    var s := h.l + h.r;
    forall i | 0 <= i < 64
      ensures s[i] == bits[IpTab(i) - 1]
    {}
    forall i | 0 <= i < 64
      ensures FinalPermutation(h.l, h.r)[i] == bits[i]
    {
      TablesInverse(i);
    }
  }

  // ---- Rounds, for any round function at all ----

  function Swap(h: Halves): Halves {
    Halves(h.r, h.l)
  }

  lemma {:induction false} RoundsAppend(f: RoundFunction, a: seq<RoundKey>, b: seq<RoundKey>, h: Halves)
    ensures Rounds(f, a + b, h) == Rounds(f, b, Rounds(f, a, h))
    decreases |b|
  {
    if b == [] {
      assert a + b == a;
    } else {
      assert (a + b)[..|a + b| - 1] == a + b[..|b| - 1];
      RoundsAppend(f, a, b[..|b| - 1], h);
    }
  }

  lemma RoundUndone(f: RoundFunction, k: RoundKey, h: Halves)
    ensures Round(f, k, Swap(Round(f, k, h))) == Swap(h)
  {
    var x := f(k, h.r);
    assert Xor(x, Xor(x, h.l)) == h.l;
  }

  /** Running the keys backwards on the swapped halves undoes the rounds. */
  lemma {:induction false} RoundsUndone(f: RoundFunction, keys: seq<RoundKey>, h: Halves)
    ensures Rounds(f, Reverse(keys), Swap(Rounds(f, keys, h))) == Swap(h)
  {
    if keys != [] {
      var init, last := keys[..|keys| - 1], keys[|keys| - 1];
      RoundsAppend(f, [last], Reverse(init), Swap(Rounds(f, keys, h)));
      assert [last][..0] == [];
      RoundUndone(f, last, Rounds(f, init, h));
      RoundsUndone(f, init, h);
    }
  }

  lemma ReverseTwice<T>(s: seq<T>)
    ensures Reverse(Reverse(s)) == s
  {}

  lemma CryptBitsUndone(keys: seq<RoundKey>, bits: BlockBits)
    ensures CryptBits(Reverse(keys), CryptBits(keys, bits)) == bits
  {
    hide Rounds, InitialPermutation, FinalPermutation;
    var h0 := InitialPermutation(bits);
    var h := Rounds(CipherF, keys, h0);
    InitialOfFinal(h.r, h.l);
    RoundsUndone(CipherF, keys, h0);
    FinalOfInitial(bits);
  }

  /** For every key and block, deciphering undoes enciphering. */
  lemma DecryptEncrypt(key: Block, text: Block)
    ensures Decrypt(key, Encrypt(key, text)) == text
  {
    hide CryptBits, SubKeys, Expand, Compress;
    var keys := SubKeys(Expand(key));
    ExpandCompress(CryptBits(keys, Expand(text)));
    CryptBitsUndone(keys, Expand(text));
    CompressExpand(text);
  }

  /** And enciphering undoes deciphering. */
  lemma EncryptDecrypt(key: Block, mtext: Block)
    ensures Encrypt(key, Decrypt(key, mtext)) == mtext
  {
    hide CryptBits, SubKeys, Expand, Compress;
    var keys := SubKeys(Expand(key));
    ExpandCompress(CryptBits(Reverse(keys), Expand(mtext)));
    CryptBitsUndone(Reverse(keys), Expand(mtext));
    ReverseTwice(keys);
    CompressExpand(mtext);
  }

  // ---- Complementation ----

  function Not(bits: Bits): (r: Bits)
    ensures |r| == |bits|
  {
    seq(|bits|, i requires 0 <= i < |bits| => 1 - bits[i])
  }

  function NotBytes(bytes: seq<Byte>): (r: seq<Byte>)
    ensures |r| == |bytes|
  {
    seq(|bytes|, i requires 0 <= i < |bytes| => 255 - bytes[i])
  }

  lemma ByteOfNot(bits: Bits)
    requires |bits| == 8
    ensures ByteOf(Not(bits)) == 255 - ByteOf(bits)
  {}

  lemma CompressNot(bits: Bits)
    requires |bits| % 8 == 0
    ensures Compress(Not(bits)) == NotBytes(Compress(bits))
  {
    forall i | 0 <= i < |bits| / 8
      ensures Compress(Not(bits))[i] == NotBytes(Compress(bits))[i]
    {
      assert Not(bits)[8 * i..8 * i + 8] == Not(bits[8 * i..8 * i + 8]);
      ByteOfNot(bits[8 * i..8 * i + 8]);
    }
  }

  lemma ExpandNot(bytes: seq<Byte>)
    ensures Expand(NotBytes(bytes)) == Not(Expand(bytes))
  {
    CompressNot(Expand(bytes));
    CompressExpand(bytes);
    ExpandCompress(Not(Expand(bytes)));
  }

  lemma {:induction false} KeyHalvesNot(bits: BlockBits, j: nat)
    requires j <= 16
    ensures KeyC(Not(bits), j) == Not(KeyC(bits, j))
    ensures KeyD(Not(bits), j) == Not(KeyD(bits, j))
  {
    hide Pc1C, Pc1D, LsCount;
    if j > 0 {
      KeyHalvesNot(bits, j - 1);
    }
  }

  function NotKeys(keys: seq<RoundKey>): (r: seq<RoundKey>)
    ensures |r| == |keys|
  {
    seq(|keys|, i requires 0 <= i < |keys| => Not(keys[i]))
  }

  lemma SubKeysNot(bits: BlockBits)
    ensures SubKeys(Not(bits)) == NotKeys(SubKeys(bits))
  {
    hide Pc2, KeyC, KeyD;
    forall j | 0 <= j < 16
      ensures SubKeys(Not(bits))[j] == Not(SubKeys(bits)[j])
    {
      KeyHalvesNot(bits, j + 1);
      var c, d := KeyC(bits, j + 1), KeyD(bits, j + 1);
      assert Son(Not(c), Not(d)) == Not(Son(c, d));
    }
  }

  function NotHalves(h: Halves): Halves {
    Halves(Not(h.l), Not(h.r))
  }

  /** Complementing both the key and the half leaves the input of the S-boxes alone. */
  lemma CipherFNot(k: RoundKey, r: Half)
    ensures CipherF(Not(k), Not(r)) == CipherF(k, r)
  {
    hide SBoxes, ERTab, PTab;
    assert Spread(Not(r)) == Not(Spread(r));
    assert Xor(Not(Spread(r)), Not(k)) == Xor(Spread(r), k);
  }

  /** A round function that does not see its two inputs complemented together. */
  ghost predicate BlindToNot(f: RoundFunction) {
    forall k: RoundKey, r: Half :: f(Not(k), Not(r)) == f(k, r)
  }

  lemma {:induction false} RoundsNot(f: RoundFunction, keys: seq<RoundKey>, h: Halves)
    requires BlindToNot(f)
    ensures Rounds(f, NotKeys(keys), NotHalves(h)) == NotHalves(Rounds(f, keys, h))
  {
    if keys != [] {
      var init, last := keys[..|keys| - 1], keys[|keys| - 1];
      assert NotKeys(keys)[..|keys| - 1] == NotKeys(init);
      RoundsNot(f, init, h);
      var g := Rounds(f, init, h);
      var x := f(last, g.r);
      assert f(Not(last), Not(g.r)) == x;
      assert Xor(x, Not(g.l)) == Not(Xor(x, g.l));
    }
  }

  lemma CryptBitsNot(keys: seq<RoundKey>, bits: BlockBits)
    ensures CryptBits(NotKeys(keys), Not(bits)) == Not(CryptBits(keys, bits))
  {
    hide Rounds, IpTab, FpTab;
    var h0 := InitialPermutation(bits);
    var g0 := InitialPermutation(Not(bits));
    assert g0.l == Not(h0.l) && g0.r == Not(h0.r);
    forall k: RoundKey, r: Half
      ensures CipherF(Not(k), Not(r)) == CipherF(k, r)
    {
      CipherFNot(k, r);
    }
    RoundsNot(CipherF, keys, h0);
    var h := Rounds(CipherF, keys, h0);
    assert Not(h.r) + Not(h.l) == Not(h.r + h.l);
  }

  /** Complementing key and plaintext complements the ciphertext. */
  lemma EncryptComplement(key: Block, text: Block)
    ensures Encrypt(NotBytes(key), NotBytes(text)) == NotBytes(Encrypt(key, text))
  {
    hide CryptBits, SubKeys, Expand, Compress;
    ExpandNot(key);
    ExpandNot(text);
    SubKeysNot(Expand(key));
    CryptBitsNot(SubKeys(Expand(key)), Expand(text));
    CompressNot(CryptBits(SubKeys(Expand(key)), Expand(text)));
  }

  // ---- The key schedule ----

  /** The running sum of the first `j` rotation counts. */
  function ShiftSum(j: nat): nat
    requires j <= 16
  {
    if j == 0 then 0 else ShiftSum(j - 1) + LsCount(j - 1)
  }

  lemma RotateTwice(bits: KeyHalf, a: nat, b: nat)
    ensures RotateLeft(RotateLeft(bits, a), b) == RotateLeft(bits, a + b)
  {
    var r := RotateLeft(bits, a + b);
    forall i | 0 <= i < 28
      ensures RotateLeft(RotateLeft(bits, a), b)[i] == r[i]
    {
      assert ((i + b) % 28 + a) % 28 == (i + (a + b)) % 28;
    }
  }

  /** Every C[j] and D[j] is the first one rotated by the running sum. */
  lemma {:induction false} ScheduleIsRotation(bits: BlockBits, j: nat)
    requires j <= 16
    ensures KeyC(bits, j) == RotateLeft(KeyC(bits, 0), ShiftSum(j))
    ensures KeyD(bits, j) == RotateLeft(KeyD(bits, 0), ShiftSum(j))
  {
    hide Pc1C, Pc1D, LsCount;
    if j > 0 {
      ScheduleIsRotation(bits, j - 1);
      hide RotateLeft;
      RotateTwice(KeyC(bits, 0), ShiftSum(j - 1), LsCount(j - 1));
      RotateTwice(KeyD(bits, 0), ShiftSum(j - 1), LsCount(j - 1));
    }
  }

  lemma ShiftSumTotal()
    ensures ShiftSum(16) == 28
  {
    assert ShiftSum(4) == 6;
    assert ShiftSum(8) == 14;
    assert ShiftSum(12) == 21;
  }

  /** After sixteen rounds both halves are back where they started. */
  lemma ScheduleCloses(bits: BlockBits)
    ensures KeyC(bits, 16) == KeyC(bits, 0)
    ensures KeyD(bits, 16) == KeyD(bits, 0)
  {
    hide KeyC, KeyD, LsCount;
    ScheduleIsRotation(bits, 16);
    ShiftSumTotal();
  }

  ghost predicate Constant(bits: Bits) {
    forall i, j :: 0 <= i < |bits| && 0 <= j < |bits| ==> bits[i] == bits[j]
  }

  /** A weak key: both halves of the chosen key bits are constant. */
  ghost predicate Weak(key: Block) {
    Constant(KeyC(Expand(key), 0)) && Constant(KeyD(Expand(key), 0))
  }

  lemma WeakSubKeys(key: Block, i: nat)
    requires Weak(key) && i < 16
    ensures SubKeys(Expand(key))[i] == Son(KeyC(Expand(key), 0), KeyD(Expand(key), 0))
  {
    hide Pc1C, Pc1D, Expand;
    var bits := Expand(key);
    ScheduleIsRotation(bits, i + 1);
    assert RotateLeft(KeyC(bits, 0), ShiftSum(i + 1)) == KeyC(bits, 0);
    assert RotateLeft(KeyD(bits, 0), ShiftSum(i + 1)) == KeyD(bits, 0);
  }

  /** Under a weak key all subkeys are equal and enciphering twice is the identity. */
  lemma WeakKeyIsInvolution(key: Block, text: Block)
    requires Weak(key)
    ensures forall i, j :: 0 <= i < 16 && 0 <= j < 16 ==> SubKeys(Expand(key))[i] == SubKeys(Expand(key))[j]
    ensures Encrypt(key, Encrypt(key, text)) == text
  {
    hide CryptBits, Expand, Compress, KeyC, KeyD, Son;
    var keys := SubKeys(Expand(key));
    forall i | 0 <= i < 16
      ensures keys[i] == Son(KeyC(Expand(key), 0), KeyD(Expand(key), 0))
    {
      WeakSubKeys(key, i);
    }
    assert Reverse(keys) == keys;
    DecryptEncrypt(key, text);
  }
}
