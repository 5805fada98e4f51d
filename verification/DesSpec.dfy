// The data encryption standard as DBRecord/datasafe.h computes it, on bit
// lists: the tables, the key schedule and the sixteen rounds.
module DesSpec {

  type Bit = b: int | 0 <= b <= 1
  type Bits = seq<Bit>
  type Byte = b: int | 0 <= b <= 255

  // ---- Bytes and bits ----

  /** The weight of bit `j` of a byte, the first bit being the heaviest. */
  function Weight(j: nat): (w: nat)
    requires j < 8
    ensures w > 0
  {
    [128, 64, 32, 16, 8, 4, 2, 1][j]
  }

  function BitOf(b: Byte, j: nat): Bit
    requires j < 8
  {
    b / Weight(j) % 2
  }

  function Expand(bytes: seq<Byte>): (bits: Bits)
    ensures |bits| == 8 * |bytes|
  {
    seq(8 * |bytes|, i requires 0 <= i < 8 * |bytes| => BitOf(bytes[i / 8], i % 8))
  }

  function ByteOf(bits: Bits): (b: Byte)
    requires |bits| == 8
  {
    var v := bits[0] as int * 128 + bits[1] as int * 64 + bits[2] as int * 32 + bits[3] as int * 16
             + bits[4] as int * 8 + bits[5] as int * 4 + bits[6] as int * 2 + bits[7] as int;
    v
  }

  function Compress(bits: Bits): (bytes: seq<Byte>)
    requires |bits| % 8 == 0
    ensures |bytes| == |bits| / 8
  {
    seq(|bits| / 8, i requires 0 <= i < |bits| / 8 => ByteOf(bits[8 * i..8 * i + 8]))
  }

  function Xor(a: Bits, b: Bits): (r: Bits)
    requires |a| == |b|
    ensures |r| == |a|
  {
    seq(|a|, i requires 0 <= i < |a| => (a[i] as int + b[i] as int) % 2)
  }

  // ---- Tables (positions count from one, as in the standard) ----

  function Pc1C(i: nat): (r: int)
    requires i < 28
    ensures 1 <= r <= 64
  {
    [[57, 49, 41, 33, 25, 17, 9],
     [1, 58, 50, 42, 34, 26, 18],
     [10, 2, 59, 51, 43, 35, 27],
     [19, 11, 3, 60, 52, 44, 36]][i / 7][i % 7]
  }

  function Pc1D(i: nat): (r: int)
    requires i < 28
    ensures 1 <= r <= 64
  {
    [[63, 55, 47, 39, 31, 23, 15],
     [7, 62, 54, 46, 38, 30, 22],
     [14, 6, 61, 53, 45, 37, 29],
     [21, 13, 5, 28, 20, 12, 4]][i / 7][i % 7]
  }

  function Pc2(i: nat): (r: int)
    requires i < 48
    ensures 1 <= r <= 56
  {
    [[14, 17, 11, 24, 1, 5],
     [3, 28, 15, 6, 21, 10],
     [23, 19, 12, 4, 26, 8],
     [16, 7, 27, 20, 13, 2],
     [41, 52, 31, 37, 47, 55],
     [30, 40, 51, 45, 33, 48],
     [44, 49, 39, 56, 34, 53],
     [46, 42, 50, 36, 29, 32]][i / 6][i % 6]
  }

  function LsCount(j: nat): (r: int)
    requires j < 16
    ensures 1 <= r <= 2
  {
    [1, 1, 2, 2, 2, 2, 2, 2, 1, 2, 2, 2, 2, 2, 2, 1][j]
  }

  function IpTab(i: nat): (r: int)
    requires i < 64
    ensures 1 <= r <= 64
  {
    [[58, 50, 42, 34, 26, 18, 10, 2],
     [60, 52, 44, 36, 28, 20, 12, 4],
     [62, 54, 46, 38, 30, 22, 14, 6],
     [64, 56, 48, 40, 32, 24, 16, 8],
     [57, 49, 41, 33, 25, 17, 9, 1],
     [59, 51, 43, 35, 27, 19, 11, 3],
     [61, 53, 45, 37, 29, 21, 13, 5],
     [63, 55, 47, 39, 31, 23, 15, 7]][i / 8][i % 8]
  }

  function FpTab(i: nat): (r: int)
    requires i < 64
    ensures 1 <= r <= 64
  {
    [[40, 8, 48, 16, 56, 24, 64, 32],
     [39, 7, 47, 15, 55, 23, 63, 31],
     [38, 6, 46, 14, 54, 22, 62, 30],
     [37, 5, 45, 13, 53, 21, 61, 29],
     [36, 4, 44, 12, 52, 20, 60, 28],
     [35, 3, 43, 11, 51, 19, 59, 27],
     [34, 2, 42, 10, 50, 18, 58, 26],
     [33, 1, 41, 9, 49, 17, 57, 25]][i / 8][i % 8]
  }

  function ERTab(i: nat): (r: int)
    requires i < 48
    ensures 1 <= r <= 32
  {
    [[32, 1, 2, 3, 4, 5, 4, 5, 6, 7, 8, 9],
     [8, 9, 10, 11, 12, 13, 12, 13, 14, 15, 16, 17],
     [16, 17, 18, 19, 20, 21, 20, 21, 22, 23, 24, 25],
     [24, 25, 26, 27, 28, 29, 28, 29, 30, 31, 32, 1]][i / 12][i % 12]
  }

  function PTab(i: nat): (r: int)
    requires i < 32
    ensures 1 <= r <= 32
  {
    [[16, 7, 20, 21, 29, 12, 28, 17],
     [1, 15, 23, 26, 5, 18, 31, 10],
     [2, 8, 24, 14, 32, 27, 3, 9],
     [19, 13, 30, 6, 22, 11, 4, 25]][i / 8][i % 8]
  }

  /** The shape of an S-box: four rows of sixteen four-bit values. */
  ghost predicate IsSBox(t: seq<seq<int>>) {
    |t| == 4 && forall y :: 0 <= y < 4 ==> |t[y]| == 16 && forall z :: 0 <= z < 16 ==> 0 <= t[y][z] < 16
  }

  function SBox0(): (t: seq<seq<int>>)
    ensures IsSBox(t)
  {
    [[14, 4, 13, 1, 2, 15, 11, 8, 3, 10, 6, 12, 5, 9, 0, 7],
     [0, 15, 7, 4, 14, 2, 13, 1, 10, 6, 12, 11, 9, 5, 3, 8],
     [4, 1, 14, 8, 13, 6, 2, 11, 15, 12, 9, 7, 3, 10, 5, 0],
     [15, 12, 8, 2, 4, 9, 1, 7, 5, 11, 3, 14, 10, 0, 6, 13]]
  }

  function SBox1(): (t: seq<seq<int>>)
    ensures IsSBox(t)
  {
    [[15, 1, 8, 14, 6, 11, 3, 4, 9, 7, 2, 13, 12, 0, 5, 10],
     [3, 13, 4, 7, 15, 2, 8, 14, 12, 0, 1, 10, 6, 9, 11, 5],
     [0, 14, 7, 11, 10, 4, 13, 1, 5, 8, 12, 6, 9, 3, 2, 15],
     [13, 8, 10, 1, 3, 15, 4, 2, 11, 6, 7, 12, 0, 5, 14, 9]]
  }

  function SBox2(): (t: seq<seq<int>>)
    ensures IsSBox(t)
  {
    [[10, 0, 9, 14, 6, 3, 15, 5, 1, 13, 12, 7, 11, 4, 2, 8],
     [13, 7, 0, 9, 3, 4, 6, 10, 2, 8, 5, 14, 12, 11, 15, 1],
     [13, 6, 4, 9, 8, 15, 3, 0, 11, 1, 2, 12, 5, 10, 14, 7],
     [1, 10, 13, 0, 6, 9, 8, 7, 4, 15, 14, 3, 11, 5, 2, 12]]
  }

  function SBox3(): (t: seq<seq<int>>)
    ensures IsSBox(t)
  {
    [[7, 13, 14, 3, 0, 6, 9, 10, 1, 2, 8, 5, 11, 12, 4, 15],
     [13, 8, 11, 5, 6, 15, 0, 3, 4, 7, 2, 12, 1, 10, 14, 9],
     [10, 6, 9, 0, 12, 11, 7, 13, 15, 1, 3, 14, 5, 2, 8, 4],
     [3, 15, 0, 6, 10, 1, 13, 8, 9, 4, 5, 11, 12, 7, 2, 14]]
  }

  function SBox4(): (t: seq<seq<int>>)
    ensures IsSBox(t)
  {
    [[2, 12, 4, 1, 7, 10, 11, 6, 8, 5, 3, 15, 13, 0, 14, 9],
     [14, 11, 2, 12, 4, 7, 13, 1, 5, 0, 15, 10, 3, 9, 8, 6],
     [4, 2, 1, 11, 10, 13, 7, 8, 15, 9, 12, 5, 6, 3, 0, 14],
     [11, 8, 12, 7, 1, 14, 2, 13, 6, 15, 0, 9, 10, 4, 5, 3]]
  }

  function SBox5(): (t: seq<seq<int>>)
    ensures IsSBox(t)
  {
    [[12, 1, 10, 15, 9, 2, 6, 8, 0, 13, 3, 4, 14, 7, 5, 11],
     [10, 15, 4, 2, 7, 12, 9, 5, 6, 1, 13, 14, 0, 11, 3, 8],
     [9, 14, 15, 5, 2, 8, 12, 3, 7, 0, 4, 10, 1, 13, 11, 6],
     [4, 3, 2, 12, 9, 5, 15, 10, 11, 14, 1, 7, 6, 0, 8, 13]]
  }

  function SBox6(): (t: seq<seq<int>>)
    ensures IsSBox(t)
  {
    [[4, 11, 2, 14, 15, 0, 8, 13, 3, 12, 9, 7, 5, 10, 6, 1],
     [13, 0, 11, 7, 4, 9, 1, 10, 14, 3, 5, 12, 2, 15, 8, 6],
     [1, 4, 11, 13, 12, 3, 7, 14, 10, 15, 6, 8, 0, 5, 9, 2],
     [6, 11, 13, 8, 1, 4, 10, 7, 9, 5, 0, 15, 14, 2, 3, 12]]
  }

  function SBox7(): (t: seq<seq<int>>)
    ensures IsSBox(t)
  {
    [[13, 2, 8, 4, 6, 15, 11, 1, 10, 9, 3, 14, 5, 0, 12, 7],
     [1, 15, 13, 8, 10, 3, 7, 4, 12, 5, 6, 11, 0, 14, 9, 2],
     [7, 11, 4, 1, 9, 12, 14, 2, 0, 6, 10, 13, 15, 3, 5, 8],
     [2, 1, 14, 7, 4, 10, 8, 13, 15, 12, 9, 0, 3, 5, 6, 11]]
  }

  /** The tables SSS[0] to SSS[7]; the source leaves SSS[8] to SSS[15] unused. */
  function SBox(i: nat): (t: seq<seq<int>>)
    requires i < 8
    ensures IsSBox(t)
  {
    hide *;
    if i == 0 then SBox0() else if i == 1 then SBox1() else if i == 2 then SBox2() else if i == 3 then SBox3()
    else if i == 4 then SBox4() else if i == 5 then SBox5() else if i == 6 then SBox6() else SBox7()
  }

  // ---- Key schedule ----

  type Half = h: Bits | |h| == 32 witness seq(32, _ => 0)
  type KeyHalf = h: Bits | |h| == 28 witness seq(28, _ => 0)
  type RoundKey = k: Bits | |k| == 48 witness seq(48, _ => 0)
  type Block = b: seq<Byte> | |b| == 8 witness seq(8, _ => 0)
  type BlockBits = b: Bits | |b| == 64 witness seq(64, _ => 0)

  function RotateLeft(bits: KeyHalf, count: nat): KeyHalf {
    seq(28, i requires 0 <= i < 28 => bits[(i + count) % 28])
  }

  /** C[j] of the source. */
  function KeyC(bits: BlockBits, j: nat): KeyHalf
    requires j <= 16
  {
    if j == 0 then seq(28, i requires 0 <= i < 28 => bits[Pc1C(i) - 1])
    else RotateLeft(KeyC(bits, j - 1), LsCount(j - 1))
  }

  /** D[j] of the source. */
  function KeyD(bits: BlockBits, j: nat): KeyHalf
    requires j <= 16
  {
    if j == 0 then seq(28, i requires 0 <= i < 28 => bits[Pc1D(i) - 1])
    else RotateLeft(KeyD(bits, j - 1), LsCount(j - 1))
  }

  function Son(c: KeyHalf, d: KeyHalf): RoundKey {
    seq(48, i requires 0 <= i < 48 => (c + d)[Pc2(i) - 1])
  }

  /** K[1] to K[16] of the source. */
  function SubKeys(bits: BlockBits): (keys: seq<RoundKey>)
    ensures |keys| == 16
  {
    seq(16, j requires 0 <= j < 16 => Son(KeyC(bits, j + 1), KeyD(bits, j + 1)))
  }

  // ---- Rounds ----

  datatype Halves = Halves(l: Half, r: Half)

  /** Bit `k` of the four-bit value `v`. */
  function NibbleBit(v: int, k: nat): Bit
    requires 0 <= v < 16 && k < 4
  {
    v / [8, 4, 2, 1][k] % 2
  }

  function SBoxValue(i: nat, a: RoundKey): (v: int)
    requires i < 8
    ensures 0 <= v < 16
  {
    var j := 6 * i;
    var y := a[j] as int * 2 + a[j + 5] as int;
    var z := a[j + 1] as int * 8 + a[j + 2] as int * 4 + a[j + 3] as int * 2 + a[j + 4] as int;
    SBox(i)[y][z]
  }

  function SBoxes(a: RoundKey): Half {
    seq(32, m requires 0 <= m < 32 => NibbleBit(SBoxValue(m / 4, a), m % 4))
  }

  function Spread(r: Half): RoundKey {
    seq(48, i requires 0 <= i < 48 => r[ERTab(i) - 1])
  }

  /** The function f of the standard. */
  function CipherF(k: RoundKey, r: Half): Half {
    var tmp := SBoxes(Xor(Spread(r), k));
    seq(32, i requires 0 <= i < 32 => tmp[PTab(i) - 1])
  }

  /** Any function that could stand in for f. */
  type RoundFunction = (RoundKey, Half) -> Half

  function Round(f: RoundFunction, k: RoundKey, h: Halves): Halves {
    Halves(h.r, Xor(f(k, h.r), h.l))
  }

  /** The rounds under the given keys, the first key first. */
  function Rounds(f: RoundFunction, keys: seq<RoundKey>, h: Halves): Halves {
    if keys == [] then h
    else Round(f, keys[|keys| - 1], Rounds(f, keys[..|keys| - 1], h))
  }

  function InitialPermutation(bits: BlockBits): Halves {
    Halves(seq(32, i requires 0 <= i < 32 => bits[IpTab(i) - 1]),
           seq(32, i requires 0 <= i < 32 => bits[IpTab(i + 32) - 1]))
  }

  function FinalPermutation(l: Half, r: Half): BlockBits {
    seq(64, i requires 0 <= i < 64 => (l + r)[FpTab(i) - 1])
  }

  function CryptBits(keys: seq<RoundKey>, bits: BlockBits): BlockBits {
    var h := Rounds(CipherF, keys, InitialPermutation(bits));
    FinalPermutation(h.r, h.l)
  }

  function Reverse<T>(s: seq<T>): (r: seq<T>)
    ensures |r| == |s|
    ensures forall i :: 0 <= i < |s| ==> r[i] == s[|s| - 1 - i]
  {
    if s == [] then [] else [s[|s| - 1]] + Reverse(s[..|s| - 1])
  }

  function CryptBlock(keys: seq<RoundKey>, block: Block): Block {
    hide *;
    Compress(CryptBits(keys, Expand(block)))
  }

  function Encrypt(key: Block, text: Block): Block {
    hide *;
    CryptBlock(SubKeys(Expand(key)), text)
  }

  function Decrypt(key: Block, mtext: Block): Block {
    hide *;
    CryptBlock(Reverse(SubKeys(Expand(key))), mtext)
  }
}
