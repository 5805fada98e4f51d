// The cipher as DBRecord/datasafe.h runs it: global key arrays filled by
// setkeystar, bit buffers written by loops, and blocks crypted in place.
module DesMachine {
  import opened DesSpec

  /** Row `j` of one of the key arrays. */
  ghost function Row(a: array2<Bit>, j: nat): (r: Bits)
    requires j < a.Length0
    reads a
    ensures |r| == a.Length1 && forall i :: 0 <= i < |r| ==> r[i] == a[j, i]
  {
    seq(a.Length1, i requires 0 <= i < a.Length1 reads a => a[j, i])
  }

  /** The bytes that a C pointer into `a` at `off` addresses as one block. */
  ghost function BlockAt(a: array<Byte>, off: nat): Block
    requires off + 8 <= a.Length
    reads a
  {
    a[off..off + 8]
  }

  ghost predicate SameOutside(was: seq<Byte>, now: seq<Byte>, off: nat) {
    |was| == |now| && forall i :: 0 <= i < |was| && !(off <= i < off + 8) ==> now[i] == was[i]
  }

  method Expand0(input: array<Byte>, off: nat, out: array<Bit>)
    requires off + 8 <= input.Length && out.Length == 64
    modifies out
    ensures out[..] == Expand(BlockAt(input, off))
  {
    ghost var bits := Expand(BlockAt(input, off));
    var o := 0;
    for i := 0 to 8
      invariant o == 8 * i
      invariant forall m :: 0 <= m < o ==> out[m] == bits[m]
    {
      var divide := 0x80;
      for j := 0 to 8
        invariant o == 8 * i + j
        invariant j < 8 ==> divide == Weight(j)
        invariant forall m :: 0 <= m < o ==> out[m] == bits[m]
      {
        assert o / 8 == i && o % 8 == j;
        assert bits[o] == input[off + i] / divide % 2;
        out[o] := input[off + i] / divide % 2;
        o := o + 1;
        divide := divide / 2;
      }
    }
  }

  /** The value of the first `j` bits of the byte that starts at `o`. */
  ghost function PartialByte(bits: Bits, o: nat, j: nat): nat
    requires o + 8 <= |bits| && j <= 8
  {
    if j == 0 then 0 else PartialByte(bits, o, j - 1) + bits[o + j - 1] as int * Weight(j - 1)
  }

  lemma PartialByteWhole(bits: Bits, o: nat)
    requires o + 8 <= |bits|
    ensures PartialByte(bits, o, 8) == ByteOf(bits[o..o + 8])
  {
    assert PartialByte(bits, o, 1) == bits[o] as int * 128;
    assert PartialByte(bits, o, 3) == PartialByte(bits, o, 1) + bits[o + 1] as int * 64 + bits[o + 2] as int * 32;
    assert PartialByte(bits, o, 5) == PartialByte(bits, o, 3) + bits[o + 3] as int * 16 + bits[o + 4] as int * 8;
    assert PartialByte(bits, o, 7) == PartialByte(bits, o, 5) + bits[o + 5] as int * 4 + bits[o + 6] as int * 2;
  }

  lemma WeightHalves(j: nat)
    requires j < 8
    ensures Weight(j) / 2 == if j < 7 then Weight(j + 1) else 0
    ensures Weight(0) == 128 && Weight(7) == 1
    ensures j < 7 ==> Weight(j) % 2 == 0
  {}

  method Compress0(out: array<Bit>, input: array<Byte>, off: nat)
    requires off + 8 <= input.Length && out.Length == 64
    modifies input
    ensures BlockAt(input, off) == Compress(out[..])
    ensures SameOutside(old(input[..]), input[..], off)
  {
    hide Weight;
    ghost var bits := out[..];
    ghost var was := input[..];
    WeightHalves(0);
    var o := 0;
    for i := 0 to 8
      invariant o == 8 * i && out[..] == bits
      invariant forall m :: 0 <= m < i ==> input[off + m] == Compress(bits)[m]
      invariant forall m :: 0 <= m < off || off + i <= m < input.Length ==> input[m] == was[m]
    {
      var times: int := 0x80;
      input[off + i] := 0;
      for j := 0 to 8
        invariant o == 8 * i + j && out[..] == bits
        invariant times == if j < 8 then Weight(j) else 0
        invariant input[off + i] == PartialByte(bits, 8 * i, j)
        invariant input[off + i] as int + 2 * times <= if j < 8 then 256 else 255
        invariant forall m :: 0 <= m < i ==> input[off + m] == Compress(bits)[m]
        invariant forall m :: 0 <= m < off || off + i < m < input.Length ==> input[m] == was[m]
      {
        assert out[o] == bits[8 * i + j];
        input[off + i] := input[off + i] + out[o] as int * times;
        o := o + 1;
        WeightHalves(j);
        times := times / 2;
      }
      PartialByteWhole(bits, 8 * i);
    }
  }

  /** The chosen key bits of one row, rotated into another. */
  method LS(a: array2<Bit>, from: nat, to: nat, count: nat)
    requires a.Length0 == 17 && a.Length1 == 28
    requires from < 17 && to < 17 && from != to
    modifies a
    ensures Row(a, to) == RotateLeft(old(Row(a, from)), count)
    ensures forall j :: 0 <= j < 17 && j != to ==> Row(a, j) == old(Row(a, j))
  {
    for i := 0 to 28
      invariant forall m :: 0 <= m < i ==> a[to, m] == old(a[from, (m + count) % 28])
      invariant forall j, m :: 0 <= j < 17 && 0 <= m < 28 && j != to ==> a[j, m] == old(a[j, m])
    {
      a[to, i] := a[from, (i + count) % 28];
    }
  }

  method SonInto(c: array2<Bit>, d: array2<Bit>, k: array2<Bit>, j: nat)
    requires c.Length0 == d.Length0 == k.Length0 == 17 && c.Length1 == d.Length1 == 28 && k.Length1 == 48
    requires j < 17
    modifies k
    ensures Row(k, j) == Son(Row(c, j), Row(d, j))
    ensures forall n :: 0 <= n < 17 && n != j ==> Row(k, n) == old(Row(k, n))
  {
    hide Pc2;
    var buffer := new Bit[56];
    for i := 0 to 28
      modifies buffer
      invariant forall m :: 0 <= m < i ==> buffer[m] == c[j, m]
    {
      buffer[i] := c[j, i];
    }
    for i := 28 to 56
      modifies buffer
      invariant forall m :: 0 <= m < 28 ==> buffer[m] == c[j, m]
      invariant forall m :: 28 <= m < i ==> buffer[m] == d[j, m - 28]
    {
      buffer[i] := d[j, i - 28];
    }
    ghost var cd := Row(c, j) + Row(d, j);
    assert buffer[..] == cd;
    for i := 0 to 48
      invariant buffer[..] == cd
      invariant forall m :: 0 <= m < i ==> k[j, m] == cd[Pc2(m) - 1]
      invariant forall n, m :: 0 <= n < 17 && 0 <= m < 48 && n != j ==> k[n, m] == old(k[n, m])
    {
      assert buffer[Pc2(i) - 1] == cd[Pc2(i) - 1];
      k[j, i] := buffer[Pc2(i) - 1];
    }
  }

  method SBox0To7(aa: array<Bit>, bb: array<Bit>)
    requires aa.Length == 64 && bb.Length == 64 && aa != bb
    modifies bb
    ensures bb[..32] == SBoxes(aa[..48])
  {
    hide SBox;
    ghost var a: RoundKey := aa[..48];
    var m := 0;
    for i := 0 to 8
      invariant m == 4 * i && aa[..48] == a
      invariant forall n :: 0 <= n < m ==> bb[n] == SBoxes(a)[n]
    {
      var j := 6 * i;
      var y: int := aa[j] as int * 2 + aa[j + 5] as int;
      var z: int := aa[j + 1] as int * 8 + aa[j + 2] as int * 4 + aa[j + 3] as int * 2 + aa[j + 4] as int;
      var ss := SBox(i)[y][z];
      assert ss == SBoxValue(i, a);
      y := 0x08;
      for k := 0 to 4
        invariant m == 4 * i + k && aa[..48] == a
        invariant y == if k < 4 then [8, 4, 2, 1][k] else 0
        invariant forall n :: 0 <= n < m ==> bb[n] == SBoxes(a)[n]
      {
        assert m / 4 == i && m % 4 == k;
        bb[m] := ss / y % 2;
        m := m + 1;
        y := y / 2;
      }
    }
  }

  /** One permuted block, split into halves. */
  method Ip(text: array<Byte>, off: nat, ll: array<Bit>, rr: array<Bit>)
    requires off + 8 <= text.Length && ll.Length == rr.Length == 64 && ll != rr
    modifies ll, rr
    ensures Halves(ll[..32], rr[..32]) == InitialPermutation(Expand(BlockAt(text, off)))
  {
    hide IpTab;
    var buffer := new Bit[64];
    Expand0(text, off, buffer);
    ghost var bits := buffer[..];
    for i := 0 to 32
      invariant buffer[..] == bits
      invariant forall m :: 0 <= m < i ==> ll[m] == bits[IpTab(m) - 1]
    {
      ll[i] := buffer[IpTab(i) - 1];
    }
    for i := 0 to 32
      invariant buffer[..] == bits
      invariant forall m :: 0 <= m < 32 ==> ll[m] == bits[IpTab(m) - 1]
      invariant forall m :: 0 <= m < i ==> rr[m] == bits[IpTab(m + 32) - 1]
    {
      rr[i] := buffer[IpTab(i + 32) - 1];
    }
  }

  method Fp(text: array<Bit>, ll: array<Bit>, rr: array<Bit>)
    requires text.Length == ll.Length == rr.Length == 64 && text != ll && text != rr
    modifies text
    ensures text[..] == FinalPermutation(ll[..32], rr[..32])
  {
    hide FpTab;
    var tmp := new Bit[64];
    for i := 0 to 32
      invariant forall m :: 0 <= m < i ==> tmp[m] == ll[m]
    {
      tmp[i] := ll[i];
    }
    for i := 32 to 64
      invariant forall m :: 0 <= m < 32 ==> tmp[m] == ll[m]
      invariant forall m :: 32 <= m < i ==> tmp[m] == rr[m - 32]
    {
      tmp[i] := rr[i - 32];
    }
    ghost var s := ll[..32] + rr[..32];
    assert tmp[..] == s;
    for i := 0 to 64
      invariant tmp[..] == s && ll[..32] + rr[..32] == s
      invariant forall m :: 0 <= m < i ==> text[m] == s[FpTab(m) - 1]
    {
      assert tmp[FpTab(i) - 1] == s[FpTab(i) - 1];
      text[i] := tmp[FpTab(i) - 1];
    }
  }

  /** The global key arrays of the source. */
  class Keys {
    const C: array2<Bit>
    const D: array2<Bit>
    const K: array2<Bit>

    constructor ()
      ensures Valid() && fresh(C) && fresh(D) && fresh(K)
    {
      var c, d, k := new Bit[17, 28], new Bit[17, 28], new Bit[17, 48];
      C, D, K := c, d, k;
    }

    ghost predicate Valid() {
      C.Length0 == D.Length0 == K.Length0 == 17 && C.Length1 == D.Length1 == 28 && K.Length1 == 48 && C != D
    }

    /** Row K[n] holds the n-th subkey of the key bits. */
    ghost predicate Holds(bits: BlockBits)
      requires Valid()
      reads K
    {
      forall n :: 1 <= n < 17 ==> Row(K, n) == SubKeys(bits)[n - 1]
    }

    method SetKeyStar(bits: array<Bit>)
      requires Valid() && bits.Length == 64
      modifies C, D, K
      ensures Holds(old(bits[..]))
    {
      hide Pc1C, Pc1D, LsCount;
      ghost var b: BlockBits := bits[..];
      for i := 0 to 28
        invariant bits[..] == b
        invariant forall m :: 0 <= m < i ==> C[0, m] == b[Pc1C(m) - 1]
      {
        C[0, i] := bits[Pc1C(i) - 1];
      }
      assert Row(C, 0) == KeyC(b, 0);
      for i := 0 to 28
        invariant bits[..] == b && Row(C, 0) == KeyC(b, 0)
        invariant forall m :: 0 <= m < i ==> D[0, m] == b[Pc1D(m) - 1]
      {
        D[0, i] := bits[Pc1D(i) - 1];
      }
      assert Row(D, 0) == KeyD(b, 0);
      for j := 0 to 16
        invariant Row(C, j) == KeyC(b, j) && Row(D, j) == KeyD(b, j)
        invariant forall n :: 1 <= n <= j ==> Row(K, n) == SubKeys(b)[n - 1]
      {
        LS(C, j, j + 1, LsCount(j));
        LS(D, j, j + 1, LsCount(j));
        SonInto(C, D, K, j + 1);
      }
    }

    /** The part of F that leaves the function f of the right half in `buffer`. */
    method Mix(n: nat, rr: array<Bit>, buffer: array<Bit>)
      requires Valid() && 1 <= n < 17
      requires rr.Length == buffer.Length == 64 && rr != buffer
      modifies buffer
      ensures buffer[..32] == CipherF(Row(K, n), rr[..32])
    {
      hide ERTab, PTab, SBoxes;
      ghost var k: RoundKey := Row(K, n);
      ghost var r: Half := rr[..32];
      var tmp := new Bit[64];
      for i := 0 to 48
        modifies buffer
        invariant forall m :: 0 <= m < i ==> buffer[m] == r[ERTab(m) - 1]
      {
        buffer[i] := rr[ERTab(i) - 1];
      }
      ghost var e := Spread(r);
      assert buffer[..48] == e;
      hide Spread;
      for i := 0 to 48
        modifies buffer
        invariant forall m :: 0 <= m < i ==> buffer[m] == Xor(e, k)[m]
        invariant forall m :: i <= m < 48 ==> buffer[m] == e[m]
      {
        buffer[i] := (buffer[i] as int + K[n, i] as int) % 2;
      }
      assert buffer[..48] == Xor(e, k);
      SBox0To7(buffer, tmp);
      ghost var t := SBoxes(Xor(e, k));
      for i := 0 to 32
        modifies buffer
        invariant forall m :: 0 <= m < i ==> buffer[m] == t[PTab(m) - 1]
      {
        assert tmp[..32][PTab(i) - 1] == t[PTab(i) - 1];
        buffer[i] := tmp[PTab(i) - 1];
      }
    }

    method F(n: nat, ll: array<Bit>, rr: array<Bit>, LL: array<Bit>, RR: array<Bit>)
      requires Valid() && 1 <= n < 17
      requires ll.Length == rr.Length == LL.Length == RR.Length == 64
      requires LL != RR && ll !in {LL, RR} && rr !in {LL, RR}
      modifies LL, RR
      ensures Halves(LL[..32], RR[..32]) == Round(CipherF, Row(K, n), Halves(ll[..32], rr[..32]))
    {
      hide CipherF;
      ghost var k: RoundKey := Row(K, n);
      ghost var l: Half, r: Half := ll[..32], rr[..32];
      var buffer := new Bit[64];
      Mix(n, rr, buffer);
      for i := 0 to 32
        modifies RR
        invariant forall m :: 0 <= m < i ==> RR[m] == Xor(CipherF(k, r), l)[m]
      {
        assert buffer[..32][i] == CipherF(k, r)[i];
        RR[i] := (buffer[i] as int + ll[i] as int) % 2;
      }
      for i := 0 to 32
        modifies LL
        invariant forall m :: 0 <= m < i ==> LL[m] == r[m]
      {
        LL[i] := rr[i];
      }
      assert RR[..32] == Xor(CipherF(k, r), l);
    }

    /** The loop of encrypt0: sixteen rounds with the keys in rising order. */
    method RisingRounds(ll: array<Bit>, rr: array<Bit>, LL: array<Bit>, RR: array<Bit>, ghost bits: BlockBits)
      requires Valid() && Holds(bits)
      requires ll.Length == rr.Length == LL.Length == RR.Length == 64
      requires ll != rr && LL !in {ll, rr, RR} && RR !in {ll, rr}
      modifies ll, rr, LL, RR
      ensures Halves(ll[..32], rr[..32]) == Rounds(CipherF, SubKeys(bits), old(Halves(ll[..32], rr[..32])))
    {
      hide Round, CipherF, SubKeys;
      ghost var keys, h0 := SubKeys(bits), Halves(ll[..32], rr[..32]);
      for i := 1 to 17
        modifies ll, rr, LL, RR
        invariant Halves(ll[..32], rr[..32]) == Rounds(CipherF, keys[..i - 1], h0)
      {
        F(i, ll, rr, LL, RR);
        CopyHalves(ll, rr, LL, RR);
        assert Row(K, i) == keys[i - 1];
        assert keys[..i][..i - 1] == keys[..i - 1];
      }
      assert keys[..16] == keys;
    }

    method Encrypt0(text: array<Byte>, t: nat, mtext: array<Byte>, m: nat, ghost bits: BlockBits)
      requires Valid() && Holds(bits)
      requires t + 8 <= text.Length && m + 8 <= mtext.Length
      modifies mtext
      ensures BlockAt(mtext, m) == CryptBlock(SubKeys(bits), old(BlockAt(text, t)))
      ensures SameOutside(old(mtext[..]), mtext[..], m)
    {
      hide Rounds, CipherF, SubKeys, Holds, Expand, Compress, InitialPermutation, FinalPermutation;
      var ll, rr, LL, RR := new Bit[64], new Bit[64], new Bit[64], new Bit[64];
      var tmp := new Bit[64];
      Ip(text, t, ll, rr);
      RisingRounds(ll, rr, LL, RR, bits);
      Fp(tmp, rr, ll);
      Compress0(tmp, mtext, m);
    }

    /** The loop of discrypt0: the keys in falling order. */
    method FallingRounds(ll: array<Bit>, rr: array<Bit>, LL: array<Bit>, RR: array<Bit>, ghost bits: BlockBits)
      requires Valid() && Holds(bits)
      requires ll.Length == rr.Length == LL.Length == RR.Length == 64
      requires ll != rr && LL !in {ll, rr, RR} && RR !in {ll, rr}
      modifies ll, rr, LL, RR
      ensures Halves(ll[..32], rr[..32]) == Rounds(CipherF, Reverse(SubKeys(bits)), old(Halves(ll[..32], rr[..32])))
    {
      hide Round, CipherF, SubKeys;
      ghost var keys, h0 := Reverse(SubKeys(bits)), Halves(ll[..32], rr[..32]);
      for i := 17 downto 1
        modifies ll, rr, LL, RR
        invariant Halves(ll[..32], rr[..32]) == Rounds(CipherF, keys[..17 - i], h0)
      {
        F(i, ll, rr, LL, RR);
        CopyHalves(ll, rr, LL, RR);
        assert Row(K, i) == keys[16 - i];
        assert keys[..17 - i][..16 - i] == keys[..16 - i];
      }
      assert keys[..16] == keys;
    }

    method Discrypt0(mtext: array<Byte>, m: nat, text: array<Byte>, t: nat, ghost bits: BlockBits)
      requires Valid() && Holds(bits)
      requires t + 8 <= text.Length && m + 8 <= mtext.Length
      modifies text
      ensures BlockAt(text, t) == CryptBlock(Reverse(SubKeys(bits)), old(BlockAt(mtext, m)))
      ensures SameOutside(old(text[..]), text[..], t)
    {
      hide Rounds, CipherF, SubKeys, Holds, Expand, Compress, InitialPermutation, FinalPermutation;
      var ll, rr, LL, RR := new Bit[64], new Bit[64], new Bit[64], new Bit[64];
      var tmp := new Bit[64];
      Ip(mtext, m, ll, rr);
      FallingRounds(ll, rr, LL, RR, bits);
      Fp(tmp, rr, ll);
      Compress0(tmp, text, t);
    }

    /** DES of the source; text and mtext may be the same block. */
    method DES(key: array<Byte>, k: nat, text: array<Byte>, t: nat, mtext: array<Byte>, m: nat)
      requires Valid() && k + 8 <= key.Length && t + 8 <= text.Length && m + 8 <= mtext.Length
      modifies mtext, C, D, K
      ensures BlockAt(mtext, m) == Encrypt(old(BlockAt(key, k)), old(BlockAt(text, t)))
      ensures SameOutside(old(mtext[..]), mtext[..], m)
    {
      hide CryptBlock, Expand, SubKeys;
      var tmp := new Bit[64];
      Expand0(key, k, tmp);
      SetKeyStar(tmp);
      Encrypt0(text, t, mtext, m, Expand(BlockAt(key, k)));
    }

    /** _DES of the source. */
    method UnDES(key: array<Byte>, k: nat, text: array<Byte>, t: nat, mtext: array<Byte>, m: nat)
      requires Valid() && k + 8 <= key.Length && t + 8 <= text.Length && m + 8 <= mtext.Length
      modifies mtext, C, D, K
      ensures BlockAt(mtext, m) == Decrypt(old(BlockAt(key, k)), old(BlockAt(text, t)))
      ensures SameOutside(old(mtext[..]), mtext[..], m)
    {
      hide CryptBlock, Expand, SubKeys;
      var tmp := new Bit[64];
      Expand0(key, k, tmp);
      SetKeyStar(tmp);
      Discrypt0(text, t, mtext, m, Expand(BlockAt(key, k)));
    }
  }

  /** The copy that ends every round. */
  method CopyHalves(ll: array<Bit>, rr: array<Bit>, LL: array<Bit>, RR: array<Bit>)
    requires ll.Length == rr.Length == LL.Length == RR.Length == 64
    requires ll != rr && LL !in {ll, rr} && RR !in {ll, rr}
    modifies ll, rr
    ensures ll[..32] == LL[..32] && rr[..32] == RR[..32]
  {
    for j := 0 to 32
      invariant forall m :: 0 <= m < j ==> ll[m] == LL[m] && rr[m] == RR[m]
    {
      ll[j] := LL[j];
      rr[j] := RR[j];
    }
  }
}
