// The password format as DBRecord/datasafe.h runs it, in fixed-size buffers
// with memcpy, strlen and strcat, and loops over the chunks.
module PasswordMachine {
  import opened Options
  import opened DesSpec
  import opened DesMachine
  import opened PasswordSpec

  // ---- Cascades ----

  /** The three calls by which sssDES enciphers one block under two keys. */
  method Cascade(keys: Keys, key: array<Byte>, k1: nat, k2: nat, input: array<Byte>, i: nat, out: array<Byte>, o: nat)
    requires keys.Valid() && key != out
    requires k1 + 8 <= key.Length && k2 + 8 <= key.Length && i + 8 <= input.Length && o + 8 <= out.Length
    modifies out, keys.C, keys.D, keys.K
    ensures BlockAt(out, o) ==
              EncryptCascade(old(BlockAt(key, k1)), old(BlockAt(key, k2)), old(BlockAt(input, i)))
    ensures SameOutside(old(out[..]), out[..], o)
  {
    hide Encrypt, Decrypt;
    keys.DES(key, k1, input, i, out, o);
    keys.UnDES(key, k2, out, o, out, o);
    keys.DES(key, k1, out, o, out, o);
  }

  /** The three calls by which _sssDES deciphers one block under two keys. */
  method UnCascade(keys: Keys, key: array<Byte>, k1: nat, k2: nat, input: array<Byte>, i: nat, out: array<Byte>, o: nat)
    requires keys.Valid() && key != out
    requires k1 + 8 <= key.Length && k2 + 8 <= key.Length && i + 8 <= input.Length && o + 8 <= out.Length
    modifies out, keys.C, keys.D, keys.K
    ensures BlockAt(out, o) ==
              DecryptCascade(old(BlockAt(key, k1)), old(BlockAt(key, k2)), old(BlockAt(input, i)))
    ensures SameOutside(old(out[..]), out[..], o)
  {
    hide Encrypt, Decrypt;
    keys.UnDES(key, k1, input, i, out, o);
    keys.DES(key, k2, out, o, out, o);
    keys.UnDES(key, k1, out, o, out, o);
  }

  ghost predicate LengthsFit(keyLength: int, inLength: int, key: array<Byte>, input: array<Byte>, out: array<Byte>) {
    keyLength in {8, 16} && inLength in {8, 16} ==>
      keyLength <= key.Length && inLength <= input.Length && inLength <= out.Length
  }

  lemma SssEncryptCases(k1: Block, k2: Block, t1: Block, t2: Block)
    ensures SssEncrypt(k1, t1) == Some(Encrypt(k1, t1))
    ensures SssEncrypt(k1, t1 + t2) == Some(EncryptCascade(k1, k1, t1) + EncryptCascade(k1, k1, t2))
    ensures SssEncrypt(k1 + k2, t1) == Some(EncryptCascade(k1, k2, t1))
    ensures SssEncrypt(k1 + k2, t1 + t2) == Some(EncryptCascade(k1, k2, t1) + EncryptCascade(k1, k2, t2))
  {
    hide EncryptCascade, Encrypt;
    assert (k1 + k2)[..8] == k1 && (k1 + k2)[8..] == k2 && (t1 + t2)[..8] == t1 && (t1 + t2)[8..] == t2;
  }

  lemma SssDecryptCases(k1: Block, k2: Block, t1: Block, t2: Block)
    ensures SssDecrypt(k1, t1) == Some(Decrypt(k1, t1))
    ensures SssDecrypt(k1, t1 + t2) == Some(DecryptCascade(k1, k1, t1) + DecryptCascade(k1, k1, t2))
    ensures SssDecrypt(k1 + k2, t1) == Some(DecryptCascade(k1, k2, t1))
    ensures SssDecrypt(k1 + k2, t1 + t2) == Some(DecryptCascade(k1, k2, t1) + DecryptCascade(k1, k2, t2))
  {
    hide DecryptCascade, Decrypt;
    assert (k1 + k2)[..8] == k1 && (k1 + k2)[8..] == k2 && (t1 + t2)[..8] == t1 && (t1 + t2)[8..] == t2;
  }

  /** sssDES; `out` may be `input` itself. */
  method SssDES(keys: Keys, key: array<Byte>, keyLength: int, input: array<Byte>, inLength: int, out: array<Byte>)
    returns (rc: int)
    requires keys.Valid() && key != out && LengthsFit(keyLength, inLength, key, input, out)
    modifies out, keys.C, keys.D, keys.K
    ensures rc == if keyLength in {8, 16} && inLength in {8, 16} then 0 else -1
    ensures rc == 0 ==>
              && SssEncrypt(old(key[..keyLength]), old(input[..inLength])) == Some(out[..inLength])
              && out[inLength..] == old(out[inLength..])
    ensures rc == -1 ==> out[..] == old(out[..])
  {
    hide SssEncrypt, EncryptCascade, Encrypt;
    rc := 0;
    if keyLength == 8 {
      if inLength == 16 {
        ghost var k: Block := key[..8];
        ghost var t1: Block, t2: Block := input[..8], input[8..16];
        assert input[..16] == t1 + t2;
        Cascade(keys, key, 0, 0, input, 0, out, 0);
        assert BlockAt(key, 0) == k && BlockAt(input, 8) == t2;
        Cascade(keys, key, 0, 0, input, 8, out, 8);
        SssEncryptCases(k, k, t1, t2);
        assert BlockAt(out, 0) == EncryptCascade(k, k, t1);
        assert out[..16] == BlockAt(out, 0) + BlockAt(out, 8);
        return;
      }
      if inLength != 8 {
        return -1;
      }
      ghost var k: Block, t: Block := key[..8], input[..8];
      SssEncryptCases(k, k, t, t);
      keys.DES(key, 0, input, 0, out, 0);
      return;
    }
    if keyLength != 16 {
      return -1;
    }
    if inLength == 8 {
      ghost var k1: Block, k2: Block, t: Block := key[..8], key[8..16], input[..8];
      assert key[..16] == k1 + k2;
      SssEncryptCases(k1, k2, t, t);
      Cascade(keys, key, 0, 8, input, 0, out, 0);
      return;
    }
    if inLength != 16 {
      return -1;
    }
    ghost var k1: Block, k2: Block, t1: Block, t2: Block := key[..8], key[8..16], input[..8], input[8..16];
    assert key[..16] == k1 + k2 && input[..16] == t1 + t2;
    Cascade(keys, key, 0, 8, input, 0, out, 0);
    assert BlockAt(key, 0) == k1 && BlockAt(key, 8) == k2 && BlockAt(input, 8) == t2;
    Cascade(keys, key, 0, 8, input, 8, out, 8);
    SssEncryptCases(k1, k2, t1, t2);
    assert BlockAt(out, 0) == EncryptCascade(k1, k2, t1);
    assert out[..16] == BlockAt(out, 0) + BlockAt(out, 8);
  }

  /** _sssDES; `out` may be `input` itself. */
  method UnSssDES(keys: Keys, key: array<Byte>, keyLength: int, input: array<Byte>, inLength: int, out: array<Byte>)
    returns (rc: int)
    requires keys.Valid() && key != out && LengthsFit(keyLength, inLength, key, input, out)
    modifies out, keys.C, keys.D, keys.K
    ensures rc == if keyLength in {8, 16} && inLength in {8, 16} then 0 else -1
    ensures rc == 0 ==>
              && SssDecrypt(old(key[..keyLength]), old(input[..inLength])) == Some(out[..inLength])
              && out[inLength..] == old(out[inLength..])
    ensures rc == -1 ==> out[..] == old(out[..])
  {
    hide SssDecrypt, DecryptCascade, Decrypt;
    rc := 0;
    if keyLength == 8 {
      if inLength == 16 {
        ghost var k: Block := key[..8];
        ghost var t1: Block, t2: Block := input[..8], input[8..16];
        assert input[..16] == t1 + t2;
        UnCascade(keys, key, 0, 0, input, 0, out, 0);
        assert BlockAt(key, 0) == k && BlockAt(input, 8) == t2;
        UnCascade(keys, key, 0, 0, input, 8, out, 8);
        SssDecryptCases(k, k, t1, t2);
        assert BlockAt(out, 0) == DecryptCascade(k, k, t1);
        assert out[..16] == BlockAt(out, 0) + BlockAt(out, 8);
        return;
      }
      if inLength != 8 {
        return -1;
      }
      ghost var k: Block, t: Block := key[..8], input[..8];
      SssDecryptCases(k, k, t, t);
      keys.UnDES(key, 0, input, 0, out, 0);
      return;
    }
    if keyLength != 16 {
      return -1;
    }
    if inLength == 8 {
      ghost var k1: Block, k2: Block, t: Block := key[..8], key[8..16], input[..8];
      assert key[..16] == k1 + k2;
      SssDecryptCases(k1, k2, t, t);
      UnCascade(keys, key, 0, 8, input, 0, out, 0);
      return;
    }
    if inLength != 16 {
      return -1;
    }
    ghost var k1: Block, k2: Block, t1: Block, t2: Block := key[..8], key[8..16], input[..8], input[8..16];
    assert key[..16] == k1 + k2 && input[..16] == t1 + t2;
    UnCascade(keys, key, 0, 8, input, 0, out, 0);
    assert BlockAt(key, 0) == k1 && BlockAt(key, 8) == k2 && BlockAt(input, 8) == t2;
    UnCascade(keys, key, 0, 8, input, 8, out, 8);
    SssDecryptCases(k1, k2, t1, t2);
    assert BlockAt(out, 0) == DecryptCascade(k1, k2, t1);
    assert out[..16] == BlockAt(out, 0) + BlockAt(out, 8);
  }

  // ---- String functions of the C library on buffers ----

  method MemCpy(dst: array<Byte>, d: nat, src: array<Byte>, s: nat, n: nat)
    requires d + n <= dst.Length && s + n <= src.Length && dst != src
    modifies dst
    ensures dst[..] == old(dst[..d]) + src[s..s + n] + old(dst[d + n..])
  {
    for i := 0 to n
      invariant forall m :: d <= m < d + i ==> dst[m] == src[m - d + s]
      invariant forall m :: 0 <= m < d || d + i <= m < dst.Length ==> dst[m] == old(dst[m])
    {
      dst[d + i] := src[s + i];
    }
  }

  method Clear(dst: array<Byte>)
    modifies dst
    ensures dst[..] == Take([], dst.Length)
  {
    for i := 0 to dst.Length
      invariant forall m :: 0 <= m < i ==> dst[m] == 0
    {
      dst[i] := 0;
    }
  }

  method StrLen(a: array<Byte>, off: nat) returns (n: nat)
    requires off <= a.Length && 0 in a[off..]
    ensures n == |CStr(a[off..])| && off + n < a.Length && a[off + n] == 0
  {
    n := 0;
    ghost var s := a[off..];
    assert CStr(s) != s by { CStrOfNulFree(s); }
    assert forall i :: 0 <= i < |CStr(s)| ==> s[i] == CStr(s)[i] != 0;
    while a[off + n] != 0
      invariant n <= |CStr(s)| < |s|
      decreases |CStr(s)| - n
    {
      assert s[|CStr(s)|] == 0;
      n := n + 1;
    }
  }

  lemma CStrOfPrefix(r: Bytes, rest: Bytes)
    requires 0 !in r
    ensures CStr(r + [0] + rest) == r
    ensures CStr(r + [0]) == r
  {
    if r == [] {
    } else {
      assert (r + [0] + rest)[1..] == r[1..] + [0] + rest;
      assert (r + [0])[1..] == r[1..] + [0];
      CStrOfPrefix(r[1..], rest);
    }
  }

  /** strcat of the string at `src + s`. */
  method StrCat(dst: array<Byte>, src: array<Byte>, s: nat)
    requires dst != src && s <= src.Length && 0 in src[s..] && 0 in dst[..]
    requires |CStr(dst[..])| + |CStr(src[s..])| < dst.Length
    modifies dst
    ensures CStr(dst[..]) == old(CStr(dst[..])) + CStr(src[s..]) && 0 in dst[..]
  {
    hide CStr;
    assert dst[0..] == dst[..];
    var d := StrLen(dst, 0);
    var n := StrLen(src, s);
    ghost var a, b := CStr(dst[..]), CStr(src[s..]);
    MemCpy(dst, d, src, s, n + 1);
    assert src[s..s + n + 1] == b + [0];
    assert dst[..] == a + b + [0] + old(dst[d + n + 1..]);
    assert 0 !in a + b;
    CStrOfPrefix(a + b, old(dst[d + n + 1..]));
    assert dst[d + n] == 0;
  }

  /** strcpy of the string in `src`. */
  method StrCpy(dst: array<Byte>, src: array<Byte>)
    requires dst != src && 0 in src[..] && |CStr(src[..])| < dst.Length
    modifies dst
    ensures CStr(dst[..]) == CStr(src[..]) && 0 in dst[..]
  {
    hide CStr;
    assert src[0..] == src[..];
    var n := StrLen(src, 0);
    ghost var b := CStr(src[..]);
    MemCpy(dst, 0, src, 0, n + 1);
    assert src[0..n + 1] == b + [0];
    assert dst[..] == b + [0] + old(dst[n + 1..]);
    CStrOfPrefix(b, old(dst[n + 1..]));
    assert dst[n] == 0;
  }

  // ---- Hex text ----

  /** asctobcd; `len` is even in every call. */
  method AscToBcd(bcd: array<Byte>, asc: array<Byte>, len: nat) returns (rc: int)
    requires len % 2 == 0 && len <= asc.Length && len / 2 <= bcd.Length && bcd != asc
    modifies bcd
    ensures rc == if UnHex(asc[..len]).Some? then 0 else -1
    ensures rc == 0 ==> UnHex(asc[..len]) == Some(bcd[..len / 2]) && bcd[len / 2..] == old(bcd[len / 2..])
    ensures rc == -1 ==> bcd[..] == old(bcd[..])
  {
    hide DigitValue;
    var p := new int[len + 1];
    for i := 0 to len
      modifies p
      invariant forall m :: 0 <= m < i ==> DigitValue(asc[..len][m]) == Some(p[m]) && 0 <= p[m] < 16
    {
      var v := Digit(asc[i]);
      if v < 0 {
        assert DigitValue(asc[..len][i]).None?;
        return -1;
      }
      p[i] := v;
    }
    for i := 0 to len / 2
      modifies bcd
      invariant forall m :: 0 <= m < i ==> bcd[m] as int == p[2 * m] * 16 + p[2 * m + 1]
      invariant forall m :: len / 2 <= m < bcd.Length ==> bcd[m] == old(bcd[m])
    {
      bcd[i] := p[2 * i] * 16 + p[2 * i + 1];
    }
    assert bcd[..len / 2] == UnHex(asc[..len]).value;
    rc := 0;
  }

  method Digit(c: Byte) returns (v: int)
    ensures v == match DigitValue(c) { case Some(d) => d case None => -1 }
    ensures -1 <= v < 16 && (v == -1 <==> DigitValue(c) == None)
  {
    if 48 <= c <= 57 {
      v := c - 48;
    } else if 97 <= c <= 102 {
      v := c - 97 + 10;
    } else if 65 <= c <= 70 {
      v := c - 65 + 10;
    } else {
      v := -1;
    }
  }

  /** bcdtoasc; `len` is even in every call. */
  method BcdToAsc(asc: array<Byte>, bcd: array<Byte>, len: nat)
    requires len % 2 == 0 && len < asc.Length && len / 2 <= bcd.Length && bcd != asc
    modifies asc
    ensures asc[..len + 1] == Hex(bcd[..len / 2]) + [0]
    ensures asc[len + 1..] == old(asc[len + 1..])
  {
    for i := 0 to len / 2
      invariant forall m :: 0 <= m < 2 * i ==> asc[m] == if m % 2 == 0 then bcd[m / 2] / 16 else bcd[m / 2] % 16
      invariant forall m :: len < m < asc.Length ==> asc[m] == old(asc[m])
    {
      asc[2 * i] := bcd[i] / 16;
      asc[2 * i + 1] := bcd[i] % 16;
    }
    ghost var hex := Hex(bcd[..len / 2]);
    for i := 0 to len
      invariant forall m :: 0 <= m < i ==> asc[m] == hex[m]
      invariant forall m :: i <= m < len ==> asc[m] == if m % 2 == 0 then bcd[m / 2] / 16 else bcd[m / 2] % 16
      invariant forall m :: len < m < asc.Length ==> asc[m] == old(asc[m])
    {
      if asc[i] > 0x09 {
        asc[i] := 65 + asc[i] - 0x0a;
      } else {
        asc[i] := asc[i] + 48;
      }
    }
    asc[len] := 0;
  }

  /** singleDES: hex text of the cipher, or nothing written at all. */
  method SingleDES(keys: Keys, key: array<Byte>, keyLength: int, input: array<Byte>, inLength: int, out: array<Byte>)
    requires keys.Valid() && key != out && input != out
    requires keyLength in {8, 16} && inLength in {8, 16} ==>
               keyLength <= key.Length && inLength <= input.Length && 2 * inLength < out.Length
    modifies out, keys.C, keys.D, keys.K
    ensures if keyLength in {8, 16} && inLength in {8, 16} then
              && out[..2 * inLength + 1] == SingleEncrypt(key[..keyLength], input[..inLength]) + [0]
              && out[2 * inLength + 1..] == old(out[2 * inLength + 1..])
            else out[..] == old(out[..])
  {
    hide SssEncrypt, Hex;
    var bcdtxt := new Byte[50];
    if keyLength != 8 && keyLength != 16 {
      return;
    }
    if inLength != 8 && inLength != 16 {
      return;
    }
    ghost var k, t := key[..keyLength], input[..inLength];
    var rc := SssDES(keys, key, keyLength, input, inLength, bcdtxt);
    assert SssEncrypt(k, t) == Some(bcdtxt[..inLength]);
    BcdToAsc(out, bcdtxt, 2 * inLength);
    assert key[..keyLength] == k && input[..inLength] == t;
  }

  /** _singleDES; text that is not hex is deciphered as zero bytes. */
  method UnSingleDES(keys: Keys, key: array<Byte>, keyLength: int, input: array<Byte>, inLength: int, out: array<Byte>)
    requires keys.Valid() && key != out && input != out
    requires keyLength in {8, 16} && inLength in {8, 16} ==>
               keyLength <= key.Length && 2 * inLength <= input.Length && inLength <= out.Length
    modifies out, keys.C, keys.D, keys.K
    ensures if keyLength in {8, 16} && inLength in {8, 16} then
              && out[..inLength] == SingleDecrypt(key[..keyLength], input[..2 * inLength], inLength)
              && out[inLength..] == old(out[inLength..])
            else out[..] == old(out[..])
  {
    hide SssDecrypt, UnHex;
    if keyLength != 8 && keyLength != 16 {
      return;
    }
    if inLength != 8 && inLength != 16 {
      return;
    }
    var bcdtxt := new Byte[50];
    Clear(bcdtxt);
    ghost var k, t := key[..keyLength], input[..2 * inLength];
    var rc := AscToBcd(bcdtxt, input, 2 * inLength);
    assert rc == -1 ==> bcdtxt[..inLength] == seq(inLength, _ => 0);
    ghost var bytes := bcdtxt[..inLength];
    rc := UnSssDES(keys, key, keyLength, bcdtxt, inLength, out);
    assert SssDecrypt(k, bytes) == Some(out[..inLength]);
    assert key[..keyLength] == k && input[..2 * inLength] == t;
    assert Take(t, 2 * inLength) == t;
  }

  // ---- Records ----

  ghost predicate IsString(a: array<Byte>)
    reads a
  {
    0 in a[..]
  }

  lemma TakeSplit(s: Bytes, n: nat)
    requires |s| <= n
    ensures Take(s, n) == s + Take([], n)[|s|..]
  {}

  lemma TakeIsString(s: Bytes, n: nat)
    requires n > |s|
    ensures 0 in Take(s, n)
  {
    assert Take(s, n)[|s|] == 0;
  }

  lemma {:induction false} CStrOfTake(s: Bytes, n: nat)
    requires n >= |s|
    ensures CStr(Take(s, n)) == CStr(s)
  {
    if s == [] {
    } else {
      assert Take(s, n)[1..] == Take(s[1..], n - 1);
      CStrOfTake(s[1..], n - 1);
    }
  }

  /** The first part of randomDES: the text block with its random pad, in a zeroed buffer. */
  method FillText(intxt: array<Byte>, input: array<Byte>, inLength: nat, randomTxt: array<Byte>, ghost draw: Block)
    returns (inlen: nat)
    requires intxt.Length == 20 && intxt[..] == Take([], 20) && intxt !in {input, randomTxt}
    requires 0 < inLength <= input.Length && randomTxt.Length >= 8 && randomTxt[..8] == draw
    modifies intxt
    ensures inlen == if inLength >= 16 then 0 else inLength
    ensures intxt[..] == Take(Padded(input[..inLength], draw), 20)
  {
    ghost var text := input[..inLength];
    inlen := inLength;
    if inLength >= 16 {
      inlen := 0;
      MemCpy(intxt, 0, input, 0, 16);
      assert intxt[..] == text[..16] + seq(4, _ => 0);
    } else {
      MemCpy(intxt, 0, input, 0, inLength);
      assert intxt[..] == text + seq(20 - inLength, _ => 0);
      PadText(intxt, inLength, randomTxt, draw, text);
    }
  }

  /** The random pad behind a short text. */
  method PadText(intxt: array<Byte>, inLength: nat, randomTxt: array<Byte>, ghost draw: Block, ghost text: Bytes)
    requires 0 < inLength < 16 && intxt.Length == 20 && intxt != randomTxt
    requires |text| == inLength && intxt[..] == text + seq(20 - inLength, _ => 0)
    requires randomTxt.Length >= 8 && randomTxt[..8] == draw
    modifies intxt
    ensures intxt[..] == Take(Padded(text, draw), 20)
  {
    if inLength < 8 {
      MemCpy(intxt, inLength, randomTxt, 0, 8 - inLength);
      assert randomTxt[0..8 - inLength] == draw[..8 - inLength];
      assert intxt[..] == text + draw[..8 - inLength] + seq(12, _ => 0);
    } else if inLength > 8 {
      MemCpy(intxt, inLength, randomTxt, 0, 16 - inLength);
      assert randomTxt[0..16 - inLength] == draw[..16 - inLength];
      assert intxt[..] == text + draw[..16 - inLength] + seq(4, _ => 0);
    } else {
      assert text + draw[..0] == text;
    }
  }

  method CopyDraw(randomTxt: array<Byte>, draw: Block)
    requires randomTxt.Length >= 8
    modifies randomTxt
    ensures randomTxt[..8] == draw
  {
    for i := 0 to 8
      invariant forall m :: 0 <= m < i ==> randomTxt[m] == draw[m]
    {
      randomTxt[i] := draw[i];
    }
  }

  /** The session key of randomDES, built byte by byte. */
  method FillSession(randomKey: array<Byte>, key: array<Byte>, randomTxt: array<Byte>, inlen: nat, ghost n: nat,
                     ghost draw: Block)
    requires randomKey.Length >= 8 && key.Length >= 8 && randomTxt.Length >= 8 && randomTxt[..8] == draw
    requires randomKey !in {key, randomTxt} && inlen == if n >= 16 then 0 else n
    modifies randomKey
    ensures randomKey[..8] == SessionKey(key[..8], n, draw)
  {
    hide IntToHex;
    MemCpy(randomKey, 0, randomTxt, 5, 3);
    randomKey[3] := IntToHex(inlen);
    MemCpy(randomKey, 4, key, 4, 4);
    assert randomTxt[5..8] == draw[5..8] && key[4..8] == key[..8][4..8];
  }

  /** The last part of randomDES: the header record, then the rest of the text's hex. */
  method StoreRecord(keys: Keys, key: array<Byte>, randomKey: array<Byte>, randombcdtxt: array<Byte>, out: array<Byte>,
                     ghost session: Block, ghost bcd: Bytes)
    requires keys.Valid() && key.Length >= 8 && randomKey.Length == 10 && out.Length >= 45
    requires key != out && out !in {randomKey, randombcdtxt}
    requires randomKey[..8] == session && randombcdtxt[..] == Take(bcd, 60) && |bcd| <= 32 && 0 !in bcd
    modifies out, keys.C, keys.D, keys.K
    ensures IsString(out)
    ensures CStr(out[..]) == SingleEncrypt(key[..8], session[..4] + Take(bcd, 4)) + Drop(bcd, 4)
  {
    hide SingleEncrypt, CStr;
    ghost var k: Block, head := key[..8], session[..4] + Take(bcd, 4);
    var randomTxt := new Byte[60];
    Clear(randomTxt);
    MemCpy(randomTxt, 0, randomKey, 0, 4);
    MemCpy(randomTxt, 4, randombcdtxt, 0, 4);
    assert randomTxt[..8] == head;
    SingleDES(keys, key, 8, randomTxt, 8, out);
    ghost var h, rest := SingleEncrypt(k, head), Drop(bcd, 4);
    SingleEncryptLength(k, head);
    assert out[..] == h + [0] + out[17..];
    CStrOfPrefix(h, out[17..]);
    assert out[16] == 0 && randombcdtxt[4..][29] == 0;
    assert Take(rest, 56) == randombcdtxt[4..];
    CStrOfTake(rest, 56);
    CStrOfNulFree(rest);
    StrCat(out, randombcdtxt, 4);
  }

  /** The first part of randomDES: session key and text block; returns the text's strlen. */
  method Prepare(key: array<Byte>, input: array<Byte>, inLength: nat, draw: Block, randomKey: array<Byte>,
                 intxt: array<Byte>)
    returns (n: nat)
    requires key.Length >= 8 && 0 < inLength <= input.Length
    requires randomKey.Length == 10 && intxt.Length == 20 && intxt[..] == Take([], 20)
    requires randomKey !in {key, input, intxt} && intxt !in {key, input}
    modifies randomKey, intxt
    ensures randomKey[..8] == SessionKey(key[..8], inLength, draw)
    ensures n <= 16 && intxt[..n] == CStr(Padded(input[..inLength], draw))
  {
    hide CStr, Padded, SessionKey;
    var randomTxt := new Byte[60];
    CopyDraw(randomTxt, draw);
    var inlen := FillText(intxt, input, inLength, randomTxt, draw);
    ghost var padded := Padded(input[..inLength], draw);
    FillSession(randomKey, key, randomTxt, inlen, inLength, draw);
    TakeIsString(padded, 20);
    CStrOfTake(padded, 20);
    assert intxt[0..] == intxt[..];
    n := StrLen(intxt, 0);
  }

  /** A string in a buffer that was zeroed before. */
  lemma Filled(buffer: Bytes, s: Bytes)
    requires |s| < |buffer| && buffer[..|s| + 1] == s + [0]
    requires buffer[|s| + 1..] == Take([], |buffer|)[|s| + 1..]
    ensures buffer == Take(s, |buffer|)
  {
    var n := |s| + 1;
    assert buffer == buffer[..n] + buffer[n..];
    assert Take(s, |buffer|) == s + [0] + Take([], |buffer|)[n..];
  }

  /** randomDES, with the eight random bytes given. */
  method RandomDES(keys: Keys, key: array<Byte>, input: array<Byte>, inLength: nat, out: array<Byte>, draw: Block)
    requires keys.Valid() && key.Length >= 8 && inLength <= input.Length && out.Length >= 45
    requires key != out && input != out
    modifies out, keys.C, keys.D, keys.K
    ensures inLength == 0 ==> out[..] == old(out[..])
    ensures inLength > 0 ==>
              IsString(out) && CStr(out[..]) == EncryptRecord(key[..8], input[..inLength], draw)
    ensures inLength > 0 ==> |CStr(out[..])| <= 44
  {
    hide SingleEncrypt, CStr, Padded, SessionKey;
    var randomKey, randombcdtxt, intxt := new Byte[10], new Byte[60], new Byte[20];
    Clear(intxt);
    if inLength == 0 {
      return;
    }
    ghost var k: Block, text := key[..8], input[..inLength];
    var n := Prepare(key, input, inLength, draw, randomKey, intxt);
    ghost var session, cut := SessionKey(k, inLength, draw), CStr(Padded(text, draw));
    Clear(randombcdtxt);
    SingleDES(keys, randomKey, 8, intxt, n, randombcdtxt);
    ghost var bcd := SingleEncrypt(session, cut);
    SingleEncryptLength(session, cut);
    Filled(randombcdtxt[..], bcd);
    SingleEncryptLength(k, session[..4] + Take(bcd, 4));
    StoreRecord(keys, key, randomKey, randombcdtxt, out, session, bcd);
  }

  /** The first part of _randomDES: the header record in plain. */
  method OpenHeader(keys: Keys, key: array<Byte>, input: array<Byte>, randombcdtxt: array<Byte>)
    requires keys.Valid() && key.Length >= 8 && input.Length >= 16
    requires randombcdtxt.Length == 60 && randombcdtxt !in {key, input}
    modifies randombcdtxt, keys.C, keys.D, keys.K
    ensures randombcdtxt[..8] == SingleDecrypt(key[..8], input[..16], 8)
  {
    hide SingleDecrypt;
    var randomTxt := new Byte[60];
    MemCpy(randomTxt, 0, input, 0, 16);
    ghost var k, text := key[..8], input[..16];
    assert randomTxt[..16] == text;
    UnSingleDES(keys, key, 8, randomTxt, 8, randombcdtxt);
  }

  /** The second part: session key and first hex digits out of the header. */
  method SplitHeader(key: array<Byte>, randombcdtxt: array<Byte>, randomKey: array<Byte>, randomTxt: array<Byte>)
    requires key.Length >= 8 && randombcdtxt.Length == 60 && randomKey.Length == 10 && randomTxt.Length == 60
    requires randomKey !in {key, randombcdtxt, randomTxt} && randomTxt !in {key, randombcdtxt}
    modifies randomKey, randomTxt
    ensures randomKey[..8] == randombcdtxt[..4] + key[4..8]
    ensures randomTxt[..] == Take(randombcdtxt[4..8], 60)
  {
    ghost var b := randombcdtxt[..];
    MemCpy(randomKey, 0, randombcdtxt, 0, 4);
    assert randomKey[..4] == b[..4];
    MemCpy(randomKey, 4, key, 4, 4);
    assert randomKey[..8] == b[..4] + key[4..8];
    Clear(randomTxt);
    TakeSplit(b[4..8], 60);
    hide Take;
    MemCpy(randomTxt, 0, randombcdtxt, 4, 4);
  }

  /** Appends the rest of the record to the hex digits found in the header. */
  method JoinText(randomTxt: array<Byte>, input: array<Byte>, ghost first: Block4) returns (n: nat)
    requires randomTxt.Length == 60 && randomTxt[..] == Take(first, 60) && randomTxt != input
    requires IsString(input) && 16 <= |CStr(input[..])| <= 44
    modifies randomTxt
    ensures n <= 32 && randomTxt[..n] == CStr(first) + CStr(input[..])[16..]
  {
    hide CStr;
    TakeIsString(first, 60);
    CStrOfTake(first, 60);
    CStrOfSuffix(input[..], 16);
    assert input[|CStr(input[..])|] == 0;
    assert input[16..][|CStr(input[..])| - 16] == 0;
    StrCat(randomTxt, input, 16);
    assert randomTxt[0..] == randomTxt[..];
    n := StrLen(randomTxt, 0);
  }

  type Block4 = b: Bytes | |b| == 4 witness [0, 0, 0, 0]

  /** The last part: the text in plain, cut to its length by the digit in the session key. */
  method OpenText(keys: Keys, randomKey: array<Byte>, randomTxt: array<Byte>, n: nat, out: array<Byte>,
                  ghost text: Bytes)
    requires keys.Valid() && randomKey.Length == 10 && randomTxt.Length == 60 && randomKey != randomTxt
    requires out !in {randomKey, randomTxt} && out.Length >= 20
    requires |text| <= 32 && n == |text| / 2 && randomTxt[..|text|] == text
    modifies randomTxt, out, keys.C, keys.D, keys.K
    ensures IsString(out) && |CStr(out[..])| <= 16
    ensures var plain := SingleDecrypt(randomKey[..8], text, n);
            var len := HexToInt(randomKey[3]);
            CStr(out[..]) == CStr(if len > 0 then Take(plain, len) else plain)
  {
    hide SingleDecrypt, CStr, HexToInt;
    var plaintxt := new Byte[60];
    ghost var plain := SingleDecrypt(randomKey[..8], text, n);
    DecipherText(keys, randomKey, randomTxt, n, plaintxt, text);
    var lenkey := HexToInt(randomKey[3]);
    CutText(plaintxt, lenkey, randomTxt, out, plain);
  }

  /** The text in plain, in a zeroed buffer. */
  method DecipherText(keys: Keys, randomKey: array<Byte>, randomTxt: array<Byte>, n: nat, plaintxt: array<Byte>,
                      ghost text: Bytes)
    requires keys.Valid() && randomKey.Length == 10 && randomTxt.Length == 60 && plaintxt.Length == 60
    requires plaintxt !in {randomKey, randomTxt}
    requires |text| <= 32 && n == |text| / 2 && randomTxt[..|text|] == text
    modifies plaintxt, keys.C, keys.D, keys.K
    ensures var plain := SingleDecrypt(old(randomKey[..8]), text, n);
            |plain| <= 16 && plaintxt[..] == Take(plain, 60)
  {
    hide SingleDecrypt, Take;
    Clear(plaintxt);
    ghost var session := randomKey[..8];
    UnSingleDES(keys, randomKey, 8, randomTxt, n, plaintxt);
    SingleDecryptLength(session, text, n);
    assert text[..2 * n] == randomTxt[..2 * n];
    ghost var plain := SingleDecrypt(session, text, n);
    TakeSplit(plain, 60);
    if n == 8 || n == 16 {
      assert plaintxt[..n] == plain && plaintxt[n..] == Take([], 60)[n..];
      assert plaintxt[..] == plaintxt[..n] + plaintxt[n..];
    } else {
      assert plain == [] && Take([], 60)[0..] == Take([], 60);
    }
  }

  lemma CutBuffer(plain: Bytes, n: nat)
    requires |plain| <= 16 && n < 16
    ensures Take([], 60)[..0] + Take(plain, 60)[0..n] + Take([], 60)[n..] == Take(Take(plain, n), 60)
  {}

  /** The text is cut to its length, unless it fills its block. */
  method CutText(plaintxt: array<Byte>, lenkey: int, randomTxt: array<Byte>, out: array<Byte>, ghost plain: Bytes)
    requires plaintxt.Length == 60 && randomTxt.Length == 60 && plaintxt != randomTxt && out !in {plaintxt, randomTxt}
    requires out.Length >= 20 && |plain| <= 16 && plaintxt[..] == Take(plain, 60) && 0 <= lenkey < 16
    modifies randomTxt, out
    ensures IsString(out) && |CStr(out[..])| <= 16
    ensures CStr(out[..]) == CStr(if lenkey > 0 then Take(plain, lenkey) else plain)
  {
    hide CStr, Take;
    Clear(randomTxt);
    if lenkey > 0 {
      CutBuffer(plain, lenkey);
      MemCpy(randomTxt, 0, plaintxt, 0, lenkey);
      assert randomTxt[..] == Take(Take(plain, lenkey), 60);
      TakeIsString(Take(plain, lenkey), 60);
      CStrOfTake(Take(plain, lenkey), 60);
      StrCpy(out, randomTxt);
    } else {
      TakeIsString(plain, 60);
      CStrOfTake(plain, 60);
      StrCpy(out, plaintxt);
    }
  }

  /** _randomDES on the string in `input`, whose length the caller gives. */
  method UnRandomDES(keys: Keys, key: array<Byte>, input: array<Byte>, inLength: nat, out: array<Byte>)
    requires keys.Valid() && key.Length >= 8 && out.Length >= 20
    requires key != out && input != out
    requires IsString(input) && inLength == |CStr(input[..])|
    modifies out, keys.C, keys.D, keys.K
    ensures inLength !in {28, 44} ==> out[..] == old(out[..])
    ensures inLength in {28, 44} ==>
              IsString(out) && CStr(out[..]) == DecryptRecord(key[..8], CStr(input[..])) && |CStr(out[..])| <= 16
  {
    hide SingleDecrypt, CStr, HexToInt;
    if inLength != 28 && inLength != 44 {
      return;
    }
    ghost var k: Block, text := key[..8], CStr(input[..]);
    var randomKey, randombcdtxt, randomTxt := new Byte[10], new Byte[60], new Byte[60];
    OpenHeader(keys, key, input, randombcdtxt);
    SplitHeader(key, randombcdtxt, randomKey, randomTxt);
    ghost var header := SingleDecrypt(k, text[..16], 8);
    assert input[..16] == text[..16];
    SingleDecryptLength(k, text[..16], 8);
    assert Take(header, 8) == header;
    assert randombcdtxt[..8] == header;
    assert randombcdtxt[4..8] == randombcdtxt[..8][4..8] == header[4..8];
    var n := JoinText(randomTxt, input, header[4..8]);
    assert randomKey[..8] == header[..4] + k[4..8] && randomKey[3] == randomKey[..8][3];
    OpenText(keys, randomKey, randomTxt, n / 2, out, CStr(header[4..8]) + text[16..]);
  }

  lemma {:induction false} CStrOfSuffix(s: Bytes, n: nat)
    requires n <= |CStr(s)|
    ensures CStr(s[n..]) == CStr(s)[n..]
  {
    if n > 0 {
      CStrOfSuffix(s[1..], n - 1);
      assert s[1..][n - 1..] == s[n..];
    }
  }

  // ---- Whole passwords ----

  method KeyArray() returns (key: array<Byte>)
    ensures fresh(key) && key.Length == 8 && key[..8] == DesKey()
  {
    key := new Byte[] [64, 87, 83, 88, 36, 82, 70, 86];
  }

  /** A chunk of the input as a string of its own. */
  method CopyChunk(sour: array<Byte>, input: array<Byte>, op: nat, n: nat) returns (len: nat)
    requires sour.Length == 45 && n <= 44 && op + n <= input.Length && NulFree(input[op..op + n]) && sour != input
    modifies sour
    ensures IsString(sour) && CStr(sour[..]) == input[op..op + n] && len == n && sour[..n] == input[op..op + n]
  {
    hide CStr;
    ghost var chunk := input[op..op + n];
    Clear(sour);
    MemCpy(sour, 0, input, op, n);
    assert sour[..] == Take(chunk, 45);
    TakeIsString(chunk, 45);
    CStrOfTake(chunk, 45);
    CStrOfNulFree(chunk);
    assert sour[0..] == sour[..];
    len := StrLen(sour, 0);
  }

  method EmptyString(dest: array<Byte>)
    requires dest.Length > 0
    modifies dest
    ensures IsString(dest) && CStr(dest[..]) == []
  {
    Clear(dest);
    TakeIsString([], dest.Length);
    CStrOfTake([], dest.Length);
  }

  lemma EncryptStep(text: Bytes, draws: seq<Block>, i: nat)
    requires 16 * i < |text| && |draws| >= Records(|text|)
    ensures var n := if |text| - 16 * i < 16 then |text| - 16 * i else 16;
            EncryptPassword(text[16 * i..], draws[i..]) ==
              EncryptRecord(DesKey(), text[16 * i..16 * i + n], draws[i]) +
              (if n < 16 then [] else EncryptPassword(text[16 * (i + 1)..], draws[i + 1..]))
  {
    hide EncryptRecord;
    var rest := text[16 * i..];
    if |rest| < 16 {
      assert rest == text[16 * i..16 * i + |rest|];
    } else {
      assert rest[..16] == text[16 * i..16 * i + 16];
      assert rest[16..] == text[16 * (i + 1)..] && draws[i..][1..] == draws[i + 1..];
    }
  }

  lemma DecryptStep(text: Bytes, i: nat)
    requires 44 * i < |text|
    ensures var n := if |text| - 44 * i < 44 then |text| - 44 * i else 44;
            DecryptPassword(text[44 * i..]) ==
              DecryptRecord(DesKey(), text[44 * i..44 * i + n]) +
              (if n < 44 then [] else DecryptPassword(text[44 * (i + 1)..]))
  {
    hide DecryptRecord;
    var rest := text[44 * i..];
    if |rest| < 44 {
      assert rest == text[44 * i..44 * i + |rest|];
    } else {
      assert rest[..44] == text[44 * i..44 * i + 44];
      assert rest[44..] == text[44 * (i + 1)..];
    }
  }

  /** One pass of the loop in encrypt: the chunk of `n` bytes at `op` becomes a record at the end of `out`. */
  method EncryptChunk(keys: Keys, input: array<Byte>, op: nat, n: nat, out: array<Byte>, draw: Block)
    requires keys.Valid() && 0 < n <= 16 && op + n <= input.Length && NulFree(input[op..op + n]) && input != out
    requires IsString(out) && |CStr(out[..])| + 44 < out.Length
    modifies out, keys.C, keys.D, keys.K
    ensures IsString(out)
    ensures CStr(out[..]) == old(CStr(out[..])) + EncryptRecord(DesKey(), input[op..op + n], draw)
    ensures |CStr(out[..])| <= old(|CStr(out[..])|) + 44
  {
    hide CStr, EncryptRecord;
    var key := KeyArray();
    var sour, dest := new Byte[45], new Byte[45];
    var len := CopyChunk(sour, input, op, n);
    RandomDES(keys, key, sour, len, dest, draw);
    assert dest[0..] == dest[..];
    StrCat(out, dest, 0);
  }

  /** The loop of encrypt over the full chunks. */
  method EncryptChunks(keys: Keys, input: array<Byte>, num: nat, out: array<Byte>, draws: seq<Block>, ghost text: Bytes)
    requires keys.Valid() && |text| <= input.Length && input[..|text|] == text && NulFree(text) && input != out
    requires 16 * num <= |text| && |draws| >= Records(|text|) && out.Length > 44 * num
    requires IsString(out) && CStr(out[..]) == []
    modifies out, keys.C, keys.D, keys.K
    ensures IsString(out) && |CStr(out[..])| <= 44 * num
    ensures CStr(out[..]) + EncryptPassword(text[16 * num..], draws[num..]) == EncryptPassword(text, draws)
  {
    hide EncryptRecord, CStr, EncryptPassword;
    assert text[0..] == text && draws[0..] == draws;
    for i := 0 to num
      invariant IsString(out) && |CStr(out[..])| <= 44 * i && input[..|text|] == text
      invariant CStr(out[..]) + EncryptPassword(text[16 * i..], draws[i..]) == EncryptPassword(text, draws)
    {
      EncryptStep(text, draws, i);
      assert input[16 * i..16 * i + 16] == text[16 * i..16 * i + 16];
      EncryptChunk(keys, input, 16 * i, 16, out, draws[i]);
    }
  }

  /** encrypt, into a buffer that holds the empty string and has the room. */
  method EncryptText(keys: Keys, input: array<Byte>, inLength: nat, out: array<Byte>, draws: seq<Block>)
    requires keys.Valid() && inLength <= input.Length && NulFree(input[..inLength]) && input != out
    requires |draws| >= Records(inLength) && out.Length >= 45 && out.Length > 44 * Records(inLength)
    requires IsString(out) && CStr(out[..]) == []
    modifies out, keys.C, keys.D, keys.K
    ensures IsString(out) && CStr(out[..]) == EncryptPassword(input[..inLength], draws)
  {
    hide EncryptRecord, CStr;
    ghost var text := input[..inLength];
    if inLength < 16 {
      if inLength > 0 {
        var key := KeyArray();
        RandomDES(keys, key, input, inLength, out, draws[0]);
      }
      return;
    }
    hide EncryptPassword;
    var rLen, num := inLength % 16, inLength / 16;
    EncryptChunks(keys, input, num, out, draws, text);
    if rLen > 0 {
      EncryptStep(text, draws, num);
      assert input[16 * num..16 * num + rLen] == text[16 * num..16 * num + rLen];
      EncryptChunk(keys, input, 16 * num, rLen, out, draws[num]);
    } else {
      assert text[16 * num..] == [];
      EmptyEncrypts(draws[num..]);
    }
  }

  lemma EmptyEncrypts(draws: seq<Block>)
    ensures EncryptPassword([], draws) == []
    ensures DecryptPassword([]) == []
  {}

  /** One pass of the loop in _encrypts: a record of at most 44 characters is opened at the end of `out`. */
  method DecryptChunk(keys: Keys, input: array<Byte>, op: nat, n: nat, out: array<Byte>)
    requires keys.Valid() && 0 < n <= 44 && op + n <= input.Length && NulFree(input[op..op + n]) && input != out
    requires IsString(out) && |CStr(out[..])| + 16 < out.Length
    modifies out, keys.C, keys.D, keys.K
    ensures IsString(out)
    ensures CStr(out[..]) == old(CStr(out[..])) + DecryptRecord(DesKey(), input[op..op + n])
    ensures |CStr(out[..])| <= old(|CStr(out[..])|) + 16
  {
    hide CStr, DecryptRecord;
    var key := KeyArray();
    var sour, dest := new Byte[45], new Byte[45];
    var len := CopyChunk(sour, input, op, n);
    EmptyString(dest);
    if len !in {28, 44} {
      WrongLengthIsLost(DesKey(), input[op..op + n]);
    }
    UnRandomDES(keys, key, sour, len, dest);
    assert dest[0..] == dest[..];
    StrCat(out, dest, 0);
  }

  /** The loop of _encrypts over the full records. */
  method DecryptChunks(keys: Keys, input: array<Byte>, num: nat, out: array<Byte>, ghost text: Bytes)
    requires keys.Valid() && |text| <= input.Length && input[..|text|] == text && NulFree(text) && input != out
    requires 44 * num <= |text| && out.Length > 16 * num
    requires IsString(out) && CStr(out[..]) == []
    modifies out, keys.C, keys.D, keys.K
    ensures IsString(out) && |CStr(out[..])| <= 16 * num
    ensures CStr(out[..]) + DecryptPassword(text[44 * num..]) == DecryptPassword(text)
  {
    hide DecryptRecord, CStr, DecryptPassword;
    assert text[0..] == text;
    for i := 0 to num
      invariant IsString(out) && |CStr(out[..])| <= 16 * i && input[..|text|] == text
      invariant CStr(out[..]) + DecryptPassword(text[44 * i..]) == DecryptPassword(text)
    {
      DecryptStep(text, i);
      assert input[44 * i..44 * i + 44] == text[44 * i..44 * i + 44];
      DecryptChunk(keys, input, 44 * i, 44, out);
    }
  }

  /** _encrypts, into a buffer that holds the empty string and has the room. */
  method DecryptText(keys: Keys, input: array<Byte>, inLength: nat, out: array<Byte>)
    requires keys.Valid() && IsString(input) && inLength == |CStr(input[..])| && input != out
    requires out.Length >= 20 && out.Length > 16 * (inLength / 44 + 1)
    requires IsString(out) && CStr(out[..]) == []
    modifies out, keys.C, keys.D, keys.K
    ensures IsString(out) && CStr(out[..]) == DecryptPassword(CStr(input[..]))
  {
    hide DecryptRecord, CStr;
    ghost var text := CStr(input[..]);
    if inLength < 44 {
      var key := KeyArray();
      if inLength !in {28, 44} {
        WrongLengthIsLost(DesKey(), text);
      }
      UnRandomDES(keys, key, input, inLength, out);
      return;
    }
    hide DecryptPassword;
    var rLen, num := inLength % 44, inLength / 44;
    DecryptChunks(keys, input, num, out, text);
    if rLen > 0 {
      DecryptStep(text, num);
      assert input[44 * num..44 * num + rLen] == text[44 * num..44 * num + rLen];
      DecryptChunk(keys, input, 44 * num, rLen, out);
    } else {
      assert text[44 * num..] == [];
      EmptyEncrypts([]);
    }
  }
}
