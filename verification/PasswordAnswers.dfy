// What stored passwords look like: the digits, the order of the cascade, the
// parts of a record, and two passwords worked out from the tables of DES.
module PasswordAnswers {
  import opened Options
  import opened DesSpec
  import opened DesWords
  import opened DesAnswers
  import opened PasswordSpec

  /** Text as the bytes of its characters. */
  function Ascii(s: string): (r: Bytes)
    ensures |r| == |s|
  {
    seq(|s|, i requires 0 <= i < |s| => s[i] as int % 256)
  }

  // ---- Digits ----

  const CAPITALS := "0123456789ABCDEF"
  const SMALLS := "0123456789abcdef"

  /** A byte is written as two capital digits, the upper half first. */
  lemma HexDigits(bytes: Bytes, i: nat)
    requires i < |bytes|
    ensures Hex(bytes)[2 * i] == CAPITALS[bytes[i] / 16] as int
    ensures Hex(bytes)[2 * i + 1] == CAPITALS[bytes[i] % 16] as int
  {
    assert (2 * i) % 2 == 0 && (2 * i) / 2 == i && (2 * i + 1) % 2 == 1 && (2 * i + 1) / 2 == i;
    CapitalDigit(bytes[i] / 16);
    CapitalDigit(bytes[i] % 16);
    hide HexDigit;
  }

  lemma CapitalDigit(v: nat)
    requires v < 16
    ensures HexDigit(v) == CAPITALS[v] as int
  {}

  /** Capital and small digits are read, and nothing else. */
  lemma DigitsAreRead(c: Byte, v: int)
    ensures DigitValue(c) == Some(v) <==> 0 <= v < 16 && (c == CAPITALS[v] as int || c == SMALLS[v] as int)
  {}

  /** A length below sixteen is written as one capital digit, and of the small letters `d` to `i` are read. */
  lemma LengthDigits(n: nat, c: Byte)
    requires n < 16
    ensures IntToHex(n) == CAPITALS[n] as int
    ensures HexToInt(c) == n <==>
            c == CAPITALS[n] as int || (10 <= n && c == "defghi"[n - 10] as int) ||
            (n == 0 && forall m :: 0 < m < 16 ==> c != CAPITALS[m] as int && (10 <= m ==> c != "defghi"[m - 10] as int))
  {
    if n == 0 {
      forall m | 0 < m < 16
        ensures c == CAPITALS[m] as int || (10 <= m && c == "defghi"[m - 10] as int) ==> HexToInt(c) == m
      {}
      if HexToInt(c) != 0 {
        var m := HexToInt(c);
        assert c == CAPITALS[m] as int || (10 <= m && c == "defghi"[m - 10] as int);
      }
    }
  }

  // ---- The cascade ----

  /** One block under one key, or under two: enciphered with the first, deciphered with the second and enciphered with
      the first again. */
  function BlockCipher(key: Bytes, b: Block): Block
    requires |key| in {8, 16}
  {
    hide *;
    if |key| == 8 then Encrypt(key, b) else Encrypt(key[..8], Decrypt(key[8..], Encrypt(key[..8], b)))
  }

  function ByBlocks(key: Bytes, input: Bytes): (r: Bytes)
    requires |key| in {8, 16} && |input| in {8, 16}
    ensures |r| == |input|
  {
    hide *;
    if |input| == 8 then BlockCipher(key, input) else BlockCipher(key, input[..8]) + BlockCipher(key, input[8..])
  }

  /** Each block of eight bytes is ciphered by itself. */
  lemma BlockByBlock(key: Bytes, input: Bytes)
    requires |key| in {8, 16} && |input| in {8, 16}
    ensures SssEncrypt(key, input) == Some(ByBlocks(key, input))
  {
    hide Encrypt, Decrypt;
    if |key| == 8 && |input| == 16 {
      SingleKeyCollapses(key, input);
    }
  }

  // ---- Records ----

  /** The text filled up with random bytes to eight or sixteen. */
  function FilledUp(input: Bytes, draw: Block): (s: Bytes)
    requires 0 < |input| <= 16
    ensures |s| == if |input| <= 8 then 8 else 16
  {
    input + draw[..if |input| <= 8 then 8 - |input| else 16 - |input|]
  }

  /** The session key: the last three random bytes, the length as a digit, 0 for sixteen, and half of the fixed key. */
  function Session(n: nat, draw: Block): Block
    requires 0 < n <= 16
  {
    [draw[5], draw[6], draw[7], CAPITALS[n % 16] as int] + Ascii("$RFV")
  }

  /** The cipher text as hex digits, block by block. */
  function CipherText(session: Block, s: Bytes): (r: Bytes)
    requires |s| in {8, 16}
    ensures |r| == 2 * |s|
  {
    hide *;
    if |s| == 8 then Hex(Encrypt(session, s)) else Hex(Encrypt(session, s[..8]) + Encrypt(session, s[8..]))
  }

  lemma CipherIs(session: Block, s: Bytes)
    requires |s| in {8, 16}
    ensures SingleEncrypt(session, s) == CipherText(session, s)
  {
    hide Encrypt, Hex;
    if |s| == 16 {
      SingleKeyCollapses(session, s);
    }
  }

  lemma FilledIsPadded(input: Bytes, draw: Block)
    requires 0 < |input| <= 16
    ensures Padded(input, draw) == FilledUp(input, draw)
  {
    assert |input| in {8, 16} ==> draw[..0] == [];
  }

  lemma SessionIs(n: nat, draw: Block)
    requires 0 < n <= 16
    ensures SessionKey(DesKey(), n, draw) == Session(n, draw)
  {
    KeyIsText();
    LengthDigits(n % 16, 0);
    hide IntToHex, HexToInt, DesKey, Ascii;
    assert n < 16 ==> n % 16 == n;
  }

  /** A record: the hex text of the first half of the session key and the first four digits of the cipher text, under
      the fixed key, and then the other digits of the cipher text. */
  lemma RecordFormat(input: Bytes, draw: Block)
    requires 0 < |input| <= 16 && PasswordSpec.NulFree(input) && PadIsNulFree(|input|, draw)
    ensures var session := Session(|input|, draw);
            var digits := CipherText(session, FilledUp(input, draw));
            EncryptRecord(DesKey(), input, draw) == Hex(Encrypt(FixedKey(), session[..4] + digits[..4])) + digits[4..]
  {
    var session, s := Session(|input|, draw), FilledUp(input, draw);
    hide Encrypt, Hex, SingleEncrypt, CipherText, Session, SessionKey, Padded, FilledUp, DesKey, FixedKey;
    KeyIsText();
    PaddedIsNulFree(input, draw);
    FilledIsPadded(input, draw);
    CStrOfNulFree(s);
    SessionIs(|input|, draw);
    CipherIs(session, s);
    var digits := CipherText(session, s);
    assert Take(digits, 4) == digits[..4];
    OneBlock(DesKey(), session[..4] + digits[..4]);
  }

  function FixedKey(): Block {
    Ascii("@WSX$RFV")
  }

  lemma KeyIsText()
    ensures DesKey() == FixedKey() && DesKey()[4..8] == Ascii("$RFV")
  {}

  lemma OneBlock(key: Block, head: Block)
    ensures SingleEncrypt(key, head) == Hex(Encrypt(key, head))
  {
    hide Encrypt, Hex;
  }

  /** Text that is not all digits, or too short, is deciphered as if it were zero bytes. */
  lemma NoDigitsAreZeros(key: Bytes, asc: Bytes, len: nat, i: nat)
    requires |key| in {8, 16} && len in {8, 16} && i < 2 * len
    requires i < |asc| ==> forall v :: 0 <= v < 16 ==> asc[i] != CAPITALS[v] as int && asc[i] != SMALLS[v] as int
    ensures Some(SingleDecrypt(key, asc, len)) == SssDecrypt(key, seq(len, _ => 0))
  {
    hide *;
    NoDigit(asc, 2 * len, i);
    DecryptsLengths(key, seq(len, _ => 0));
    DecryptNone(key, asc, len);
  }

  lemma NoDigit(asc: Bytes, n: nat, i: nat)
    requires i < n && n % 2 == 0
    requires i < |asc| ==> forall v :: 0 <= v < 16 ==> asc[i] != CAPITALS[v] as int && asc[i] != SMALLS[v] as int
    ensures UnHex(Take(asc, n)).None?
  {
    var d := DigitValue(Take(asc, n)[i]);
    if d.Some? {
      DigitsAreRead(Take(asc, n)[i], d.value);
      ZeroIsNoDigit(d.value);
    }
    hide DigitValue, Take;
  }

  lemma DecryptsLengths(key: Bytes, input: Bytes)
    requires |key| in {8, 16} && |input| in {8, 16}
    ensures SssDecrypt(key, input).Some?
  {
    hide DecryptCascade, Decrypt;
  }

  lemma DecryptNone(key: Bytes, asc: Bytes, len: nat)
    requires |key| in {8, 16} && len in {8, 16} && UnHex(Take(asc, 2 * len)).None?
    requires SssDecrypt(key, seq(len, _ => 0)).Some?
    ensures Some(SingleDecrypt(key, asc, len)) == SssDecrypt(key, seq(len, _ => 0))
  {
    hide UnHex, Take, SssDecrypt;
  }

  lemma ZeroIsNoDigit(v: nat)
    requires v < 16
    ensures CAPITALS[v] != '\0' && SMALLS[v] != '\0'
  {}

  // ---- Two passwords ----

  lemma Block0()
    ensures DesWords.Bytes(0x0607083624524656) == [6, 7, 8, 54, 36, 82, 70, 86]
  {
    assert WordByte(0x0607083624524656, 56) == 6 && WordByte(0x0607083624524656, 48) == 7;
    assert WordByte(0x0607083624524656, 40) == 8 && WordByte(0x0607083624524656, 32) == 54;
    assert WordByte(0x0607083624524656, 24) == 36 && WordByte(0x0607083624524656, 16) == 82;
    assert WordByte(0x0607083624524656, 8) == 70 && WordByte(0x0607083624524656, 0) == 86;
    hide WordByte;
  }

  lemma Block1()
    ensures DesWords.Bytes(0x7365637265740102) == [115, 101, 99, 114, 101, 116, 1, 2]
  {
    assert WordByte(0x7365637265740102, 56) == 115 && WordByte(0x7365637265740102, 48) == 101;
    assert WordByte(0x7365637265740102, 40) == 99 && WordByte(0x7365637265740102, 32) == 114;
    assert WordByte(0x7365637265740102, 24) == 101 && WordByte(0x7365637265740102, 16) == 116;
    assert WordByte(0x7365637265740102, 8) == 1 && WordByte(0x7365637265740102, 0) == 2;
    hide WordByte;
  }

  lemma Block2()
    ensures DesWords.Bytes(0x229831FA5D2A6D3E) == [34, 152, 49, 250, 93, 42, 109, 62]
  {
    assert WordByte(0x229831FA5D2A6D3E, 56) == 34 && WordByte(0x229831FA5D2A6D3E, 48) == 152;
    assert WordByte(0x229831FA5D2A6D3E, 40) == 49 && WordByte(0x229831FA5D2A6D3E, 32) == 250;
    assert WordByte(0x229831FA5D2A6D3E, 24) == 93 && WordByte(0x229831FA5D2A6D3E, 16) == 42;
    assert WordByte(0x229831FA5D2A6D3E, 8) == 109 && WordByte(0x229831FA5D2A6D3E, 0) == 62;
    hide WordByte;
  }

  lemma Block3()
    ensures DesWords.Bytes(0x4057535824524656) == [64, 87, 83, 88, 36, 82, 70, 86]
  {
    assert WordByte(0x4057535824524656, 56) == 64 && WordByte(0x4057535824524656, 48) == 87;
    assert WordByte(0x4057535824524656, 40) == 83 && WordByte(0x4057535824524656, 32) == 88;
    assert WordByte(0x4057535824524656, 24) == 36 && WordByte(0x4057535824524656, 16) == 82;
    assert WordByte(0x4057535824524656, 8) == 70 && WordByte(0x4057535824524656, 0) == 86;
    hide WordByte;
  }

  lemma Block4()
    ensures DesWords.Bytes(0x0607083632323938) == [6, 7, 8, 54, 50, 50, 57, 56]
  {
    assert WordByte(0x0607083632323938, 56) == 6 && WordByte(0x0607083632323938, 48) == 7;
    assert WordByte(0x0607083632323938, 40) == 8 && WordByte(0x0607083632323938, 32) == 54;
    assert WordByte(0x0607083632323938, 24) == 50 && WordByte(0x0607083632323938, 16) == 50;
    assert WordByte(0x0607083632323938, 8) == 57 && WordByte(0x0607083632323938, 0) == 56;
    hide WordByte;
  }

  lemma Block5()
    ensures DesWords.Bytes(0x1E80E4D9607003B1) == [30, 128, 228, 217, 96, 112, 3, 177]
  {
    assert WordByte(0x1E80E4D9607003B1, 56) == 30 && WordByte(0x1E80E4D9607003B1, 48) == 128;
    assert WordByte(0x1E80E4D9607003B1, 40) == 228 && WordByte(0x1E80E4D9607003B1, 32) == 217;
    assert WordByte(0x1E80E4D9607003B1, 24) == 96 && WordByte(0x1E80E4D9607003B1, 16) == 112;
    assert WordByte(0x1E80E4D9607003B1, 8) == 3 && WordByte(0x1E80E4D9607003B1, 0) == 177;
    hide WordByte;
  }

  lemma Block6()
    ensures DesWords.Bytes(0x0607084324524656) == [6, 7, 8, 67, 36, 82, 70, 86]
  {
    assert WordByte(0x0607084324524656, 56) == 6 && WordByte(0x0607084324524656, 48) == 7;
    assert WordByte(0x0607084324524656, 40) == 8 && WordByte(0x0607084324524656, 32) == 67;
    assert WordByte(0x0607084324524656, 24) == 36 && WordByte(0x0607084324524656, 16) == 82;
    assert WordByte(0x0607084324524656, 8) == 70 && WordByte(0x0607084324524656, 0) == 86;
    hide WordByte;
  }

  lemma Block7()
    ensures DesWords.Bytes(0x6C6F6E6770617373) == [108, 111, 110, 103, 112, 97, 115, 115]
  {
    assert WordByte(0x6C6F6E6770617373, 56) == 108 && WordByte(0x6C6F6E6770617373, 48) == 111;
    assert WordByte(0x6C6F6E6770617373, 40) == 110 && WordByte(0x6C6F6E6770617373, 32) == 103;
    assert WordByte(0x6C6F6E6770617373, 24) == 112 && WordByte(0x6C6F6E6770617373, 16) == 97;
    assert WordByte(0x6C6F6E6770617373, 8) == 115 && WordByte(0x6C6F6E6770617373, 0) == 115;
    hide WordByte;
  }

  lemma Block8()
    ensures DesWords.Bytes(0x0ED54D0552327937) == [14, 213, 77, 5, 82, 50, 121, 55]
  {
    assert WordByte(0x0ED54D0552327937, 56) == 14 && WordByte(0x0ED54D0552327937, 48) == 213;
    assert WordByte(0x0ED54D0552327937, 40) == 77 && WordByte(0x0ED54D0552327937, 32) == 5;
    assert WordByte(0x0ED54D0552327937, 24) == 82 && WordByte(0x0ED54D0552327937, 16) == 50;
    assert WordByte(0x0ED54D0552327937, 8) == 121 && WordByte(0x0ED54D0552327937, 0) == 55;
    hide WordByte;
  }

  lemma Block9()
    ensures DesWords.Bytes(0x776F726401020304) == [119, 111, 114, 100, 1, 2, 3, 4]
  {
    assert WordByte(0x776F726401020304, 56) == 119 && WordByte(0x776F726401020304, 48) == 111;
    assert WordByte(0x776F726401020304, 40) == 114 && WordByte(0x776F726401020304, 32) == 100;
    assert WordByte(0x776F726401020304, 24) == 1 && WordByte(0x776F726401020304, 16) == 2;
    assert WordByte(0x776F726401020304, 8) == 3 && WordByte(0x776F726401020304, 0) == 4;
    hide WordByte;
  }

  lemma Block10()
    ensures DesWords.Bytes(0x9B1A287718B6CD62) == [155, 26, 40, 119, 24, 182, 205, 98]
  {
    assert WordByte(0x9B1A287718B6CD62, 56) == 155 && WordByte(0x9B1A287718B6CD62, 48) == 26;
    assert WordByte(0x9B1A287718B6CD62, 40) == 40 && WordByte(0x9B1A287718B6CD62, 32) == 119;
    assert WordByte(0x9B1A287718B6CD62, 24) == 24 && WordByte(0x9B1A287718B6CD62, 16) == 182;
    assert WordByte(0x9B1A287718B6CD62, 8) == 205 && WordByte(0x9B1A287718B6CD62, 0) == 98;
    hide WordByte;
  }

  lemma Block11()
    ensures DesWords.Bytes(0x0607084330454435) == [6, 7, 8, 67, 48, 69, 68, 53]
  {
    assert WordByte(0x0607084330454435, 56) == 6 && WordByte(0x0607084330454435, 48) == 7;
    assert WordByte(0x0607084330454435, 40) == 8 && WordByte(0x0607084330454435, 32) == 67;
    assert WordByte(0x0607084330454435, 24) == 48 && WordByte(0x0607084330454435, 16) == 69;
    assert WordByte(0x0607084330454435, 8) == 68 && WordByte(0x0607084330454435, 0) == 53;
    hide WordByte;
  }

  lemma Block12()
    ensures DesWords.Bytes(0xD5A0FBAB20D0E76A) == [213, 160, 251, 171, 32, 208, 231, 106]
  {
    assert WordByte(0xD5A0FBAB20D0E76A, 56) == 213 && WordByte(0xD5A0FBAB20D0E76A, 48) == 160;
    assert WordByte(0xD5A0FBAB20D0E76A, 40) == 251 && WordByte(0xD5A0FBAB20D0E76A, 32) == 171;
    assert WordByte(0xD5A0FBAB20D0E76A, 24) == 32 && WordByte(0xD5A0FBAB20D0E76A, 16) == 208;
    assert WordByte(0xD5A0FBAB20D0E76A, 8) == 231 && WordByte(0xD5A0FBAB20D0E76A, 0) == 106;
    hide WordByte;
  }

  lemma Cipher0()
    ensures Encrypt([6, 7, 8, 54, 36, 82, 70, 86], [115, 101, 99, 114, 101, 116, 1, 2]) ==
            [34, 152, 49, 250, 93, 42, 109, 62]
  {
    hide Encrypt, DesWords.Bytes;
    Block0();
    Block1();
    Block2();
    Run(0x0607083624524656, 0x7365637265740102, 0x229831FA5D2A6D3E, 0xE018AEBDB048, 0x1C0314D7B6091, 0x380628AF6C123,
        0xE018A0BDB048E, 0x3806280F6C123A, 0xE018A00DB048EB, 0x80628036C123AF, 0x18A00EB048EBD, 0x628038C123AF6,
        0xC5007082475ED, 0x31401C0091D7B6, 0xC5007002475ED8, 0x1401C0391D7B60, 0x500700C475ED82, 0x401C0311D7B609,
        0x700C575ED824, 0xE018AEBDB048, 0x1014C4530797, 0xC50A4B396, 0x4468303526E7, 0x86A5007E88C3, 0x4A060306E55F,
        0x6990082FB5C0, 0x80CAE8C563, 0x3048124ECE0E, 0x145A00009D7A, 0x23144CDBC34, 0x84445694EF8, 0x41412819D81F,
        0x8081A18754B4, 0x910A03892BE5, 0x213280B2CA95, 0x20300CB3284E, 0x90153AD313CD, 0x35DA0DCB183A,
        0xFE149BC01AB9, 0xA98C02F49DCB, 0x20BB55AC33FA, 0xEC9206B05C9A, 0x9A7F66E2873D, 0xB55FB0F1B25C,
        0xC1260EB0DC29, 0x3DB0EF023FC8, 0x5DB9BD6918A5, 0x7B5777F632B7, 0xA5FF52776844, 0xA437FD0641E5, 0xBA78E326395,
        0xA567574C7D1C, 0x3F293257, 0x3F008D, 0x6ECEDD76, 0x7395E98F, 0x592110A4, 0xD5AB56D2, 0x8473F2D, 0x37F6124F,
        0x8F17B89, 0xAB876229, 0x7C359C7E, 0xAFBC02CE, 0x70CFDF54, 0x4BD9E198, 0x69BF1B40, 0x54A70520, 0xAEDFAA9,
        0x589ED054);
  }

  lemma Cipher1()
    ensures Encrypt([64, 87, 83, 88, 36, 82, 70, 86], [6, 7, 8, 54, 50, 50, 57, 56]) ==
            [30, 128, 228, 217, 96, 112, 3, 177]
  {
    hide Encrypt, DesWords.Bytes;
    Block3();
    Block4();
    Block5();
    Run(0x4057535824524656, 0x0607083632323938, 0x1E80E4D9607003B1, 0xEF10AE6D208E, 0x1DE214CDA411D, 0x3BC4289B4823B,
        0xEF10A06D208EE, 0x3BC4280B4823B9, 0xEF10A00D208EE6, 0xBC428034823B9B, 0xF10A00E208EE6D, 0xC42803B823B9B4,
        0x88500770477369, 0x21401DE11DCDA4, 0x85007784773690, 0x1401DE21DCDA41, 0x50077887736904, 0x401DE21DCDA411,
        0x778857369047, 0xEF10AE6D208E, 0x9096C25233D6, 0xA00A52CCA147, 0x247A3026E6CC, 0x8635507895C3,
        0x4E46518EC42B, 0x4FD1084E7F40, 0xA81CBB8C178, 0x39480BC1DE02, 0x1D1A88099BD8, 0x1230CC91D435, 0x184C444B0EA4,
        0x40692C98699D, 0x80A525235295, 0xC10E23D321A3, 0xE1B2A0A60B0D, 0xA0902E3704C2, 0x10813332B220,
        0x10E1079676B5, 0x6BD1C809CFCD, 0x9662F9376BC7, 0x3E90530B6F2A, 0xB06DABABA843, 0x57F37A88388, 0x3C9E56B4220A,
        0xF72480266487, 0xD2646A3E406E, 0x825B854F3A4, 0x50D521CDE89D, 0xCFE722E9D394, 0x61E5DAB9F40D, 0x8498F0A32100,
        0x654586322EC1, 0xF80B42, 0xF8C43B, 0x676AB6F9, 0x9D7C5920, 0x22F49FC2, 0xE6C10D60, 0xFD91CEE1, 0x1FDE2258,
        0xECEEF84, 0xD1C45FEF, 0x82935C8D, 0x233E3FA0, 0x2586AC20, 0x9A439420, 0x477CD6B7, 0xC9480946, 0x8EB40941,
        0x3CA905C8);
  }

  lemma Cipher2()
    ensures Encrypt([6, 7, 8, 67, 36, 82, 70, 86], [108, 111, 110, 103, 112, 97, 115, 115]) ==
            [14, 213, 77, 5, 82, 50, 121, 55]
  {
    hide Encrypt, DesWords.Bytes;
    Block6();
    Block7();
    Block8();
    Run(0x0607084324524656, 0x6C6F6E6770617373, 0x0ED54D0552327937, 0xE810AEBD3040, 0x1D0214D7A6081, 0x3A0428AF4C103,
        0xE810A0BD3040E, 0x3A04280F4C103A, 0xE810A00D3040EB, 0xA0428034C103AF, 0x810A00E3040EBD, 0x42803AC103AF4,
        0x85007482075E9, 0x21401D0081D7A6, 0x85007402075E98, 0x1401D0281D7A60, 0x5007408075E982, 0x401D0211D7A608,
        0x7408575E9820, 0xE810AEBD3040, 0x1016C0120797, 0x200850A43196, 0x468302522E7, 0x8625107688C3, 0x4E060106855F,
        0x4B90080FB5C0, 0x880CA68C561, 0x30480A4ACC0E, 0x141A80009D7A, 0x1230448DBC30, 0x84444694E70, 0x40412C19C81E,
        0x808121855494, 0x810A238922E5, 0xA13280B2CA85, 0x20100E33280E, 0x10013E92F9CB, 0xE563A5CEE665,
        0x11C29015091B, 0x869AE07CCA9F, 0x7B7BAC5650F7, 0x1B04A14FA339, 0xF77F618D383E, 0x25B6F25A9A5E,
        0xB11976901D2C, 0x184D4A1701C0, 0xA8044066737A, 0x307E77EC2117, 0x455729BF8333, 0x640B704C88E6,
        0x8EB2D8B7B785, 0xA0470E1395AC, 0xFFD00FEA, 0xFF07CE, 0x8B7AD6F9, 0x2D50617E, 0x5F8124E, 0x6BB6A6B4,
        0xA49480DC, 0xFFF5CFAF, 0x2FDC22C8, 0x487B240B, 0x13A735B8, 0x420219A5, 0xE1EDEF24, 0x8EC476F3, 0xC8298D41,
        0x5C0C0BA0, 0x2E045B1, 0x56F28FCE);
  }

  lemma Cipher3()
    ensures Encrypt([6, 7, 8, 67, 36, 82, 70, 86], [119, 111, 114, 100, 1, 2, 3, 4]) ==
            [155, 26, 40, 119, 24, 182, 205, 98]
  {
    hide Encrypt, DesWords.Bytes;
    Block6();
    Block9();
    Block10();
    Run(0x0607084324524656, 0x776F726401020304, 0x9B1A287718B6CD62, 0xE810AEBD3040, 0x1D0214D7A6081, 0x3A0428AF4C103,
        0xE810A0BD3040E, 0x3A04280F4C103A, 0xE810A00D3040EB, 0xA0428034C103AF, 0x810A00E3040EBD, 0x42803AC103AF4,
        0x85007482075E9, 0x21401D0081D7A6, 0x85007402075E98, 0x1401D0281D7A60, 0x5007408075E982, 0x401D0211D7A608,
        0x7408575E9820, 0xE810AEBD3040, 0x1016C0120797, 0x200850A43196, 0x468302522E7, 0x8625107688C3, 0x4E060106855F,
        0x4B90080FB5C0, 0x880CA68C561, 0x30480A4ACC0E, 0x141A80009D7A, 0x1230448DBC30, 0x84444694E70, 0x40412C19C81E,
        0x808121855494, 0x810A238922E5, 0xA13280B2CA85, 0x20100E33280E, 0x90169E924499, 0x5FF7F89B1963,
        0x5E959E9A35EE, 0x9651EF3F639, 0x5EB95846B8A7, 0xB446F83FA0CF, 0x42BFC332D1C4, 0xF0F708CA27F5, 0x610C781F0923,
        0x12E61DF2D79C, 0x7285BD0CF175, 0xF57D27F337E8, 0xD54329AF2BC9, 0x11DC86E3231F, 0x1466D5F8A1DF,
        0x902D5619D558, 0xF058B53, 0xF0267, 0xFFF4791A, 0xB7B778E4, 0x1A070BDD, 0x25EC81BC, 0xFED860A7, 0x91E4B092,
        0x85E1077D, 0xE8DC3C8C, 0x6CCFB76, 0xF63CCDE2, 0x6985D7FB, 0xAE4453EE, 0x26D2D03D, 0x6A8A936D, 0x61AC57AB,
        0xC83B6849);
  }

  lemma Cipher4()
    ensures Encrypt([64, 87, 83, 88, 36, 82, 70, 86], [6, 7, 8, 67, 48, 69, 68, 53]) ==
            [213, 160, 251, 171, 32, 208, 231, 106]
  {
    hide Encrypt, DesWords.Bytes;
    Block3();
    Block11();
    Block12();
    Run(0x4057535824524656, 0x0607084330454435, 0xD5A0FBAB20D0E76A, 0xEF10AE6D208E, 0x1DE214CDA411D, 0x3BC4289B4823B,
        0xEF10A06D208EE, 0x3BC4280B4823B9, 0xEF10A00D208EE6, 0xBC428034823B9B, 0xF10A00E208EE6D, 0xC42803B823B9B4,
        0x88500770477369, 0x21401DE11DCDA4, 0x85007784773690, 0x1401DE21DCDA41, 0x50077887736904, 0x401DE21DCDA411,
        0x778857369047, 0xEF10AE6D208E, 0x9096C25233D6, 0xA00A52CCA147, 0x247A3026E6CC, 0x8635507895C3,
        0x4E46518EC42B, 0x4FD1084E7F40, 0xA81CBB8C178, 0x39480BC1DE02, 0x1D1A88099BD8, 0x1230CC91D435, 0x184C444B0EA4,
        0x40692C98699D, 0x80A525235295, 0xC10E23D321A3, 0xE1B2A0A60B0D, 0xA0902E3704C2, 0x10826252B380,
        0x20C852E3C9ED, 0xBED98163298, 0x66F403A2C2C8, 0xCB2DFDBE0729, 0xB5AEA2C4A943, 0xAA9CB873F74, 0x9C5CA4019EF0,
        0x5DB28836B375, 0xA2D83B64D49B, 0x8772E3AE1BAE, 0x30BF24A7BFC4, 0xEA8F20462D90, 0xECF756C9DA0, 0x5BA5F0BC35F7,
        0x956ED372929A, 0x6890E3AA, 0x90040B, 0x6405B15, 0x5CF4668A, 0xC629B2E5, 0xB766661, 0xF3F516C1, 0x1007FC6,
        0x48978219, 0x85007916, 0x671BE817, 0x39D3C8A5, 0xE6C47ECC, 0xD142CBE2, 0x9E2B7D81, 0x70E831DD, 0x6FDE8CCC,
        0xE525414D);
  }

  /** The random bytes of the two passwords. */
  function Draw(): Block {
    [1, 2, 3, 4, 5, 6, 7, 8]
  }

  lemma HexIsText(b: Bytes, s: string)
    requires |s| == 2 * |b|
    requires forall i :: 0 <= i < |b| ==> s[2 * i] == CAPITALS[b[i] / 16] && s[2 * i + 1] == CAPITALS[b[i] % 16]
    ensures Hex(b) == Ascii(s)
  {
    hide Hex;
    forall i | 0 <= i < |s|
      ensures Hex(b)[i] == s[i] as int % 256
    {
      HexDigits(b, i / 2);
    }
  }

  lemma Hex0()
    ensures Hex([34, 152, 49, 250, 93, 42, 109, 62]) == Ascii("229831FA5D2A6D3E")
  {
    hide Hex, Ascii;
    HexIsText([34, 152, 49, 250, 93, 42, 109, 62], "229831FA5D2A6D3E");
  }

  lemma Hex1()
    ensures Hex([30, 128, 228, 217, 96, 112, 3, 177]) == Ascii("1E80E4D9607003B1")
  {
    hide Hex, Ascii;
    HexIsText([30, 128, 228, 217, 96, 112, 3, 177], "1E80E4D9607003B1");
  }

  lemma Hex2()
    ensures Hex([14, 213, 77, 5, 82, 50, 121, 55]) == Ascii("0ED54D0552327937")
  {
    hide Hex, Ascii;
    HexIsText([14, 213, 77, 5, 82, 50, 121, 55], "0ED54D0552327937");
  }

  lemma Hex3()
    ensures Hex([155, 26, 40, 119, 24, 182, 205, 98]) == Ascii("9B1A287718B6CD62")
  {
    hide Hex, Ascii;
    HexIsText([155, 26, 40, 119, 24, 182, 205, 98], "9B1A287718B6CD62");
  }

  lemma Hex4()
    ensures Hex([213, 160, 251, 171, 32, 208, 231, 106]) == Ascii("D5A0FBAB20D0E76A")
  {
    hide Hex, Ascii;
    HexIsText([213, 160, 251, 171, 32, 208, 231, 106], "D5A0FBAB20D0E76A");
  }

  lemma ShortSession()
    ensures Session(6, Draw()) == [6, 7, 8, 54, 36, 82, 70, 86]
  {}

  lemma LongSession()
    ensures Session(12, Draw()) == [6, 7, 8, 67, 36, 82, 70, 86]
  {}

  lemma FixedKeyIs()
    ensures FixedKey() == [64, 87, 83, 88, 36, 82, 70, 86]
  {}

  lemma ShortText()
    ensures FilledUp(Ascii("secret"), Draw()) == [115, 101, 99, 114, 101, 116, 1, 2]
  {}

  lemma LongText()
    ensures FilledUp(Ascii("longpassword"), Draw()) ==
            [108, 111, 110, 103, 112, 97, 115, 115] + [119, 111, 114, 100, 1, 2, 3, 4]
  {}

  lemma ShortDigits()
    ensures CipherText(Session(6, Draw()), FilledUp(Ascii("secret"), Draw())) == Ascii("229831FA5D2A6D3E")
  {
    hide *;
    ShortSession();
    ShortText();
    Cipher0();
    Hex0();
    OneCipher([6, 7, 8, 54, 36, 82, 70, 86], [115, 101, 99, 114, 101, 116, 1, 2]);
  }

  lemma OneCipher(session: Block, s: Block)
    ensures CipherText(session, s) == Hex(Encrypt(session, s))
  {
    hide Encrypt, Hex;
  }

  lemma HexPlace(bytes: Bytes, i: nat)
    requires i < 2 * |bytes|
    ensures Hex(bytes)[i] == CAPITALS[if i % 2 == 0 then bytes[i / 2] / 16 else bytes[i / 2] % 16] as int
  {
    hide Hex;
    HexDigits(bytes, i / 2);
  }

  lemma HexOfBoth(a: Bytes, b: Bytes)
    ensures Hex(a + b) == Hex(a) + Hex(b)
  {
    hide Hex;
    forall i | 0 <= i < 2 * |a + b|
      ensures Hex(a + b)[i] == (Hex(a) + Hex(b))[i]
    {
      HexPlace(a + b, i);
      if i < 2 * |a| {
        HexPlace(a, i);
      } else {
        HexPlace(b, i - 2 * |a|);
        assert (i - 2 * |a|) % 2 == i % 2 && (i - 2 * |a|) / 2 == i / 2 - |a|;
      }
    }
  }

  lemma TwoCiphers(session: Block, x: Block, y: Block)
    ensures CipherText(session, x + y) == Hex(Encrypt(session, x)) + Hex(Encrypt(session, y))
  {
    hide Encrypt, Hex;
    assert (x + y)[..8] == x && (x + y)[8..] == y;
    HexOfBoth(Encrypt(session, x), Encrypt(session, y));
  }

  lemma LongDigits()
    ensures CipherText(Session(12, Draw()), FilledUp(Ascii("longpassword"), Draw())) ==
            Ascii("0ED54D0552327937") + Ascii("9B1A287718B6CD62")
  {
    hide *;
    LongSession();
    LongText();
    Cipher2();
    Cipher3();
    Hex2();
    Hex3();
    TwoCiphers([6, 7, 8, 67, 36, 82, 70, 86], [108, 111, 110, 103, 112, 97, 115, 115],
               [119, 111, 114, 100, 1, 2, 3, 4]);
  }

  lemma ShortHead()
    ensures [6, 7, 8, 54, 36, 82, 70, 86][..4] + Ascii("229831FA5D2A6D3E")[..4] == [6, 7, 8, 54, 50, 50, 57, 56]
  {}

  lemma LongHead()
    ensures [6, 7, 8, 67, 36, 82, 70, 86][..4] + (Ascii("0ED54D0552327937") + Ascii("9B1A287718B6CD62"))[..4] ==
            [6, 7, 8, 67, 48, 69, 68, 53]
  {}

  lemma ShortParts()
    ensures Ascii("1E80E4D9607003B1") + Ascii("229831FA5D2A6D3E")[4..] == Ascii("1E80E4D9607003B131FA5D2A6D3E")
    ensures |Ascii("secret")| == 6 && PasswordSpec.NulFree(Ascii("secret"))
  {}

  lemma AsciiOfBoth(s: string, t: string)
    ensures Ascii(s + t) == Ascii(s) + Ascii(t)
  {}

  lemma AsciiBehind(s: string, n: nat)
    requires n <= |s|
    ensures Ascii(s)[n..] == Ascii(s[n..])
  {}

  lemma LongGlue()
    ensures "D5A0FBAB20D0E76A" + ("0ED54D0552327937" + "9B1A287718B6CD62")[4..] ==
            "D5A0FBAB20D0E76A4D05523279379B1A287718B6CD62"
  {}

  lemma LongParts()
    ensures Ascii("D5A0FBAB20D0E76A") + (Ascii("0ED54D0552327937") + Ascii("9B1A287718B6CD62"))[4..] ==
            Ascii("D5A0FBAB20D0E76A4D05523279379B1A287718B6CD62")
  {
    var digits := "0ED54D0552327937" + "9B1A287718B6CD62";
    assert |digits| == 32;
    hide *;
    LongGlue();
    AsciiOfBoth("0ED54D0552327937", "9B1A287718B6CD62");
    AsciiBehind(digits, 4);
    AsciiOfBoth("D5A0FBAB20D0E76A", digits[4..]);
  }

  lemma LongName()
    ensures |Ascii("longpassword")| == 12 && PasswordSpec.NulFree(Ascii("longpassword"))
  {}

  lemma OneRecord(input: Bytes)
    requires 0 < |input| < 16
    ensures EncryptPassword(input, [Draw()]) == EncryptRecord(DesKey(), input, Draw())
    ensures PadIsNulFree(|input|, Draw())
  {
    hide EncryptRecord;
  }

  /** With these random bytes "secret" is stored as 28 characters. */
  lemma SecretIsStored()
    ensures EncryptPassword(Ascii("secret"), [Draw()]) == Ascii("1E80E4D9607003B131FA5D2A6D3E")
  {
    hide *;
    ShortParts();
    OneRecord(Ascii("secret"));
    RecordFormat(Ascii("secret"), Draw());
    ShortDigits();
    ShortSession();
    ShortHead();
    FixedKeyIs();
    Cipher1();
    Hex1();
  }

  /** With the same bytes "longpassword" is stored as 44 characters. */
  lemma LongPasswordIsStored()
    ensures EncryptPassword(Ascii("longpassword"), [Draw()]) == Ascii("D5A0FBAB20D0E76A4D05523279379B1A287718B6CD62")
  {
    hide *;
    LongParts();
    LongName();
    OneRecord(Ascii("longpassword"));
    RecordFormat(Ascii("longpassword"), Draw());
    LongDigits();
    LongSession();
    LongHead();
    FixedKeyIs();
    Cipher4();
    Hex4();
  }
}
