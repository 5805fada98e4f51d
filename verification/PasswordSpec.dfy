// The password format of DBRecord/datasafe.h: one- and two-key cascades, hex
// text, records under a random session key, and chunks of sixteen bytes.
module PasswordSpec {
  import opened Options
  import opened DesSpec
  import opened DesTheorems

  type Bytes = seq<Byte>

  // ---- One or two keys, one or two blocks ----

  function EncryptCascade(k1: Block, k2: Block, b: Block): Block {
    hide *;
    Encrypt(k1, Decrypt(k2, Encrypt(k1, b)))
  }

  function DecryptCascade(k1: Block, k2: Block, b: Block): Block {
    hide *;
    Decrypt(k1, Encrypt(k2, Decrypt(k1, b)))
  }

  /** What sssDES leaves in `out`; None when it returns -1. */
  function SssEncrypt(key: Bytes, input: Bytes): Option<Bytes> {
    hide *;
    if |key| == 8 then
      if |input| == 16 then Some(EncryptCascade(key, key, input[..8]) + EncryptCascade(key, key, input[8..]))
      else if |input| != 8 then None
      else Some(Encrypt(key, input))
    else if |key| != 16 then None
    else if |input| == 8 then Some(EncryptCascade(key[..8], key[8..], input))
    else if |input| != 16 then None
    else Some(EncryptCascade(key[..8], key[8..], input[..8]) + EncryptCascade(key[..8], key[8..], input[8..]))
  }

  /** What _sssDES leaves in `out`; None when it returns -1. */
  function SssDecrypt(key: Bytes, input: Bytes): Option<Bytes> {
    hide *;
    if |key| == 8 then
      if |input| == 16 then Some(DecryptCascade(key, key, input[..8]) + DecryptCascade(key, key, input[8..]))
      else if |input| != 8 then None
      else Some(Decrypt(key, input))
    else if |key| != 16 then None
    else if |input| == 8 then Some(DecryptCascade(key[..8], key[8..], input))
    else if |input| != 16 then None
    else Some(DecryptCascade(key[..8], key[8..], input[..8]) + DecryptCascade(key[..8], key[8..], input[8..]))
  }

  lemma CascadeUndone(k1: Block, k2: Block, b: Block)
    ensures DecryptCascade(k1, k2, EncryptCascade(k1, k2, b)) == b
  {
    hide Encrypt, Decrypt;
    DecryptEncrypt(k1, Decrypt(k2, Encrypt(k1, b)));
    EncryptDecrypt(k2, Encrypt(k1, b));
    DecryptEncrypt(k1, b);
  }

  /** In every case of key and input length that is accepted, deciphering gives the input back. */
  lemma SssRoundTrip(key: Bytes, input: Bytes)
    ensures SssEncrypt(key, input).Some? <==> |key| in {8, 16} && |input| in {8, 16}
    ensures SssEncrypt(key, input).Some? ==>
              var out := SssEncrypt(key, input).value;
              |out| == |input| && SssDecrypt(key, out) == Some(input)
  {
    hide EncryptCascade, DecryptCascade, Encrypt, Decrypt;
    if SssEncrypt(key, input).Some? {
      var k1, k2 := key[..8], if |key| == 8 then key else key[8..];
      assert |key| == 8 ==> k1 == key;
      if |input| == 16 {
        CascadeUndone(k1, k2, input[..8]);
        CascadeUndone(k1, k2, input[8..]);
        var out := SssEncrypt(key, input).value;
        assert out[..8] == EncryptCascade(k1, k2, input[..8]);
        assert out[8..] == EncryptCascade(k1, k2, input[8..]);
        assert input[..8] + input[8..] == input;
      } else if |key| == 8 {
        DecryptEncrypt(key, input);
      } else {
        CascadeUndone(k1, k2, input);
      }
    }
  }

  /** With a single key the cascade collapses to plain DES on each block. */
  lemma SingleKeyCollapses(key: Block, input: Bytes)
    requires |input| == 16
    ensures SssEncrypt(key, input) == Some(Encrypt(key, input[..8]) + Encrypt(key, input[8..]))
    ensures SssDecrypt(key, input) == Some(Decrypt(key, input[..8]) + Decrypt(key, input[8..]))
  {
    hide Encrypt, Decrypt;
    DecryptEncrypt(key, input[..8]);
    DecryptEncrypt(key, input[8..]);
    EncryptDecrypt(key, input[..8]);
    EncryptDecrypt(key, input[8..]);
  }

  // ---- Hex text ----

  /** The digit for a half byte, in capitals. */
  function HexDigit(v: int): (c: Byte)
    requires 0 <= v < 16
    ensures c != 0
  {
    if v > 9 then 65 + v - 10 else 48 + v
  }

  function DigitValue(c: Byte): Option<int> {
    if 48 <= c <= 57 then Some(c - 48)
    else if 97 <= c <= 102 then Some(c - 97 + 10)
    else if 65 <= c <= 70 then Some(c - 65 + 10)
    else None
  }

  function Hex(bytes: Bytes): (asc: Bytes)
    ensures |asc| == 2 * |bytes|
  {
    seq(2 * |bytes|, i requires 0 <= i < 2 * |bytes| =>
      HexDigit(if i % 2 == 0 then bytes[i / 2] / 16 else bytes[i / 2] % 16))
  }

  /** None when some character is not a hex digit. */
  function UnHex(asc: Bytes): (r: Option<Bytes>)
    requires |asc| % 2 == 0
    ensures r.Some? ==> |r.value| == |asc| / 2
  {
    if forall i :: 0 <= i < |asc| ==> DigitValue(asc[i]).Some? then
      Some(seq(|asc| / 2, i requires 0 <= i < |asc| / 2 =>
        DigitValue(asc[2 * i]).value * 16 + DigitValue(asc[2 * i + 1]).value))
    else None
  }

  ghost predicate NulFree(s: Bytes) {
    forall i :: 0 <= i < |s| ==> s[i] != 0
  }

  lemma DigitRoundTrip(v: int)
    requires 0 <= v < 16
    ensures DigitValue(HexDigit(v)) == Some(v)
  {}

  lemma HexAt(bytes: Bytes, i: nat)
    requires i < |bytes|
    ensures DigitValue(Hex(bytes)[2 * i]) == Some(bytes[i] / 16)
    ensures DigitValue(Hex(bytes)[2 * i + 1]) == Some(bytes[i] % 16)
  {
    hide HexDigit, DigitValue;
    assert (2 * i) % 2 == 0 && (2 * i) / 2 == i && (2 * i + 1) % 2 == 1 && (2 * i + 1) / 2 == i;
    DigitRoundTrip(bytes[i] / 16);
    DigitRoundTrip(bytes[i] % 16);
  }

  lemma HexRoundTrip(bytes: Bytes)
    ensures NulFree(Hex(bytes))
    ensures UnHex(Hex(bytes)) == Some(bytes)
  {
    hide HexDigit, DigitValue;
    var asc := Hex(bytes);
    forall i | 0 <= i < |asc|
      ensures DigitValue(asc[i]).Some?
    {
      HexAt(bytes, i / 2);
    }
    var r := UnHex(asc).value;
    forall i | 0 <= i < |bytes|
      ensures r[i] == bytes[i]
    {
      HexAt(bytes, i);
    }
    assert r == bytes;
  }

  function IntToHex(len: int): (c: Byte) {
    if 0 <= len < 10 then 48 + len else if 10 <= len < 16 then 55 + len else 0
  }

  function HexToInt(c: Byte): (n: int)
    ensures 0 <= n <= 15
  {
    if 48 <= c <= 57 then c - 48
    else if 65 <= c <= 70 then c - 55
    else if 100 <= c <= 105 then c - 90
    else 0
  }

  // ---- C strings in zeroed buffers ----

  /** The C string that a zero-filled buffer with the given contents holds. */
  function CStr(s: Bytes): (r: Bytes)
    ensures r <= s && 0 !in r
    ensures |r| < |s| ==> s[|r|] == 0
  {
    if s == [] || s[0] == 0 then [] else [s[0]] + CStr(s[1..])
  }

  lemma CStrOfNulFree(s: Bytes)
    ensures CStr(s) == s <==> NulFree(s)
  {
    if CStr(s) == s {
      forall i | 0 <= i < |s|
        ensures s[i] != 0
      {
        assert s[i] in CStr(s);
      }
    }
  }

  /** `n` bytes of a zero-filled buffer with the given contents. */
  function Take(s: Bytes, n: nat): (r: Bytes)
    ensures |r| == n
    ensures n <= |s| ==> r == s[..n]
  {
    if n <= |s| then s[..n] else s + seq(n - |s|, _ => 0)
  }

  function Drop(s: Bytes, n: nat): Bytes {
    if n <= |s| then s[n..] else []
  }

  // ---- Records ----

  /** singleDES into a zeroed buffer. */
  function SingleEncrypt(key: Bytes, input: Bytes): Bytes {
    hide *;
    match SssEncrypt(key, input)
    case Some(c) => Hex(c)
    case None => []
  }

  /** _singleDES into a zeroed buffer; text that is not hex is read as zero bytes. */
  function SingleDecrypt(key: Bytes, asc: Bytes, len: nat): Bytes {
    hide *;
    if |key| in {8, 16} && len in {8, 16} then
      var bytes := match UnHex(Take(asc, 2 * len))
        case Some(b) => b
        case None => seq(len, _ => 0);
      match SssDecrypt(key, bytes)
      case Some(p) => p
      case None => []
    else []
  }

  /** How many random bytes fill up a text of length `n`. */
  function PadLength(n: nat): (p: nat)
    ensures p < 8
  {
    if n >= 16 || n == 8 || n == 0 then 0 else if n < 8 then 8 - n else 16 - n
  }

  /** The text block that randomDES builds in `intxt`. */
  function Padded(input: Bytes, draw: Block): (r: Bytes)
    ensures |r| <= 16
  {
    if |input| >= 16 then input[..16] else input + draw[..PadLength(|input|)]
  }

  function SessionKey(key: Block, n: nat, draw: Block): Block {
    draw[5..8] + [IntToHex(if n >= 16 then 0 else n)] + key[4..8]
  }

  /** randomDES: the string it leaves in a zeroed `out`. */
  function EncryptRecord(key: Block, input: Bytes, draw: Block): Bytes {
    hide *;
    if input == [] then []
    else
      var session := SessionKey(key, |input|, draw);
      var bcd := SingleEncrypt(session, CStr(Padded(input, draw)));
      SingleEncrypt(key, session[..4] + Take(bcd, 4)) + Drop(bcd, 4)
  }

  /** _randomDES: the string it leaves in a zeroed `out`. */
  function DecryptRecord(key: Block, input: Bytes): Bytes {
    hide *;
    if |input| != 28 && |input| != 44 then []
    else
      var header := Take(SingleDecrypt(key, input[..16], 8), 8);
      var session := header[..4] + key[4..8];
      var text := CStr(header[4..8]) + input[16..];
      var plain := SingleDecrypt(session, text, |text| / 2);
      var len := HexToInt(session[3]);
      CStr(if len > 0 then Take(plain, len) else plain)
  }

  // ---- Whole passwords ----

  /** "@WSX$RFV". */
  function DesKey(): Block {
    [64, 87, 83, 88, 36, 82, 70, 86]
  }

  /** How many records a text of length `n` becomes. */
  function Records(n: nat): nat {
    n / 16 + if n % 16 == 0 then 0 else 1
  }

  /** encrypt, with one draw of eight random bytes for each record. */
  function EncryptPassword(input: Bytes, draws: seq<Block>): Bytes
    requires |draws| >= Records(|input|)
    decreases |input|
  {
    hide EncryptRecord;
    if input == [] then []
    else if |input| < 16 then EncryptRecord(DesKey(), input, draws[0])
    else EncryptRecord(DesKey(), input[..16], draws[0]) + EncryptPassword(input[16..], draws[1..])
  }

  /** _encrypts. */
  function DecryptPassword(input: Bytes): Bytes
    decreases |input|
  {
    hide DecryptRecord;
    if input == [] then []
    else if |input| < 44 then DecryptRecord(DesKey(), input)
    else DecryptRecord(DesKey(), input[..44]) + DecryptPassword(input[44..])
  }

  // ---- Round trips ----

  /** The pad bytes of a record hold no NUL. */
  predicate PadIsNulFree(n: nat, draw: Block) {
    0 !in draw[..PadLength(n)]
  }

  lemma PaddedIsNulFree(input: Bytes, draw: Block)
    requires 0 < |input| <= 16 && NulFree(input)
    ensures NulFree(Padded(input, draw)) <==> PadIsNulFree(|input|, draw)
    ensures |Padded(input, draw)| == if |input| <= 8 then 8 else 16
  {
    var p := draw[..PadLength(|input|)];
    var s := Padded(input, draw);
    if 0 in p {
      var i :| 0 <= i < |p| && p[i] == 0;
      assert s[|input| + i] == 0;
    }
    if 0 !in p {
      forall i | 0 <= i < |s|
        ensures s[i] != 0
      {
        assert i >= |input| ==> s[i] == p[i - |input|];
      }
    }
  }

  /** A pad with a NUL cuts the text short, and nothing but the header is stored. */
  lemma CutRecordIsLost(key: Block, input: Bytes, draw: Block)
    requires 0 < |input| < 16 && NulFree(input) && !PadIsNulFree(|input|, draw)
    ensures |EncryptRecord(key, input, draw)| == 16
  {
    hide SssEncrypt;
    var s := Padded(input, draw);
    PaddedIsNulFree(input, draw);
    CStrOfNulFree(s);
    var t := CStr(s);
    assert forall i :: 0 <= i < |input| ==> s[i] == input[i];
    SssRoundTrip(SessionKey(key, |input|, draw), t);
    SssRoundTrip(key, SessionKey(key, |input|, draw)[..4] + Take([], 4));
  }

  lemma LengthDigit(n: nat)
    requires n < 16
    ensures HexToInt(IntToHex(n)) == n
  {}

  lemma SingleRoundTrip(key: Bytes, input: Bytes)
    requires |key| in {8, 16} && |input| in {8, 16}
    ensures var c := SingleEncrypt(key, input);
            |c| == 2 * |input| && NulFree(c) && SingleDecrypt(key, c, |input|) == input
  {
    hide SssEncrypt, SssDecrypt, Hex, UnHex;
    SssRoundTrip(key, input);
    HexRoundTrip(SssEncrypt(key, input).value);
    var c := SingleEncrypt(key, input);
    assert c[..2 * |input|] == c;
  }

  lemma SingleEncryptLength(key: Bytes, input: Bytes)
    ensures |SingleEncrypt(key, input)| == if |key| in {8, 16} && |input| in {8, 16} then 2 * |input| else 0
    ensures 0 !in SingleEncrypt(key, input)
  {
    hide SssEncrypt, Hex;
    SssRoundTrip(key, input);
    if SssEncrypt(key, input).Some? {
      HexRoundTrip(SssEncrypt(key, input).value);
    }
  }

  lemma SingleDecryptLength(key: Bytes, asc: Bytes, len: nat)
    ensures |SingleDecrypt(key, asc, len)| == if |key| in {8, 16} && len in {8, 16} then len else 0
    ensures 2 * len <= |asc| ==> SingleDecrypt(key, asc, len) == SingleDecrypt(key, asc[..2 * len], len)
  {
    hide DecryptCascade, Decrypt, UnHex;
    if 2 * len <= |asc| {
      assert asc[..2 * len][..2 * len] == asc[..2 * len];
    }
  }

  /** A record whose pad is free of NUL bytes deciphers to its text. */
  lemma RecordRoundTrip(key: Block, input: Bytes, draw: Block)
    requires 0 < |input| <= 16 && NulFree(input) && PadIsNulFree(|input|, draw)
    ensures |EncryptRecord(key, input, draw)| == if |input| <= 8 then 28 else 44
    ensures DecryptRecord(key, EncryptRecord(key, input, draw)) == input
  {
    hide SingleEncrypt, SingleDecrypt, IntToHex, HexToInt;
    var s := Padded(input, draw);
    PaddedIsNulFree(input, draw);
    CStrOfNulFree(s);
    var session := SessionKey(key, |input|, draw);
    SingleRoundTrip(session, s);
    var bcd := SingleEncrypt(session, s);
    var head := session[..4] + bcd[..4];
    SingleRoundTrip(key, head);
    var out := EncryptRecord(key, input, draw);
    assert out[..16] == SingleEncrypt(key, head) && out[16..] == bcd[4..];
    assert head[..4] + key[4..8] == session && head[4..8] == bcd[..4];
    CStrOfNulFree(bcd[..4]);
    assert CStr(head[4..8]) + out[16..] == bcd;
    LengthDigit(if |input| >= 16 then 0 else |input|);
    CStrOfNulFree(input);
    assert head[..8] == head && SingleEncrypt(key, head)[..16] == SingleEncrypt(key, head);
    assert |bcd| / 2 == |s|;
    assert |input| < 16 ==> s[..|input|] == input;
    assert |input| == 16 ==> s == input;
  }

  /** The draw that pads the last record. */
  function LastDraw(n: nat, draws: seq<Block>): Block
    requires n > 0 && |draws| >= Records(n)
  {
    draws[Records(n) - 1]
  }

  /** Deciphering gives the password back exactly when the random bytes that
      pad its last record hold no NUL; then the length is fixed by the input's. */
  lemma {:induction false} PasswordRoundTrip(input: Bytes, draws: seq<Block>)
    requires input != [] && NulFree(input) && |draws| >= Records(|input|)
    ensures DecryptPassword(EncryptPassword(input, draws)) == input <==>
            PadIsNulFree(|input| % 16, LastDraw(|input|, draws))
    ensures PadIsNulFree(|input| % 16, LastDraw(|input|, draws)) ==>
            |EncryptPassword(input, draws)| == 44 * (|input| / 16) +
              (if |input| % 16 == 0 then 0 else if |input| % 16 <= 8 then 28 else 44)
    decreases |input|
  {
    hide EncryptRecord, DecryptRecord;
    var key := DesKey();
    if |input| < 16 {
      var out := EncryptRecord(key, input, draws[0]);
      if PadIsNulFree(|input|, draws[0]) {
        RecordRoundTrip(key, input, draws[0]);
        assert |out| == 44 ==> out[..44] == out && out[44..] == [];
      } else {
        CutRecordIsLost(key, input, draws[0]);
        WrongLengthIsLost(key, out);
      }
    } else {
      var head, tail := input[..16], input[16..];
      RecordRoundTrip(key, head, draws[0]);
      var out := EncryptRecord(key, head, draws[0]);
      var rest := EncryptPassword(tail, draws[1..]);
      assert (out + rest)[..44] == out && (out + rest)[44..] == rest;
      assert DecryptPassword(out + rest) == head + DecryptPassword(rest);
      assert head + tail == input;
      if tail != [] {
        PasswordRoundTrip(tail, draws[1..]);
        assert LastDraw(|input|, draws) == LastDraw(|tail|, draws[1..]);
        if head + DecryptPassword(rest) == input {
          assert DecryptPassword(rest) == input[16..];
        }
      }
    }
  }

  lemma WrongLengthIsLost(key: Block, input: Bytes)
    requires |input| != 28 && |input| != 44
    ensures DecryptRecord(key, input) == []
  {}
}
