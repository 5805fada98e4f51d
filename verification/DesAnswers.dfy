// Known answers of the cipher: the pairs of NBS Special Publication 500-20 that
// were chosen to exercise every entry of every S-box.
module DesAnswers {
  import opened DesSpec
  import opened DesWords

  // ---- Known answers ----

  /** One round, on words whose values are known. */
  lemma Step(cd: bv64, l: bv64, r: bv64, j: nat, next: bv64, k: bv64, x: bv64, w: bv64)
    requires j < 16 && TurnWord(cd, if LsCount(j) == 1 then 1 else 2) == next && KeyWord(next) == k
    requires InputsWord(k, r) == x && OutputWord(l, x) == w
    ensures RoundsWord(cd, l, r, j) == RoundsWord(next, r, w, j + 1)
  {
    hide TurnWord, KeyWord, InputsWord, OutputWord, FinalWord, LsCount;
  }

  /** A run whose values are known: the key halves, the round keys, the S-box inputs and the halves. */
  lemma Run(key: bv64, text: bv64, cipher: bv64, c0: bv64, c1: bv64, c2: bv64, c3: bv64, c4: bv64, c5: bv64, c6: bv64,
            c7: bv64, c8: bv64, c9: bv64, c10: bv64, c11: bv64, c12: bv64, c13: bv64, c14: bv64, c15: bv64, c16: bv64,
            k1: bv64, k2: bv64, k3: bv64, k4: bv64, k5: bv64, k6: bv64, k7: bv64, k8: bv64, k9: bv64, k10: bv64,
            k11: bv64, k12: bv64, k13: bv64, k14: bv64, k15: bv64, k16: bv64, x1: bv64, x2: bv64, x3: bv64, x4: bv64,
            x5: bv64, x6: bv64, x7: bv64, x8: bv64, x9: bv64, x10: bv64, x11: bv64, x12: bv64, x13: bv64, x14: bv64,
            x15: bv64, x16: bv64, w0: bv64, w1: bv64, w2: bv64, w3: bv64, w4: bv64, w5: bv64, w6: bv64, w7: bv64,
            w8: bv64, w9: bv64, w10: bv64, w11: bv64, w12: bv64, w13: bv64, w14: bv64, w15: bv64, w16: bv64, w17: bv64)
    requires ChoiceWord(key) == c0 && InitialLeft(text) == w0 && InitialRight(text) == w1
    requires TurnWord(c0, 1) == c1 && KeyWord(c1) == k1
    requires InputsWord(k1, w1) == x1 && OutputWord(w0, x1) == w2
    requires TurnWord(c1, 1) == c2 && KeyWord(c2) == k2
    requires InputsWord(k2, w2) == x2 && OutputWord(w1, x2) == w3
    requires TurnWord(c2, 2) == c3 && KeyWord(c3) == k3
    requires InputsWord(k3, w3) == x3 && OutputWord(w2, x3) == w4
    requires TurnWord(c3, 2) == c4 && KeyWord(c4) == k4
    requires InputsWord(k4, w4) == x4 && OutputWord(w3, x4) == w5
    requires TurnWord(c4, 2) == c5 && KeyWord(c5) == k5
    requires InputsWord(k5, w5) == x5 && OutputWord(w4, x5) == w6
    requires TurnWord(c5, 2) == c6 && KeyWord(c6) == k6
    requires InputsWord(k6, w6) == x6 && OutputWord(w5, x6) == w7
    requires TurnWord(c6, 2) == c7 && KeyWord(c7) == k7
    requires InputsWord(k7, w7) == x7 && OutputWord(w6, x7) == w8
    requires TurnWord(c7, 2) == c8 && KeyWord(c8) == k8
    requires InputsWord(k8, w8) == x8 && OutputWord(w7, x8) == w9
    requires TurnWord(c8, 1) == c9 && KeyWord(c9) == k9
    requires InputsWord(k9, w9) == x9 && OutputWord(w8, x9) == w10
    requires TurnWord(c9, 2) == c10 && KeyWord(c10) == k10
    requires InputsWord(k10, w10) == x10 && OutputWord(w9, x10) == w11
    requires TurnWord(c10, 2) == c11 && KeyWord(c11) == k11
    requires InputsWord(k11, w11) == x11 && OutputWord(w10, x11) == w12
    requires TurnWord(c11, 2) == c12 && KeyWord(c12) == k12
    requires InputsWord(k12, w12) == x12 && OutputWord(w11, x12) == w13
    requires TurnWord(c12, 2) == c13 && KeyWord(c13) == k13
    requires InputsWord(k13, w13) == x13 && OutputWord(w12, x13) == w14
    requires TurnWord(c13, 2) == c14 && KeyWord(c14) == k14
    requires InputsWord(k14, w14) == x14 && OutputWord(w13, x14) == w15
    requires TurnWord(c14, 2) == c15 && KeyWord(c15) == k15
    requires InputsWord(k15, w15) == x15 && OutputWord(w14, x15) == w16
    requires TurnWord(c15, 1) == c16 && KeyWord(c16) == k16
    requires InputsWord(k16, w16) == x16 && OutputWord(w15, x16) == w17
    requires FinalWord((w17 << 32) | (w16 & 0xFFFFFFFF)) == cipher
    ensures Encrypt(Bytes(key), Bytes(text)) == Bytes(cipher)
  {
    Counts();
    hide TurnWord, KeyWord, InputsWord, OutputWord, FinalWord, ChoiceWord, InitialLeft, InitialRight, LsCount, Bytes,
         Encrypt;
    EncryptIsWords(key, text);
    EncryptWordIs(key, text);
    LastStep(c16, w16, w17);
    hide RoundsWord, EncryptWord;
    Step(c0, w0, w1, 0, c1, k1, x1, w2);
    Step(c1, w1, w2, 1, c2, k2, x2, w3);
    Step(c2, w2, w3, 2, c3, k3, x3, w4);
    Step(c3, w3, w4, 3, c4, k4, x4, w5);
    Step(c4, w4, w5, 4, c5, k5, x5, w6);
    Step(c5, w5, w6, 5, c6, k6, x6, w7);
    Step(c6, w6, w7, 6, c7, k7, x7, w8);
    Step(c7, w7, w8, 7, c8, k8, x8, w9);
    Step(c8, w8, w9, 8, c9, k9, x9, w10);
    Step(c9, w9, w10, 9, c10, k10, x10, w11);
    Step(c10, w10, w11, 10, c11, k11, x11, w12);
    Step(c11, w11, w12, 11, c12, k12, x12, w13);
    Step(c12, w12, w13, 12, c13, k13, x13, w14);
    Step(c13, w13, w14, 13, c14, k14, x14, w15);
    Step(c14, w14, w15, 14, c15, k15, x15, w16);
    Step(c15, w15, w16, 15, c16, k16, x16, w17);
  }

  lemma LastStep(cd: bv64, l: bv64, r: bv64)
    ensures RoundsWord(cd, l, r, 16) == FinalWord((r << 32) | (l & 0xFFFFFFFF))
  {
    hide FinalWord;
  }

  lemma Counts()
    ensures LsCount(0) == 1 && LsCount(1) == 1 && LsCount(2) == 2 && LsCount(3) == 2 && LsCount(4) == 2
    ensures LsCount(5) == 2 && LsCount(6) == 2 && LsCount(7) == 2 && LsCount(8) == 1 && LsCount(9) == 2
    ensures LsCount(10) == 2 && LsCount(11) == 2 && LsCount(12) == 2 && LsCount(13) == 2 && LsCount(14) == 2
    ensures LsCount(15) == 1
  {}

  lemma Answer0()
    ensures Encrypt(Bytes(0x7CA110454A1A6E57), Bytes(0x01A1D6D039776742)) == Bytes(0x690F5B0D9A26939B)
  {
    hide Encrypt, Bytes;
    Run(0x7CA110454A1A6E57, 0x01A1D6D039776742, 0x690F5B0D9A26939B, 0x2D943AF0C9715, 0x5B2874E192E2B, 0xB650E8C325C57,
        0x2D943A00C9715F, 0xB650E80325C57C, 0xD943A02C9715F0, 0x650E80B25C57C3, 0x943A02D9715F0C, 0x50E80B65C57C32,
        0xA1D016CB8AF864, 0x87405B2E2BE192, 0x1D016CA8AF864B, 0x7405B282BE192E, 0xD016CA1AF864B8, 0x405B287BE192E2,
        0x16CA1DF864B8A, 0x2D943AF0C9715, 0x70CAC03FC166, 0xA43870464B3E, 0x866E445539D8, 0x4A7710E19079,
        0x4C956943BE2E, 0xC3C04B3C1DBC, 0x29CB820958F7, 0x30398B47E8B1, 0xA1AC4B0EA1B, 0x18785CF71612, 0x465689D236A,
        0xC24D2534FA44, 0xC9AB0170A4F6, 0x1B6ABADAC8B, 0xF114C22E7653, 0x101A3AFA1923, 0x75096435D66E, 0x110D6C6229C,
        0xCC38BB957B29, 0xA5204CCB3826, 0x7C2A9566D62E, 0x3640B1A689BB, 0xE921DF493350, 0xB06D7DED1617,
        0xEFB36775E944, 0x174708E7E81E, 0xE1A59E1D75C9, 0x2D9DFAE4617, 0x63165AA5A4A4, 0x7123A2CD3B8E, 0xEB033344E2A3,
        0x7A1B3935E68E, 0xEC3C6473, 0xE7210E4, 0x49130331, 0x92DF8258, 0xDAEE550F, 0x65FE4B00, 0xEC1D3483, 0x874E8373,
        0x29B57D3, 0xCD31886F, 0x19EA27C6, 0xCE1B02D1, 0x849D3589, 0x55ADA809, 0xE4A4C4E2, 0x30F8D498, 0xD0219FF6,
        0x5D42ACF);
  }

  lemma Answer1()
    ensures Encrypt(Bytes(0x0131D9619DC1376E), Bytes(0x5CD54CA83DEF57DA)) == Bytes(0x7A389D10354BD271)
  {
    hide Encrypt, Bytes;
    Run(0x0131D9619DC1376E, 0x5CD54CA83DEF57DA, 0x7A389D10354BD271, 0x34ACCA5C0D0946, 0x695994A81A128D,
        0xD2B3294034251B, 0x4ACCA530D0946C, 0x2B3294D34251B0, 0xACCA534D0946C0, 0xB3294D24251B03, 0xCCA534A0946C0D,
        0x3294D2B251B034, 0x6529A564A36068, 0x94A695928D81A1, 0x529A566A360684, 0x4A695998D81A12, 0x29A5665360684A,
        0xA695994D81A128, 0x9A5665260684A3, 0x34ACCA5C0D0946, 0x46126F180F46, 0x38A7B1441164, 0xD5141B80A8EC,
        0x6782D4609E91, 0x1ED8861B043B, 0x3A217A0F5900, 0xAC442D006174, 0xC30B1CE18884, 0x7244EB03A258,
        0xF9C104B1B500, 0x8B9F280626, 0x3530375C6886, 0xA70CE02440D9, 0xDA62B483B043, 0x9C9718A68720, 0xE3698217500A,
        0x13539E47B047, 0xBD8FBC14F866, 0x80D5190AC111, 0xAD8282F0DEC2, 0x18DD08BEF6B, 0xB5F479DFCDAA, 0x2C387BAA898A,
        0x9935E31E5D8D, 0x3207B32661AD, 0x26EB5354885F, 0x1AF66A7739D2, 0x531623C7F8E, 0xAD721574FF2D, 0x4F1DB373A715,
        0xBCC1120CC584, 0x43FD2487BB08, 0xE7D37772, 0xAA38BDE0, 0x906A721, 0xAE21133E, 0x900B2209, 0x3AAB2768,
        0x1EA1A495, 0x38B571F, 0xB1DFFEA4, 0x826C4E7A, 0xB94BC9AF, 0x33BAB9FA, 0x602AC0E4, 0x13DAA5FA, 0x2BE3E0EB,
        0x42C55252, 0x44932761, 0xE1DF14B4);
  }

  lemma Answer2()
    ensures Encrypt(Bytes(0x07A1133E4A0B2686), Bytes(0x0248D43806F67172)) == Bytes(0x868EBB51CAB4599A)
  {
    hide Encrypt, Bytes;
    Run(0x07A1133E4A0B2686, 0x0248D43806F67172, 0x868EBB51CAB4599A, 0x82104A0FDC938C, 0x420941FB92719,
        0x841282F724E33, 0x2104A08DC938CF, 0x8412820724E33F, 0x104A082C938CFD, 0x412820824E33F7, 0x4A0821938CFDC,
        0x12820844E33F72, 0x25041089C67EE4, 0x9410420719FB92, 0x5041082C67EE49, 0x410420919FB927, 0x41082567EE49C,
        0x10420949FB9271, 0x41082507EE49C6, 0x82104A0FDC938C, 0x6140047B3167, 0x434286EC3B7, 0xC20440176DCB,
        0x48CA00EE9151, 0xB10AC3E76E, 0x2004437C9F88, 0x614800D8547F, 0xA1904FFAA8, 0x82404408EEBB, 0x84B00FF5C15,
        0x31298B43FA, 0x81044195FB05, 0x414A80F206F4, 0x10B180D9AB8F, 0x100443367699, 0x82A10BA3CC7, 0xF1D7547E64C5,
        0x51232B81FEEA, 0x3D131BF2D1C0, 0x121EF19407F0, 0xB51AAAC6D990, 0xB5134C9637D6, 0x91CA5E4DE92C,
        0x5AE1985F915D, 0xB7BD1978EDB3, 0x8D2308CF364F, 0xF717F1BFD0A, 0x1B7ABCFA52AB, 0x4BA388E286A8, 0x2F5A7713D623,
        0x70AFE183B46C, 0xD2C319D0E868, 0xE6EC3440, 0x24E80AB1, 0xA8E1D9AE, 0xF8EDCD85, 0xB698F4D0, 0x6D7009DF,
        0x28E7D50F, 0xE44F2DA9, 0xB204237A, 0x6FAEE064, 0xB04634D, 0x1A0B25D8, 0x33DEDD37, 0x1724240E, 0x7F7B93B6,
        0xC5716E5A, 0xB724D697, 0x58EC234C);
  }

  lemma Answer3()
    ensures Encrypt(Bytes(0x3849674C2602319E), Bytes(0x51454B582DDF440A)) == Bytes(0x7178876E01F19B2A)
  {
    hide Encrypt, Bytes;
    Run(0x3849674C2602319E, 0x51454B582DDF440A, 0x7178876E01F19B2A, 0x800E55CB49C8B1, 0x1CAB96939163, 0x39572D2722C6,
        0xE55C849C8B1B, 0x3957202722C6D, 0xE55C809C8B1B4, 0x3957200722C6D2, 0xE55C800C8B1B49, 0x957200322C6D27,
        0x2AE4007458DA4E, 0xAB9001C1636939, 0xAE4007258DA4E4, 0xB9001CA6369391, 0xE40072A8DA4E45, 0x9001CAB3693916,
        0x40072AEDA4E458, 0x800E55CB49C8B1, 0xD12E02A7BB0C, 0x300A2E0F060B, 0xA03024DE7144, 0x800E7420C3EC,
        0xC47230D0BC83, 0x869760EE0639, 0xCA52431B7B4A, 0x29D34834D130, 0xA710989E48DC, 0x1E02D041D3D1,
        0x1E581893A429, 0xE214CEA1F04, 0xA4C0D1863BE, 0x492928755881, 0x80ACA9C2207B, 0x988086F1C593, 0xC12EA3F82E04,
        0xE0DD75CF3908, 0x6A59DB0B1913, 0xFAA677F57FE9, 0xD4186585FF27, 0x46D7671EEF3A, 0x5AC718D15044,
        0x26EDB6B43AC8, 0x3D9264AE1C82, 0xF1D482C1AED6, 0xF173BB594F22, 0x141C41B57604, 0x8A260D38DEE0,
        0x7994793F8C2D, 0xB5C6A8B85F8B, 0xA815D11493CB, 0x6F297237, 0x2010BCA4, 0xA6ED81E1, 0x933FAB0B, 0xF501AD82,
        0x234AAA72, 0x8203E721, 0x24AD9167, 0x19DF077C, 0x345E628F, 0xDEC903A3, 0xD9719765, 0x31A6BB20, 0x34045AF,
        0x65A89696, 0x6B40F3F8, 0x64ABCACC, 0x2B630C75);
  }

  lemma Answer4()
    ensures Encrypt(Bytes(0x04B915BA43FEB5B6), Bytes(0x42FD443059577FA2)) == Bytes(0xAF37FB421F8C4095)
  {
    hide Encrypt, Bytes;
    Run(0x04B915BA43FEB5B6, 0x42FD443059577FA2, 0xAF37FB421F8C4095, 0xEA30EAEB8E52AE, 0xD461D5D71CA55D,
        0xA8C3ABBE394ABA, 0xA30EAEE8E52AEB, 0x8C3ABBA394ABAE, 0x30EAEEAE52AEB8, 0xC3ABBA894ABAE3, 0xEAEEA352AEB8E,
        0x3ABBA8C4ABAE39, 0x75775189575C72, 0xD5DD46155D71CA, 0x5775187575C729, 0x5DD461D5D71CA5, 0x775187575C7295,
        0xDD461D5D71CA55, 0x75187575C72957, 0xEA30EAEB8E52AE, 0x7951A5F2116D, 0x5FBC287FC456, 0xCAACDA0DE5CA,
        0x7CEE0EACF445, 0x62BD0AEAC6E6, 0x68AC779CCF8B, 0xE5EC1A9E5651, 0x66A7B2DBE360, 0xB2D36545CABF,
        0x895B63171CDD, 0xA173FD8B91F5, 0x9557C103EFA5, 0x535BF17A0D95, 0x9DF1C5CB419F, 0x1347CF477389,
        0x6E2E993CAE53, 0xB907F1D8466E, 0x3FC2806FC5F7, 0xF0512E3DB2C6, 0xC651A7E6DE43, 0xF76B09052CB4,
        0x7DF9738C3177, 0xFAC71BCB14F1, 0x6C99E2FE9E34, 0x92FA316A9CBB, 0x693192678A8A, 0x940CAF317AFD,
        0x4F80C4536E02, 0x7CA7F42AB095, 0xA7D894AB556B, 0x9D335C7CC21, 0xBE8697A606AC, 0x777A6672, 0x82CA52E1,
        0xC3D42030, 0x77BA62E6, 0x75F49143, 0x2EC1DF49, 0x2AA227DE, 0x3960AA50, 0x11C84BAA, 0x412A5AC2, 0xC358E4CB,
        0x6BE97764, 0xB6E2A433, 0x5F82A5A0, 0x7128C09A, 0x349D05F4, 0xA507351F, 0x4C96B397);
  }

  lemma Answer5()
    ensures Encrypt(Bytes(0x0113B970FD34F2CE), Bytes(0x059B5E0851CF143A)) == Bytes(0x86A560F10EC6D85B)
  {
    hide Encrypt, Bytes;
    Run(0x0113B970FD34F2CE, 0x059B5E0851CF143A, 0x86A560F10EC6D85B, 0xD4D87C7C2B094E, 0xA9B0F8F856129D,
        0x5361F1F0AC253B, 0x4D87C7D2B094EC, 0x361F1F5AC253B0, 0xD87C7D4B094EC2, 0x61F1F53C253B0A, 0x87C7D4D094EC2B,
        0x1F1F536253B0AC, 0x3E3EA6C4A76158, 0xF8FA9B029D8561, 0xE3EA6C3A761584, 0x8FA9B0F9D85612, 0x3EA6C3E761584A,
        0xFA9B0F8D856129, 0xEA6C3E361584A7, 0xD4D87C7C2B094E, 0x6F26CC480FC6, 0x7115FD54B160, 0xD5C8E1A0AC6C,
        0x93EBB668BE92, 0xBC37873D443B, 0x73166D0F5842, 0xC9D0F484E174, 0x94CBFEA18EC4, 0xE6CF92433258,
        0x7EBB07B1B12C, 0x2BB45B201EA6, 0x6D44FE5C28B7, 0xF6C9982748D9, 0x1EAB3303B153, 0xAF3C1FA78524, 0x9778F17524A,
        0x7F72CD1DDACA, 0xEEBEAFF11966, 0x65DD10D0539A, 0xEC3C1CED16CB, 0x8CE38A621337, 0x9C7FCC40F0E9,
        0x992CFB6BDD89, 0x943459440EC4, 0xE927C58C8E5C, 0x91FA0064F28F, 0x744A0D95DF53, 0x826CA19C8210,
        0x56F533E21D2F, 0xD497C70CA6A4, 0xFFA9E4480575, 0xBC1FD27D47E8, 0x34D66533, 0x2280AEA6, 0x3D694D03,
        0x60B8E7FB, 0xFEF50D0C, 0x6686BAE6, 0xDB309D15, 0xA787D99E, 0x7F3CC00, 0x1F0B9D82, 0xDA23AA71, 0xBFCB6E3A,
        0xD90F8553, 0x41958ABB, 0x919A18FB, 0xA4BDDC08, 0x6B0ED0B1, 0xECC8338A);
  }

  lemma Answer6()
    ensures Encrypt(Bytes(0x0170F175468FB5E6), Bytes(0x0756D8E0774761D2)) == Bytes(0x0CD3DA020021DC09)
  {
    hide Encrypt, Bytes;
    Run(0x0170F175468FB5E6, 0x0756D8E0774761D2, 0x0CD3DA020021DC09, 0xE49ECE4B0F820E, 0xC93D9C961F041D,
        0x927B393C3E083A, 0x49ECE4E0F820EB, 0x27B39393E083AC, 0x9ECE4E4F820EB0, 0x7B39392E083AC3, 0xECE4E49820EB0F,
        0xB393927083AC3E, 0x672724F107587C, 0x9C9C93D41D61F0, 0x72724F607587C1, 0xC9C93D91D61F04, 0x2724F677587C10,
        0x9C93D9CD61F041, 0x724F672587C107, 0xE49ECE4B0F820E, 0xED2267730364, 0x39B73E56C246, 0xE414CB14A5CC,
        0x73CA74A8B4C1, 0x8CF9926AE623, 0x36277F3E4D0A, 0xEF54018C5152, 0x4B8BFCC5E260, 0xA3C4F941CA59,
        0xDD4B8653941C, 0x32BB998915AC, 0x1D3467087AA5, 0xE34CDC7248B5, 0x5CE3A483099B, 0x929D3B873311,
        0xCAEA83BD0243, 0x28A0977396C3, 0x631E6F237EB3, 0x1457C2640F37, 0xF3A324975EC3, 0x191294EFE7D5,
        0xB6CFD30124F4, 0x35FD51B3EC51, 0x5E365B10B660, 0x737BF7FB9C0E, 0x85D7B0356E7, 0x224630ECFE50, 0x2DA0366252A5,
        0xE69A791DC841, 0x4C4B5F56E3C3, 0x4262C3BD4CE6, 0xEA2B82DDAA1F, 0xFE963371, 0x8C5804B3, 0xB528ED9A,
        0xE264E55D, 0x3287F41, 0x2F63083B, 0x7167B3F, 0xB5287DA1, 0x2DB3AA80, 0xA5E772CB, 0xA8DEA65D, 0x27B4CF7E,
        0x6488D100, 0xED2DC1A, 0x251DAF4C, 0xA7FC73FB, 0x4620C50E, 0x464641A2);
  }

  lemma Answer7()
    ensures Encrypt(Bytes(0x43297FAD38E373FE), Bytes(0x762514B829BF486A)) == Bytes(0xEA676B2CB7DB2B7A)
  {
    hide Encrypt, Bytes;
    Run(0x43297FAD38E373FE, 0x762514B829BF486A, 0xEA676B2CB7DB2B7A, 0xA8E5FEDE58C9E4, 0x51CBFDBCB193C9,
        0xA397FB69632793, 0x8E5FEDA58C9E4E, 0x397FB6A6327939, 0xE5FEDA88C9E4E5, 0x97FB6A33279396, 0x5FEDA8EC9E4E58,
        0x7FB6A392793963, 0xFF6D4724F272C6, 0xFDB51CB3C9CB19, 0xF6D472FF272C64, 0xDB51CBFC9CB193, 0x6D472FF272C64F,
        0xB51CBFD9CB193C, 0xD472FF672C64F2, 0xA8E5FEDE58C9E4, 0x51B56F8B3D4E, 0xDAAEFC4D17A3, 0xDCF63A9E6869,
        0xE69F6E62DB54, 0xEAFA4791A5BA, 0x29FF7AED1E01, 0xE475FB5A627E, 0xF7CF5135D98C, 0xBE597B0E2E9C,
        0xAF636DF971D1, 0x8B5F9D23C22B, 0x5D3BF9D63D06, 0x97FCE9AC03FC, 0xDB6FC651FAC3, 0x78FF8D768439,
        0xEF3CA4B2D49E, 0xC4A09874284C, 0xDFAD53A87C03, 0xBCDCC28E9460, 0x293436585BFB, 0x9A2E16CE8EE7,
        0x96E97C580B0F, 0x8E5D00A5F673, 0x37CF06CA4D8B, 0x2E4E872492CE, 0x8F2232398D2D, 0x545D9AC9EA20,
        0xE74701C9EA58, 0x1283BE59685E, 0x51AFC181B8C9, 0x32C1D5590598, 0x75025B476B30, 0xC12D2732, 0x28BBF8A1,
        0x877CB70, 0xC15C2784, 0x9D6C7417, 0xE688B96E, 0x78C368A7, 0xD11DFC86, 0x800BFC83, 0x20FE5589, 0x422F879E,
        0xB843D105, 0x739C3EEF, 0xBEBEB71, 0x1603A245, 0x91CC5C30, 0x31DFEDF7, 0xA7B01A76);
  }

  lemma Answer8()
    ensures Encrypt(Bytes(0x07A7137045DA2A16), Bytes(0x3BDD119049372802)) == Bytes(0xDFD64A815CAF1A0F)
  {
    hide Encrypt, Bytes;
    Run(0x07A7137045DA2A16, 0x3BDD119049372802, 0xDFD64A815CAF1A0F, 0x22384AAE79360C, 0x4470954CF26C19,
        0x88E12A89E4D833, 0x2384AA279360CE, 0x8E12A88E4D8339, 0x384AA229360CE7, 0xE12A8884D8339E, 0x84AA223360CE79,
        0x12A888ED8339E4, 0x255111CB0673C9, 0x9544470C19CF26, 0x55111C20673C9B, 0x544470919CF26C, 0x5111C25673C9B0,
        0x44470959CF26C1, 0x111C25573C9B06, 0x22384AAE79360C, 0x7052854263F6, 0x2C3C20C4E993, 0xC22C5827265D,
        0x4CE610FB91C2, 0x469D0A04C72F, 0x6AA0435E3CC4, 0x29CC0AE8C1F9, 0x60219A03FE0B, 0x1252E4281F5B,
        0x9859409FD036, 0x636D454FE0, 0x81550598A85D, 0x410BE1E3D694, 0x91F0A11927AB, 0x9107C2BE5805, 0x222A1A3B08E6,
        0xF51187E81EF4, 0xF97C299E5494, 0xF7ECA6886555, 0xB367ECD17935, 0x9CB6FCA444D4, 0xAFE0BB713E3B,
        0x93D9A47757A7, 0xC59D37799755, 0x586D4FF78AAA, 0x48B3B63510C1, 0x7AE3CC159841, 0x11BF525796A7,
        0xABB41DD6946B, 0x8E9853ACDBF3, 0x144697F18FFB, 0xB7431B41B7E8, 0x122F2237, 0xA6153A1, 0xAA04B5A3, 0x6E1F5A64,
        0xFC3E571B, 0xB17B447D, 0x8A1C585F, 0x70B73CCF, 0x4D96F32F, 0x91F5BCB8, 0xA75B561B, 0xF410A6F0, 0x274B99DD,
        0xD5FE6A5F, 0x3B196F8C, 0xA2A9EFF, 0x2B20F5E7, 0x1753B3A9);
  }

  lemma Answer9()
    ensures Encrypt(Bytes(0x04689104C2FD3B2F), Bytes(0x26955F6835AF609A)) == Bytes(0x5C513C9C4886C088)
  {
    hide Encrypt, Bytes;
    Run(0x04689104C2FD3B2F, 0x26955F6835AF609A, 0x5C513C9C4886C088, 0x3432E26D0A9E24, 0x6865C4CA153C49,
        0xD0CB89842A7893, 0x432E2630A9E24D, 0xCB898D2A78934, 0x32E2634A9E24D0, 0xCB898D0A789342, 0x2E263439E24D0A,
        0xB898D0C789342A, 0x7131A19F126854, 0xC4C6865C49A153, 0x131A197126854F, 0x4C6865C49A153C, 0x31A197126854F1,
        0xC6865C49A153C4, 0x1A197136854F12, 0x3432E26D0A9E24, 0xE610A121496E, 0x58B123564F10, 0xA18C5B992158,
        0x656286E1F200, 0x329D9070262E, 0x5C2073BC188E, 0xA7C41C0472F3, 0x4E038637A861, 0x73076162421F,
        0xC9D881D7118A, 0x11A3DE841369, 0x34548352BA64, 0x730964708DB8, 0x88E095093C1B, 0x15073E6F7030,
        0x62CF889ACA23, 0x365352F4DC65, 0xC273D09CA7B2, 0x219AA52CC95E, 0x4F61DBAE6758, 0x12216790B1DA,
        0x4C75DFB90D22, 0xE2504C010FAE, 0x3ED67CB243C8, 0xAC923FF780B4, 0xC5B25E8788D, 0xDEA32554846E, 0x6B6B88BD2FC9,
        0x33533B01A49, 0xE88A912CD516, 0xDAEF67359A6B, 0x17CF81D56322, 0x4C963736, 0xA279ACA5, 0x36599711, 0xDF6F03,
        0x506E9CAC, 0x459BC4FA, 0x22B608B6, 0x8C880BAE, 0xE6BD0F74, 0xBCAF2E55, 0x8C727B23, 0x981DA4E3, 0xB9E5DCB6,
        0xE18B84F8, 0xC3424F26, 0x9F0CB74D, 0xE8049D20, 0x530F2D02);
  }

  lemma Answer10()
    ensures Encrypt(Bytes(0x37D06BB516CB7546), Bytes(0x164D5E404F275232)) == Bytes(0x0A2AEEAE3FF4AB77)
  {
    hide Encrypt, Bytes;
    Run(0x37D06BB516CB7546, 0x164D5E404F275232, 0x0A2AEEAE3FF4AB77, 0x2AE64D5B5D924B, 0x55CC9AA6BB2497,
        0xAB99354D76492E, 0xAE64D525D924BB, 0xB99354A76492ED, 0xE64D52AD924BB5, 0x99354AB6492ED7, 0x64D52AE924BB5D,
        0x9354AB9492ED76, 0x26A9573925DAEC, 0x9AA55CC4976BB2, 0x6A9573225DAEC9, 0xAA55CC9976BB24, 0xA9573265DAEC92,
        0xA55CC9A76BB249, 0x957326ADAEC925, 0x2AE64D5B5D924B, 0xC0794F772724, 0x1E06F606D2D7, 0xFE501C57A5E5,
        0xE836CAA8DC9, 0x8A583F4AF717, 0xAD2B687F45A8, 0x827EA9C8594B, 0xD93F50C6F23C, 0x33483E89CC5B, 0xAC21B44FF614,
        0x960E3DB945EC, 0xCF323088DA87, 0x8E9EECD666B5, 0xDA724ABB0BC9, 0x28DF6892F313, 0xB7B090BD09CF,
        0x406C4F7DF08E, 0xDB92A619EFD4, 0xE4C4B9083241, 0xE1AA960ADA9A, 0xDA25908F88EE, 0xA2EAC50FD254,
        0x88BDA36818B7, 0xBCFD5F3C4FC5, 0xC68AC7ECE608, 0xA32346FF62E8, 0xBC9B97197BB0, 0x7A3133528C8D,
        0x34CAB339A5EF, 0xCAE4E29E609D, 0x7DD3E028C1B, 0x2276C92F731, 0x5EC53732, 0xA016F5, 0x8C8839A1, 0x3492BCF2,
        0xD93D42E9, 0xA3B78BFC, 0x1E36E4FE, 0x1665423E, 0xCE47F5BC, 0xEE5CC949, 0x1859649E, 0x54B541CE, 0x6861B2C5,
        0x728FDE6D, 0x24D44B6A, 0x584B23E4, 0x6CFE5FDF, 0xA4B0BCD0);
  }

  lemma Answer11()
    ensures Encrypt(Bytes(0x1F08260D1AC2465E), Bytes(0x6B056E18759F5CCA)) == Bytes(0xEF1BF03E5DFA575A)
  {
    hide Encrypt, Bytes;
    Run(0x1F08260D1AC2465E, 0x6B056E18759F5CCA, 0xEF1BF03E5DFA575A, 0x20E0049F5CD9B1, 0x41C0092EB9B363,
        0x8380124D7366C7, 0xE004925CD9B1F, 0x38012487366C7D, 0xE004920CD9B1F5, 0x8012483366C7D7, 0x4920ED9B1F5C,
        0x12483866C7D73, 0x249070CD8FAE6, 0x9241C0363EB9B, 0x2490700D8FAE6C, 0x9241C0063EB9B3, 0x49070028FAE6CD,
        0x241C0093EB9B36, 0x9070024FAE6CD8, 0x20E0049F5CD9B1, 0x103049BFB90E, 0x808D40F07BF, 0x146018DF79C1,
        0x6052062C37D, 0xCA0805D3BD8E, 0x9A208EC17B9, 0x14AA5B7A6F, 0xF0084076D9B8, 0x1018329EEC9E, 0xA42044ED57D1,
        0x246049BE26B, 0x481130F6DF04, 0x8480699827FE, 0x834202FDFA81, 0x281B8072667B, 0x231000F2DD97, 0xC030E24A0405,
        0xFD757FCA07B4, 0xFB9EE4F0C6CE, 0x33B929224125, 0x3AE1F74CD575, 0x73C8A199BFE0, 0xAD6FE51079F, 0x9AA2EC494D49,
        0x4FCD680E91CF, 0xF4E24B083C28, 0x923857545DC1, 0x882FC65C62AF, 0x5BD538E2A501, 0xA928AF987B89,
        0x426776E8322E, 0xB3B95B2DA2C1, 0xD5787633, 0xA015EDA5, 0xEBB58805, 0xDFDE5DE7, 0x6D84844C, 0xE7393B1D,
        0xF354ED0C, 0x164A13B8, 0xD5567C98, 0xBEAD23A8, 0xA647CB7C, 0x23C99DF5, 0x81DB55B5, 0xBAA8F45F, 0x5356CC24,
        0xD39B328A, 0x252DBBEB, 0xF5FE5953);
  }

  lemma Answer12()
    ensures Encrypt(Bytes(0x584023641ABA6176), Bytes(0x004BD6EF09176062)) == Bytes(0x88BF0DB6D70DEE56)
  {
    hide Encrypt, Bytes;
    Run(0x584023641ABA6176, 0x004BD6EF09176062, 0x88BF0DB6D70DEE56, 0x20CBECBB488311, 0x4197D966910623,
        0x832FB2CD220C46, 0xCBECB2488311B, 0x32FB2C8220C46D, 0xCBECB2088311B4, 0x2FB2C8320C46D2, 0xBECB20C8311B48,
        0xFB2C8320C46D22, 0xF659065188DA44, 0xD9641976236910, 0x659065F88DA441, 0x964197D2369106, 0x59065F68DA4418,
        0x64197D93691062, 0x9065F65DA44188, 0x20CBECBB488311, 0xD0A2ED2FA124, 0xE88CF606422B, 0xF4EA0A563940,
        0x22B732A08178, 0xEC1C5741BE02, 0x67E2587C0438, 0xED5B209584E, 0xFE095B04F0B0, 0xB5BB3986819, 0xBD31CD635210,
        0x1346C991212A, 0x5959B4A41A04, 0x94A9CD5022F6, 0x136627358889, 0xE91DA4023453, 0x43B42AF81183,
        0xD534BD20F478, 0x18CF50863E88, 0x8115FE697911, 0x5DB5C7EA5421, 0xC9B6F5D4025E, 0x52745859F838,
        0x74151DF9B31B, 0x64B4559B73B6, 0xC4E4BC7D9612, 0x224C6839EFB2, 0xF6F8C8CE0881, 0xFC0CB8ABDBAE,
        0x8BAB31658BFA, 0xCCF28F1FDF7E, 0x99E100375DF2, 0x6CDE7EC8EF77, 0xCE242C3A, 0xCC81AAE, 0xE2730391, 0xEFFA7A08,
        0xF85A96AC, 0x4D512D8E, 0x6CC04F80, 0xF617E76A, 0x35A73C63, 0x9DE7CFC5, 0x3BB2B5B1, 0xCDC0B935, 0x4AA61E35,
        0x385E6D26, 0xBC9452FB, 0xE7926B30, 0x5B4A67DA, 0xD09AFE36);
  }

  lemma Answer13()
    ensures Encrypt(Bytes(0x025816164629B007), Bytes(0x480D39006EE762F2)) == Bytes(0xA1F9915541020B56)
  {
    hide Encrypt, Bytes;
    Run(0x025816164629B007, 0x480D39006EE762F2, 0xA1F9915541020B56, 0x40126049D9C22E, 0x8024C083B3845D,
        0x4981176708BA, 0x126044D9C22E9, 0x4981106708BA7, 0x12604409C22E9D, 0x4981100708BA76, 0x2604401C22E9D9,
        0x981100408BA767, 0x30220091174ECE, 0xC08802445D3B38, 0x220093174ECE1, 0x88024C5D3B384, 0x220093074ECE11,
        0x88024C0D3B3845, 0x20093024ECE117, 0x40126049D9C22E, 0xE80000E1236D, 0x51102267C6C1, 0xA080C01AA54F,
        0x104206AED584, 0x2011104867E3, 0x40065FEC809, 0x834010C2575A, 0xC03A09DB328, 0x2381000D467D, 0x808835BD8C4,
        0x31201880C5BD, 0x404808B3E85, 0x520814FA43B1, 0xCA000134B0F, 0x2042ED63190, 0x86819DA0D7, 0xB817A8EBDCCC,
        0x14788E52F9C8, 0x4A946FF00D40, 0x7A3EAABEA9D5, 0x102FE2E2A4E3, 0x642AC201085C, 0xF6EA42422B5F,
        0xA6000088B126, 0x1C2953C28621, 0xF2E08CA4E6CB, 0xD4C8EE2A87E6, 0x9EC52F5BFE87, 0xA88818E07F1A,
        0x76A2A403F5AE, 0xB24486DCDBC6, 0x6E873DF7D7, 0xF1843226, 0xA0F417F0, 0x8B1669E4, 0xD097D507, 0xD3962388,
        0x61D95660, 0xC153FE0A, 0xED490382, 0x50702847, 0x7D099E0E, 0xF707F9C7, 0xCF1B524D, 0x3637A601, 0xF4063195,
        0xF05225D0, 0x6214174B, 0x70342E0, 0x9A8E885F);
  }

  lemma Answer14()
    ensures Encrypt(Bytes(0x49793EBC79B3258F), Bytes(0x437540C8698F3CFA)) == Bytes(0x6FBF1CAFCFFD0556)
  {
    hide Encrypt, Bytes;
    Run(0x49793EBC79B3258F, 0x437540C8698F3CFA, 0x6FBF1CAFCFFD0556, 0xA8137E3A4CC9FE, 0x5026FC749993FD,
        0xA04DF8E93327FA, 0x8137E3A4CC9FEA, 0x4DF8EA3327FA9, 0x137E3A8CC9FEA4, 0x4DF8EA0327FA93, 0x37E3A81C9FEA4C,
        0xDF8EA0427FA933, 0xBF1D4094FF5266, 0xFC750263FD4999, 0xF1D409BFF52664, 0xC75026FFD49993, 0x1D409BFF52664F,
        0x75026FCD49993F, 0xD409BF152664FF, 0xA8137E3A4CC9FE, 0xE1A58DDBBD4C, 0xCA34AE4D966F, 0xF88E689EFCE8,
        0xC0FA2A28DF75, 0xA0BF569BECB2, 0x647E43ED4F11, 0x63F5709B625E, 0xCCC5D3F5D384, 0x8F43721FAA9C,
        0xAE5BA97175D5, 0x9B33492BA0AF, 0x95ED9E67D87, 0x5579CC2E03FF, 0x12EDC1D7D9C3, 0x596D27468779, 0xFAE2CF4D4DA,
        0x34B328A4A84F, 0x355F09B77CC4, 0x28CF6E1BD5B7, 0x45C52CB8F7D3, 0x30C0F2A12C1C, 0xEFD47CDB2E8, 0xCF7DF7EDEFF,
        0xC9D38A80F888, 0xC0D72200176D, 0x245AA14E0AD7, 0x9B31BEE175F7, 0x294A7B533E7F, 0xAA6C9C2B02F8,
        0x9710361DCF69, 0x86062F792D26, 0x90EF7A6B282C, 0x9FC26233, 0xA8D2F8A1, 0xFB73F755, 0xA223092F, 0x9E32113,
        0x23F27617, 0xD46247BC, 0xD857CD90, 0x8CCE966, 0x9C883DB8, 0x10247BE1, 0x5B96AC, 0x40916A7C, 0xF8A80823,
        0xFBB90D5, 0xBB647D4F, 0x3A2B3F9B, 0xB1A6FF7B);
  }

  lemma Answer15()
    ensures Encrypt(Bytes(0x4FB05E1515AB73A7), Bytes(0x072D43A077075292)) == Bytes(0x2F22E49BAB7CA1AC)
  {
    hide Encrypt, Bytes;
    Run(0x4FB05E1515AB73A7, 0x072D43A077075292, 0x2F22E49BAB7CA1AC, 0xA245E25E59D25E, 0x448BC4BCB3A4BD,
        0x8917896967497B, 0x245E25A59D25EE, 0x917896867497B9, 0x45E25A29D25EE5, 0x17896897497B96, 0x5E25A24D25EE59,
        0x7896891497B967, 0xF12D12292F72CE, 0xC4B448B4BDCB3A, 0x12D122F2F72CE9, 0x4B448BCBDCB3A4, 0x2D122F1F72CE92,
        0xB448BC4DCB3A4B, 0xD122F1272CE92F, 0xA245E25E59D25E, 0x41C02BC3A766, 0xDCA2E845D3DB, 0x92D60A17B46D,
        0x681B46EA9DE4, 0x20F84D08EFBF, 0x165727F5C91, 0xE44DB1CB417B, 0xD7A30187FB0C, 0xAA096F1D0E5B, 0xA96209DFF054,
        0x11FB821E7EC, 0xD438D1B8BC87, 0x17EE40EE46B7, 0x4A75861F6BCB, 0x78854DB6D151, 0xCB1CB0FF08DE, 0x84C0DFC3F0CD,
        0xC8847AAED28, 0x226B57482363, 0x8871B13AC917, 0x7F051EF2C64E, 0xAB198700A293, 0xDB31B35E158B, 0x5DB75337F9F2,
        0x4FCB333233F4, 0x96DF5E3526A0, 0x3EE3E81159B8, 0x64C52A6D412D, 0x5D2D126E52E6, 0x4AF77DEFD6CF,
        0x9890B5B62C0A, 0x248B1F202029, 0x54D03337, 0x881A02F5, 0xA157D9D9, 0x65AEBCE7, 0xC35BA299, 0xBFA9F138,
        0x539AFFC1, 0x7B812A98, 0x1089605F, 0xCE4E59B7, 0x7DABD6DA, 0x7F8865CA, 0x67BDAFB5, 0x96690088, 0x45DE5A2,
        0xC0BC07AD, 0xDCF7B91B, 0x2428A559);
  }

  lemma Answer16()
    ensures Encrypt(Bytes(0x49E95D6D4CA229BF), Bytes(0x02FE55778117F12A)) == Bytes(0x5A6B612CC26CCE4A)
  {
    hide Encrypt, Bytes;
    Run(0x49E95D6D4CA229BF, 0x02FE55778117F12A, 0x5A6B612CC26CCE4A, 0xA21FEA8A09CDF4, 0x443FD514139BE9,
        0x887FAA282737D2, 0x21FEA8A09CDF4A, 0x87FAA282737D28, 0x1FEA8A29CDF4A0, 0x7FAA288737D282, 0xFEA8A21CDF4A09,
        0xFAA288737D2827, 0xF54510F6FA504E, 0xD51443FBE94139, 0x54510FFFA504E6, 0x51443FDE94139B, 0x4510FF5A504E6F,
        0x1443FD594139BE, 0x510FF54504E6FA, 0xA21FEA8A09CDF4, 0xF1C2278BDF4C, 0xECBE2A4D1E2A, 0xE2B64A9C787C,
        0x68DE5221DAF4, 0x64F95A91ACB3, 0x26E553AF0E15, 0x6F4D131B63D6, 0x6FA19935C185, 0x8B51ED362ADC,
        0x994BC971B1D3, 0x117BA927A42B, 0x913DC56E3D46, 0x516EC52CC1FE, 0x51F5A445DCC3, 0xD085E7CE8479,
        0xCAAE32F1D43A, 0x5B9472CB8A1A, 0x1941D708DDD9, 0xE208B7C6872C, 0xD82201E4CE0A, 0x216EA02404BE,
        0x191BF84A7011, 0x755A1324CA26, 0x905C9AFFD7D6, 0x8ED24843548C, 0xE30A6FEEA72A, 0x1BF8A6F219D7,
        0x6E7C35542BE1, 0xB056783C00F, 0xA437FF85CBC4, 0x9F04B41B1378, 0x60AF6F84AA9C, 0x4E6E2E7C, 0x52CA82AB,
        0xEFFE8E79, 0x5DEB7E8, 0x6789889F, 0x8CFD6D06, 0x7FD5CBC2, 0x30E07D38, 0xFFA190C9, 0xC72EBC8, 0xF23338DC,
        0x1467ADBE, 0xFA3870D3, 0xB3715838, 0xEE4D80E3, 0x9C29ACE0, 0x502EEBD3, 0xF7016806);
  }

  lemma Answer17()
    ensures Encrypt(Bytes(0x018310DC409B26D6), Bytes(0x1D9D5C5018F728C2)) == Bytes(0x5F4C038ED12B2E41)
  {
    hide Encrypt, Bytes;
    Run(0x018310DC409B26D6, 0x1D9D5C5018F728C2, 0x5F4C038ED12B2E41, 0xAA9840AE2C828C, 0x5530815C590519,
        0xAA6102A8B20A33, 0xA9840AA2C828CE, 0xA6102AAB20A338, 0x9840AAAC828CE2, 0x6102AAA20A338B, 0x840AAA9828CE2C,
        0x102AAA60A338B2, 0x205554C1467164, 0x8155530519C590, 0x5554C24671641, 0x155530819C5905, 0x5554C206716414,
        0x55530819C59051, 0x554C2057164146, 0xAA9840AE2C828C, 0x7143C15311E6, 0x2E18384CE306, 0x8E28483464C8,
        0xA6E18E89043, 0x4C3D0886E62A, 0x42AC493C1F40, 0x49EC0298C072, 0x60AD8A45EE00, 0x8212A4009A99, 0x981A64D31435,
        0x8072680B0BA8, 0x805764107915, 0xC05B416300B4, 0x1F361C1298B, 0x8155C326121D, 0xE021ABA0442, 0x2100C179ECE7,
        0xA17030634908, 0x2E1515543296, 0x9A2D4E7747BD, 0xCC7E03669B8C, 0x6D7BB9161E18, 0xE9AF5837AA80,
        0x1004727A2C01, 0xD86CAFCA7094, 0x525BC9A914C2, 0xEAE73C0B21FD, 0x4A6A654ABAEA, 0x9FDAEFD36BB9,
        0x61679C9E00D6, 0xC1D430EC44B4, 0x81011A8F6F18, 0xAC3F2723, 0xA26057A0, 0x1B045D47, 0x41AEC2CF, 0x226B3EFF,
        0x265C3B3, 0x5EF8502C, 0x426D5B59, 0xE53C7E40, 0xB3C59746, 0x9236F01B, 0xD4AA014A, 0x91A0B67F, 0xBC376366,
        0xC49EB92E, 0x843992D4, 0x18606B6D, 0x93114BB5);
  }

  lemma Answer18()
    ensures Encrypt(Bytes(0x1C587F1C13924FEF), Bytes(0x305532286D6F295A)) == Bytes(0x63FAC0D034D9F793)
  {
    hide Encrypt, Bytes;
    Run(0x1C587F1C13924FEF, 0x305532286D6F295A, 0x63FAC0D034D9F793, 0xA0C6843F4CDCFF, 0x418D087E99B9FF,
        0x831A10ED3373FF, 0xC6843A4CDCFFF, 0x31A10E83373FFD, 0xC6843A0CDCFFF4, 0x1A10E83373FFD3, 0x6843A0CDCFFF4C,
        0xA10E83173FFD33, 0x421D063E7FFA66, 0x87418D9FFE99B, 0x21D06347FFA66E, 0x87418D0FFE99B9, 0x1D06342FFA66E7,
        0x7418D08FE99B9F, 0xD063421FA66E7F, 0xA0C6843F4CDCFF, 0x8120EBF7FD4E, 0x882DE4F9F5F, 0x34580ADFF5F8,
        0x22296069DF6D, 0x886C15DAFCBE, 0x452718ED5FBD, 0x4694A19B7AFB, 0xDB8842F7DB35, 0x810A3BBFCA9E,
        0xA53284D577D7, 0x121EC0BFA2ED, 0x587070F2FFC7, 0x84C54C3EA7BF, 0x424307FF7DC3, 0x2999216EE37B,
        0xCB9008F6CDFB, 0x81231008E846, 0x387E7B357553, 0x4EA4590FC909, 0xCDBCC043E1CA, 0xB76FB0A52912,
        0x5570BA58E3E5, 0xC6A959A43A55, 0x911EE7924E98, 0x1BE0305FCBC0, 0x80CFD18F5DD7, 0x2D9C6CA00BB1,
        0x92A783270034, 0xBE524D716413, 0xA87CAD6F576C, 0xE6A6255B6374, 0x3E52AE669BFC, 0xB2873272, 0x7DF8A4,
        0x6792F746, 0xF789A198, 0xDCB051D3, 0x7872FEB6, 0x22F16D8C, 0x1BC7A17, 0x94D2CCB6, 0x3745C02F, 0x4FAAB140,
        0x7C563D2E, 0x96F9AFF9, 0x74E09E76, 0xD1F52157, 0x99E26C07, 0xEE5322C3, 0x6FFA50E1);
  }

  /** The pairs by which the National Bureau of Standards exercises every entry of every S-box. */
  lemma KnownAnswers()
    ensures Encrypt(Bytes(0x7CA110454A1A6E57), Bytes(0x01A1D6D039776742)) == Bytes(0x690F5B0D9A26939B)
    ensures Encrypt(Bytes(0x0131D9619DC1376E), Bytes(0x5CD54CA83DEF57DA)) == Bytes(0x7A389D10354BD271)
    ensures Encrypt(Bytes(0x07A1133E4A0B2686), Bytes(0x0248D43806F67172)) == Bytes(0x868EBB51CAB4599A)
    ensures Encrypt(Bytes(0x3849674C2602319E), Bytes(0x51454B582DDF440A)) == Bytes(0x7178876E01F19B2A)
    ensures Encrypt(Bytes(0x04B915BA43FEB5B6), Bytes(0x42FD443059577FA2)) == Bytes(0xAF37FB421F8C4095)
    ensures Encrypt(Bytes(0x0113B970FD34F2CE), Bytes(0x059B5E0851CF143A)) == Bytes(0x86A560F10EC6D85B)
    ensures Encrypt(Bytes(0x0170F175468FB5E6), Bytes(0x0756D8E0774761D2)) == Bytes(0x0CD3DA020021DC09)
    ensures Encrypt(Bytes(0x43297FAD38E373FE), Bytes(0x762514B829BF486A)) == Bytes(0xEA676B2CB7DB2B7A)
    ensures Encrypt(Bytes(0x07A7137045DA2A16), Bytes(0x3BDD119049372802)) == Bytes(0xDFD64A815CAF1A0F)
    ensures Encrypt(Bytes(0x04689104C2FD3B2F), Bytes(0x26955F6835AF609A)) == Bytes(0x5C513C9C4886C088)
    ensures Encrypt(Bytes(0x37D06BB516CB7546), Bytes(0x164D5E404F275232)) == Bytes(0x0A2AEEAE3FF4AB77)
    ensures Encrypt(Bytes(0x1F08260D1AC2465E), Bytes(0x6B056E18759F5CCA)) == Bytes(0xEF1BF03E5DFA575A)
    ensures Encrypt(Bytes(0x584023641ABA6176), Bytes(0x004BD6EF09176062)) == Bytes(0x88BF0DB6D70DEE56)
    ensures Encrypt(Bytes(0x025816164629B007), Bytes(0x480D39006EE762F2)) == Bytes(0xA1F9915541020B56)
    ensures Encrypt(Bytes(0x49793EBC79B3258F), Bytes(0x437540C8698F3CFA)) == Bytes(0x6FBF1CAFCFFD0556)
    ensures Encrypt(Bytes(0x4FB05E1515AB73A7), Bytes(0x072D43A077075292)) == Bytes(0x2F22E49BAB7CA1AC)
    ensures Encrypt(Bytes(0x49E95D6D4CA229BF), Bytes(0x02FE55778117F12A)) == Bytes(0x5A6B612CC26CCE4A)
    ensures Encrypt(Bytes(0x018310DC409B26D6), Bytes(0x1D9D5C5018F728C2)) == Bytes(0x5F4C038ED12B2E41)
    ensures Encrypt(Bytes(0x1C587F1C13924FEF), Bytes(0x305532286D6F295A)) == Bytes(0x63FAC0D034D9F793)
  {
    hide Encrypt, Bytes;
    Answer0();
    Answer1();
    Answer2();
    Answer3();
    Answer4();
    Answer5();
    Answer6();
    Answer7();
    Answer8();
    Answer9();
    Answer10();
    Answer11();
    Answer12();
    Answer13();
    Answer14();
    Answer15();
    Answer16();
    Answer17();
    Answer18();
  }

  /** The first byte of a block is the heaviest of its number. */
  lemma BytesInOrder()
    ensures Bytes(0x0123456789ABCDEF) == [0x01, 0x23, 0x45, 0x67, 0x89, 0xAB, 0xCD, 0xEF]
  {
    assert WordByte(0x0123456789ABCDEF, 56) == 0x01 && WordByte(0x0123456789ABCDEF, 48) == 0x23;
    assert WordByte(0x0123456789ABCDEF, 40) == 0x45 && WordByte(0x0123456789ABCDEF, 32) == 0x67;
    assert WordByte(0x0123456789ABCDEF, 24) == 0x89 && WordByte(0x0123456789ABCDEF, 16) == 0xAB;
    assert WordByte(0x0123456789ABCDEF, 8) == 0xCD && WordByte(0x0123456789ABCDEF, 0) == 0xEF;
    hide WordByte;
  }
}
