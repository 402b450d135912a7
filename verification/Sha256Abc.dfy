/** The digest of the message "abc", TEST1 of section 8.5 of RFC 6234, word by word. */
module Sha256Abc {
  import opened Bytes
  import opened Sha256Spec
  import opened Sha256Constants

  const ABC: seq<byte> := [0x61, 0x62, 0x63]
  const BLOCK_ABC: seq<byte> := [0x61, 0x62, 0x63, 0x80] + Zeros(56) + [0, 0, 0, 0x18]

  lemma PaddedAbc()
    ensures |BLOCK_ABC| == BLOCK && Padded(ABC) == BLOCK_ABC
  {
    hide Octet;
    LowBytes();
    assert PadZeros(3) == 52;
    assert Padded(ABC) == ABC + [0x80] + Zeros(52) + LengthBytes(24);
    assert LengthBytes(24) == [0, 0, 0, 0, 0, 0, 0, 0x18];
  }

  lemma LowBytes()
    ensures ByteOf(0) == 0 && ByteOf(24) == 0x18
  {
    hide Octet, ValueOf;
    ValueOfByte(0);
    ValueOfByte(24);
    ValueOf24();
    ValueInjective(ByteOf(0), 0);
    ValueInjective(ByteOf(24), 0x18);
  }

  lemma ValueOf24()
    ensures ValueOf(0) == 0 && ValueOf(0x18) == 24
  {
  }

  // ---- the message schedule ----

  ghost predicate WordIs(t: nat, w: word) {
    |BLOCK_ABC| == BLOCK && Schedule(BLOCK_ABC, t + 1)[t] == w
  }

  lemma NextIs(t: nat, w2: word, w7: word, w15: word, w16: word, w: word)
    requires t >= 16 && NextWord(w2, w7, w15, w16) == w
    requires WordIs(t - 2, w2) && WordIs(t - 7, w7) && WordIs(t - 15, w15) && WordIs(t - 16, w16)
    ensures WordIs(t, w)
  {
    hide NextWord;
    Earlier(t, t - 2);
    Earlier(t, t - 7);
    Earlier(t, t - 15);
    Earlier(t, t - 16);
  }

  lemma {:induction false} Earlier(t: nat, i: nat)
    requires i < t && |BLOCK_ABC| == BLOCK
    ensures Schedule(BLOCK_ABC, t)[i] == Schedule(BLOCK_ABC, i + 1)[i]
    decreases t
  {
    hide NextWord;
    if i + 1 < t {
      Earlier(t - 1, i);
    }
  }

  lemma FirstWords()
    ensures WordIs(0, 0x61626380) && WordIs(15, 0x18) && forall t :: 1 <= t < 15 ==> WordIs(t, 0)
  {
    PaddedAbc();
    assert WordAt(BLOCK_ABC, 0) == 0x61626380 && WordAt(BLOCK_ABC, 60) == 0x18;
    forall t | 1 <= t < 15
      ensures WordIs(t, 0)
    {
      assert WordAt(BLOCK_ABC, 4 * t) == 0;
    }
  }

  lemma Words16()
    ensures WordIs(16, 0x61626380) && WordIs(17, 0x000F0000) && WordIs(18, 0x7DA86405) && WordIs(19, 0x600003C6)
    ensures WordIs(20, 0x3E9D7B78) && WordIs(21, 0x0183FC00) && WordIs(22, 0x12DCBFDB) && WordIs(23, 0xE2E2C38E)
  {
    hide WordIs;
    FirstWords();
    NextIs(16, 0x00000000, 0x00000000, 0x00000000, 0x61626380, 0x61626380);
    NextIs(17, 0x00000018, 0x00000000, 0x00000000, 0x00000000, 0x000F0000);
    NextIs(18, 0x61626380, 0x00000000, 0x00000000, 0x00000000, 0x7DA86405);
    NextIs(19, 0x000F0000, 0x00000000, 0x00000000, 0x00000000, 0x600003C6);
    NextIs(20, 0x7DA86405, 0x00000000, 0x00000000, 0x00000000, 0x3E9D7B78);
    NextIs(21, 0x600003C6, 0x00000000, 0x00000000, 0x00000000, 0x0183FC00);
    NextIs(22, 0x3E9D7B78, 0x00000018, 0x00000000, 0x00000000, 0x12DCBFDB);
    NextIs(23, 0x0183FC00, 0x61626380, 0x00000000, 0x00000000, 0xE2E2C38E);
  }

  lemma Words24()
    ensures WordIs(24, 0xC8215C1A) && WordIs(25, 0xB73679A2) && WordIs(26, 0xE5BC3909) && WordIs(27, 0x32663C5B)
    ensures WordIs(28, 0x9D209D67) && WordIs(29, 0xEC8726CB) && WordIs(30, 0x702138A4) && WordIs(31, 0xD3B7973B)
  {
    hide WordIs;
    FirstWords();
    Words16();
    NextIs(24, 0x12DCBFDB, 0x000F0000, 0x00000000, 0x00000000, 0xC8215C1A);
    NextIs(25, 0xE2E2C38E, 0x7DA86405, 0x00000000, 0x00000000, 0xB73679A2);
    NextIs(26, 0xC8215C1A, 0x600003C6, 0x00000000, 0x00000000, 0xE5BC3909);
    NextIs(27, 0xB73679A2, 0x3E9D7B78, 0x00000000, 0x00000000, 0x32663C5B);
    NextIs(28, 0xE5BC3909, 0x0183FC00, 0x00000000, 0x00000000, 0x9D209D67);
    NextIs(29, 0x32663C5B, 0x12DCBFDB, 0x00000000, 0x00000000, 0xEC8726CB);
    NextIs(30, 0x9D209D67, 0xE2E2C38E, 0x00000018, 0x00000000, 0x702138A4);
    NextIs(31, 0xEC8726CB, 0xC8215C1A, 0x61626380, 0x00000018, 0xD3B7973B);
  }

  lemma Words32()
    ensures WordIs(32, 0x93F5997F) && WordIs(33, 0x3B68BA73) && WordIs(34, 0xAFF4FFC1) && WordIs(35, 0xF10A5C62)
    ensures WordIs(36, 0x0A8B3996) && WordIs(37, 0x72AF830A) && WordIs(38, 0x9409E33E) && WordIs(39, 0x24641522)
  {
    hide WordIs;
    Words16();
    Words24();
    NextIs(32, 0x702138A4, 0xB73679A2, 0x000F0000, 0x61626380, 0x93F5997F);
    NextIs(33, 0xD3B7973B, 0xE5BC3909, 0x7DA86405, 0x000F0000, 0x3B68BA73);
    NextIs(34, 0x93F5997F, 0x32663C5B, 0x600003C6, 0x7DA86405, 0xAFF4FFC1);
    NextIs(35, 0x3B68BA73, 0x9D209D67, 0x3E9D7B78, 0x600003C6, 0xF10A5C62);
    NextIs(36, 0xAFF4FFC1, 0xEC8726CB, 0x0183FC00, 0x3E9D7B78, 0x0A8B3996);
    NextIs(37, 0xF10A5C62, 0x702138A4, 0x12DCBFDB, 0x0183FC00, 0x72AF830A);
    NextIs(38, 0x0A8B3996, 0xD3B7973B, 0xE2E2C38E, 0x12DCBFDB, 0x9409E33E);
    NextIs(39, 0x72AF830A, 0x93F5997F, 0xC8215C1A, 0xE2E2C38E, 0x24641522);
  }

  lemma Words40()
    ensures WordIs(40, 0x9F47BF94) && WordIs(41, 0xF0A64F5A) && WordIs(42, 0x3E246A79) && WordIs(43, 0x27333BA3)
    ensures WordIs(44, 0x0C4763F2) && WordIs(45, 0x840ABF27) && WordIs(46, 0x7A290D5D) && WordIs(47, 0x065C43DA)
  {
    hide WordIs;
    Words24();
    Words32();
    NextIs(40, 0x9409E33E, 0x3B68BA73, 0xB73679A2, 0xC8215C1A, 0x9F47BF94);
    NextIs(41, 0x24641522, 0xAFF4FFC1, 0xE5BC3909, 0xB73679A2, 0xF0A64F5A);
    NextIs(42, 0x9F47BF94, 0xF10A5C62, 0x32663C5B, 0xE5BC3909, 0x3E246A79);
    NextIs(43, 0xF0A64F5A, 0x0A8B3996, 0x9D209D67, 0x32663C5B, 0x27333BA3);
    NextIs(44, 0x3E246A79, 0x72AF830A, 0xEC8726CB, 0x9D209D67, 0x0C4763F2);
    NextIs(45, 0x27333BA3, 0x9409E33E, 0x702138A4, 0xEC8726CB, 0x840ABF27);
    NextIs(46, 0x0C4763F2, 0x24641522, 0xD3B7973B, 0x702138A4, 0x7A290D5D);
    NextIs(47, 0x840ABF27, 0x9F47BF94, 0x93F5997F, 0xD3B7973B, 0x065C43DA);
  }

  lemma Words48()
    ensures WordIs(48, 0xFB3E89CB) && WordIs(49, 0xCC7617DB) && WordIs(50, 0xB9E66C34) && WordIs(51, 0xA9993667)
    ensures WordIs(52, 0x84BADEDD) && WordIs(53, 0xC21462BC) && WordIs(54, 0x1487472C) && WordIs(55, 0xB20F7A99)
  {
    hide WordIs;
    Words32();
    Words40();
    NextIs(48, 0x7A290D5D, 0xF0A64F5A, 0x3B68BA73, 0x93F5997F, 0xFB3E89CB);
    NextIs(49, 0x065C43DA, 0x3E246A79, 0xAFF4FFC1, 0x3B68BA73, 0xCC7617DB);
    NextIs(50, 0xFB3E89CB, 0x27333BA3, 0xF10A5C62, 0xAFF4FFC1, 0xB9E66C34);
    NextIs(51, 0xCC7617DB, 0x0C4763F2, 0x0A8B3996, 0xF10A5C62, 0xA9993667);
    NextIs(52, 0xB9E66C34, 0x840ABF27, 0x72AF830A, 0x0A8B3996, 0x84BADEDD);
    NextIs(53, 0xA9993667, 0x7A290D5D, 0x9409E33E, 0x72AF830A, 0xC21462BC);
    NextIs(54, 0x84BADEDD, 0x065C43DA, 0x24641522, 0x9409E33E, 0x1487472C);
    NextIs(55, 0xC21462BC, 0xFB3E89CB, 0x9F47BF94, 0x24641522, 0xB20F7A99);
  }

  lemma Words56()
    ensures WordIs(56, 0xEF57B9CD) && WordIs(57, 0xEBE6B238) && WordIs(58, 0x9FE3095E) && WordIs(59, 0x78BC8D4B)
    ensures WordIs(60, 0xA43FCF15) && WordIs(61, 0x668B2FF8) && WordIs(62, 0xEEABA2CC) && WordIs(63, 0x12B1EDEB)
  {
    hide WordIs;
    Words40();
    Words48();
    NextIs(56, 0x1487472C, 0xCC7617DB, 0xF0A64F5A, 0x9F47BF94, 0xEF57B9CD);
    NextIs(57, 0xB20F7A99, 0xB9E66C34, 0x3E246A79, 0xF0A64F5A, 0xEBE6B238);
    NextIs(58, 0xEF57B9CD, 0xA9993667, 0x27333BA3, 0x3E246A79, 0x9FE3095E);
    NextIs(59, 0xEBE6B238, 0x84BADEDD, 0x0C4763F2, 0x27333BA3, 0x78BC8D4B);
    NextIs(60, 0x9FE3095E, 0xC21462BC, 0x840ABF27, 0x0C4763F2, 0xA43FCF15);
    NextIs(61, 0x78BC8D4B, 0x1487472C, 0x7A290D5D, 0x840ABF27, 0x668B2FF8);
    NextIs(62, 0xA43FCF15, 0xB20F7A99, 0x065C43DA, 0x7A290D5D, 0xEEABA2CC);
    NextIs(63, 0x668B2FF8, 0xEF57B9CD, 0xFB3E89CB, 0x065C43DA, 0x12B1EDEB);
  }

  // ---- the rounds ----

  ghost predicate StateIs(t: nat, v: seq<word>) {
    |BLOCK_ABC| == BLOCK && t <= |K| && Rounds(INIT, BLOCK_ABC, t) == v
  }

  /** Four rounds with the given constants and words. */
  function Four(v: seq<word>, k: (word, word, word, word), w: (word, word, word, word)): (r: seq<word>)
    requires |v| == 8
    ensures |r| == 8
  {
    Round(Round(Round(Round(v, k.0, w.0), k.1, w.1), k.2, w.2), k.3, w.3)
  }

  lemma FourRounds(t: nat, v: seq<word>, k: (word, word, word, word), w: (word, word, word, word), r: seq<word>)
    requires |v| == 8 && StateIs(t, v) && Four(v, k, w) == r
    requires KIs(t, k.0) && KIs(t + 1, k.1) && KIs(t + 2, k.2) && KIs(t + 3, k.3)
    requires WordIs(t, w.0) && WordIs(t + 1, w.1) && WordIs(t + 2, w.2) && WordIs(t + 3, w.3)
    ensures StateIs(t + 4, r)
  {
    hide Round;
    OneRound(t, v, k.0, w.0);
    var v1 := Round(v, k.0, w.0);
    OneRound(t + 1, v1, k.1, w.1);
    var v2 := Round(v1, k.1, w.1);
    OneRound(t + 2, v2, k.2, w.2);
    OneRound(t + 3, Round(v2, k.2, w.2), k.3, w.3);
  }

  lemma OneRound(t: nat, v: seq<word>, k: word, w: word)
    requires |v| == 8 && StateIs(t, v) && KIs(t, k) && WordIs(t, w)
    ensures StateIs(t + 1, Round(v, k, w))
  {
    hide Round;
  }

  lemma Rounds4()
    ensures StateIs(4,
              [0xD550F666, 0xC8C347A7, 0x5A6AD9AD, 0x5D6AEBCD, 0x24E00850, 0xF92939EB, 0x78CE7989, 0xFA2A4622])
  {
    hide StateIs, WordIs, KIs;
    Start();
    ConstantsFrom0();
    FirstWords();
    FourRounds(0, [0x6A09E667, 0xBB67AE85, 0x3C6EF372, 0xA54FF53A, 0x510E527F, 0x9B05688C, 0x1F83D9AB, 0x5BE0CD19],
               (0x428A2F98, 0x71374491, 0xB5C0FBCF, 0xE9B5DBA5), (0x61626380, 0x00000000, 0x00000000, 0x00000000),
               [0xD550F666, 0xC8C347A7, 0x5A6AD9AD, 0x5D6AEBCD, 0x24E00850, 0xF92939EB, 0x78CE7989, 0xFA2A4622]);
  }

  lemma Rounds8()
    ensures StateIs(8,
              [0x85A07B5F, 0xE5030380, 0x2B4209F5, 0x04409A6A, 0x0C657A79, 0x9B27A401, 0x714260AD, 0x43ADA245])
  {
    hide StateIs, WordIs, KIs;
    Rounds4();
    ConstantsFrom0();
    FirstWords();
    FourRounds(4, [0xD550F666, 0xC8C347A7, 0x5A6AD9AD, 0x5D6AEBCD, 0x24E00850, 0xF92939EB, 0x78CE7989, 0xFA2A4622],
               (0x3956C25B, 0x59F111F1, 0x923F82A4, 0xAB1C5ED5), (0x00000000, 0x00000000, 0x00000000, 0x00000000),
               [0x85A07B5F, 0xE5030380, 0x2B4209F5, 0x04409A6A, 0x0C657A79, 0x9B27A401, 0x714260AD, 0x43ADA245]);
  }

  lemma Rounds12()
    ensures StateIs(12,
              [0xF71FC5A9, 0x4798A3F4, 0x8C87346B, 0x8E04ECB9, 0x816FD6E9, 0x436B23E8, 0x1CC92596, 0x32CA2D8C])
  {
    hide StateIs, WordIs, KIs;
    Rounds8();
    ConstantsFrom8();
    FirstWords();
    FourRounds(8, [0x85A07B5F, 0xE5030380, 0x2B4209F5, 0x04409A6A, 0x0C657A79, 0x9B27A401, 0x714260AD, 0x43ADA245],
               (0xD807AA98, 0x12835B01, 0x243185BE, 0x550C7DC3), (0x00000000, 0x00000000, 0x00000000, 0x00000000),
               [0xF71FC5A9, 0x4798A3F4, 0x8C87346B, 0x8E04ECB9, 0x816FD6E9, 0x436B23E8, 0x1CC92596, 0x32CA2D8C]);
  }

  lemma Rounds16()
    ensures StateIs(16,
              [0xB0FA238E, 0xC0645FDE, 0xD932EB16, 0x87912990, 0x07590DCD, 0x0B92F20C, 0x745A48DE, 0x1E578218])
  {
    hide StateIs, WordIs, KIs;
    Rounds12();
    ConstantsFrom8();
    FirstWords();
    FourRounds(12, [0xF71FC5A9, 0x4798A3F4, 0x8C87346B, 0x8E04ECB9, 0x816FD6E9, 0x436B23E8, 0x1CC92596, 0x32CA2D8C],
               (0x72BE5D74, 0x80DEB1FE, 0x9BDC06A7, 0xC19BF174), (0x00000000, 0x00000000, 0x00000000, 0x00000018),
               [0xB0FA238E, 0xC0645FDE, 0xD932EB16, 0x87912990, 0x07590DCD, 0x0B92F20C, 0x745A48DE, 0x1E578218]);
  }

  lemma Rounds20()
    ensures StateIs(20,
              [0xE1F20C33, 0xFE777BBF, 0xC2FBD9D1, 0x21DA9A9B, 0xB0638179, 0xCC899961, 0x846EE454, 0x8034229C])
  {
    hide StateIs, WordIs, KIs;
    Rounds16();
    ConstantsFrom16();
    Words16();
    FourRounds(16, [0xB0FA238E, 0xC0645FDE, 0xD932EB16, 0x87912990, 0x07590DCD, 0x0B92F20C, 0x745A48DE, 0x1E578218],
               (0xE49B69C1, 0xEFBE4786, 0x0FC19DC6, 0x240CA1CC), (0x61626380, 0x000F0000, 0x7DA86405, 0x600003C6),
               [0xE1F20C33, 0xFE777BBF, 0xC2FBD9D1, 0x21DA9A9B, 0xB0638179, 0xCC899961, 0x846EE454, 0x8034229C]);
  }

  lemma Rounds24()
    ensures StateIs(24,
              [0xC5D53D8D, 0xA7A3623F, 0xC2606D6D, 0x9DC68B63, 0xAA47C347, 0x49F5114A, 0xE1257970, 0x8ADA8930])
  {
    hide StateIs, WordIs, KIs;
    Rounds20();
    ConstantsFrom16();
    Words16();
    FourRounds(20, [0xE1F20C33, 0xFE777BBF, 0xC2FBD9D1, 0x21DA9A9B, 0xB0638179, 0xCC899961, 0x846EE454, 0x8034229C],
               (0x2DE92C6F, 0x4A7484AA, 0x5CB0A9DC, 0x76F988DA), (0x3E9D7B78, 0x0183FC00, 0x12DCBFDB, 0xE2E2C38E),
               [0xC5D53D8D, 0xA7A3623F, 0xC2606D6D, 0x9DC68B63, 0xAA47C347, 0x49F5114A, 0xE1257970, 0x8ADA8930]);
  }

  lemma Rounds28()
    ensures StateIs(28,
              [0x77D37528, 0xB62EC4BC, 0xCDE8037D, 0x1C2C2838, 0xEDFFBFF8, 0xC74C6516, 0x14383D8E, 0x2823EF91])
  {
    hide StateIs, WordIs, KIs;
    Rounds24();
    ConstantsFrom24();
    Words24();
    FourRounds(24, [0xC5D53D8D, 0xA7A3623F, 0xC2606D6D, 0x9DC68B63, 0xAA47C347, 0x49F5114A, 0xE1257970, 0x8ADA8930],
               (0x983E5152, 0xA831C66D, 0xB00327C8, 0xBF597FC7), (0xC8215C1A, 0xB73679A2, 0xE5BC3909, 0x32663C5B),
               [0x77D37528, 0xB62EC4BC, 0xCDE8037D, 0x1C2C2838, 0xEDFFBFF8, 0xC74C6516, 0x14383D8E, 0x2823EF91]);
  }

  lemma Rounds32()
    ensures StateIs(32,
              [0x73B33BF5, 0xEA992A22, 0xA0060B30, 0x363482C9, 0xBA591112, 0x0109AB3A, 0xADE79437, 0x6112A3B7])
  {
    hide StateIs, WordIs, KIs;
    Rounds28();
    ConstantsFrom24();
    Words24();
    FourRounds(28, [0x77D37528, 0xB62EC4BC, 0xCDE8037D, 0x1C2C2838, 0xEDFFBFF8, 0xC74C6516, 0x14383D8E, 0x2823EF91],
               (0xC6E00BF3, 0xD5A79147, 0x06CA6351, 0x14292967), (0x9D209D67, 0xEC8726CB, 0x702138A4, 0xD3B7973B),
               [0x73B33BF5, 0xEA992A22, 0xA0060B30, 0x363482C9, 0xBA591112, 0x0109AB3A, 0xADE79437, 0x6112A3B7]);
  }

  lemma Rounds36()
    ensures StateIs(36,
              [0x65A0CFE4, 0xA9A7738C, 0xFE604DF5, 0x98E12507, 0xF4B002D6, 0x085F3833, 0x59249DD3, 0x9CD9F5F6])
  {
    hide StateIs, WordIs, KIs;
    Rounds32();
    ConstantsFrom32();
    Words32();
    FourRounds(32, [0x73B33BF5, 0xEA992A22, 0xA0060B30, 0x363482C9, 0xBA591112, 0x0109AB3A, 0xADE79437, 0x6112A3B7],
               (0x27B70A85, 0x2E1B2138, 0x4D2C6DFC, 0x53380D13), (0x93F5997F, 0x3B68BA73, 0xAFF4FFC1, 0xF10A5C62),
               [0x65A0CFE4, 0xA9A7738C, 0xFE604DF5, 0x98E12507, 0xF4B002D6, 0x085F3833, 0x59249DD3, 0x9CD9F5F6]);
  }

  lemma Rounds40()
    ensures StateIs(40,
              [0x79EA687A, 0x6DC57A8A, 0x34DF1604, 0x41A65CB1, 0x1EFBC0A0, 0xF0781BC8, 0xA507A53D, 0x0772A26B])
  {
    hide StateIs, WordIs, KIs;
    Rounds36();
    ConstantsFrom32();
    Words32();
    FourRounds(36, [0x65A0CFE4, 0xA9A7738C, 0xFE604DF5, 0x98E12507, 0xF4B002D6, 0x085F3833, 0x59249DD3, 0x9CD9F5F6],
               (0x650A7354, 0x766A0ABB, 0x81C2C92E, 0x92722C85), (0x0A8B3996, 0x72AF830A, 0x9409E33E, 0x24641522),
               [0x79EA687A, 0x6DC57A8A, 0x34DF1604, 0x41A65CB1, 0x1EFBC0A0, 0xF0781BC8, 0xA507A53D, 0x0772A26B]);
  }

  lemma Rounds44()
    ensures StateIs(44,
              [0x9D4BAF93, 0x17AA0DFE, 0xDF46652F, 0xD6670766, 0xFDA24C2E, 0xDECD4715, 0x838B2711, 0x26352D63])
  {
    hide StateIs, WordIs, KIs;
    Rounds40();
    ConstantsFrom40();
    Words40();
    FourRounds(40, [0x79EA687A, 0x6DC57A8A, 0x34DF1604, 0x41A65CB1, 0x1EFBC0A0, 0xF0781BC8, 0xA507A53D, 0x0772A26B],
               (0xA2BFE8A1, 0xA81A664B, 0xC24B8B70, 0xC76C51A3), (0x9F47BF94, 0xF0A64F5A, 0x3E246A79, 0x27333BA3),
               [0x9D4BAF93, 0x17AA0DFE, 0xDF46652F, 0xD6670766, 0xFDA24C2E, 0xDECD4715, 0x838B2711, 0x26352D63]);
  }

  lemma Rounds48()
    ensures StateIs(48,
              [0x4172328D, 0xA14C14B0, 0x72AB4B91, 0x26628815, 0xFECF0BC6, 0xD57B94A9, 0xB7755DA1, 0xA80F11F0])
  {
    hide StateIs, WordIs, KIs;
    Rounds44();
    ConstantsFrom40();
    Words40();
    FourRounds(44, [0x9D4BAF93, 0x17AA0DFE, 0xDF46652F, 0xD6670766, 0xFDA24C2E, 0xDECD4715, 0x838B2711, 0x26352D63],
               (0xD192E819, 0xD6990624, 0xF40E3585, 0x106AA070), (0x0C4763F2, 0x840ABF27, 0x7A290D5D, 0x065C43DA),
               [0x4172328D, 0xA14C14B0, 0x72AB4B91, 0x26628815, 0xFECF0BC6, 0xD57B94A9, 0xB7755DA1, 0xA80F11F0]);
  }

  lemma Rounds52()
    ensures StateIs(52,
              [0x886E7A22, 0x7A0508A1, 0xF11BFAA8, 0x05757CEB, 0x49231C1E, 0x52F1CCF7, 0x6E5C390C, 0xBD714038])
  {
    hide StateIs, WordIs, KIs;
    Rounds48();
    ConstantsFrom48();
    Words48();
    FourRounds(48, [0x4172328D, 0xA14C14B0, 0x72AB4B91, 0x26628815, 0xFECF0BC6, 0xD57B94A9, 0xB7755DA1, 0xA80F11F0],
               (0x19A4C116, 0x1E376C08, 0x2748774C, 0x34B0BCB5), (0xFB3E89CB, 0xCC7617DB, 0xB9E66C34, 0xA9993667),
               [0x886E7A22, 0x7A0508A1, 0xF11BFAA8, 0x05757CEB, 0x49231C1E, 0x52F1CCF7, 0x6E5C390C, 0xBD714038]);
  }

  lemma Rounds56()
    ensures StateIs(56,
              [0x38CC9913, 0x3EC45CDB, 0xF5702FDB, 0x101FD28F, 0x54CB266B, 0xE50E1B4F, 0x9F4787C3, 0x529E7D00])
  {
    hide StateIs, WordIs, KIs;
    Rounds52();
    ConstantsFrom48();
    Words48();
    FourRounds(52, [0x886E7A22, 0x7A0508A1, 0xF11BFAA8, 0x05757CEB, 0x49231C1E, 0x52F1CCF7, 0x6E5C390C, 0xBD714038],
               (0x391C0CB3, 0x4ED8AA4A, 0x5B9CCA4F, 0x682E6FF3), (0x84BADEDD, 0xC21462BC, 0x1487472C, 0xB20F7A99),
               [0x38CC9913, 0x3EC45CDB, 0xF5702FDB, 0x101FD28F, 0x54CB266B, 0xE50E1B4F, 0x9F4787C3, 0x529E7D00]);
  }

  lemma Rounds60()
    ensures StateIs(60,
              [0xB6AE8FFF, 0xFFB70472, 0xC062D46F, 0xFCD1887B, 0xB21BAD3D, 0x6D83BFC6, 0x7E44008E, 0x9B5E906C])
  {
    hide StateIs, WordIs, KIs;
    Rounds56();
    ConstantsFrom56();
    Words56();
    FourRounds(56, [0x38CC9913, 0x3EC45CDB, 0xF5702FDB, 0x101FD28F, 0x54CB266B, 0xE50E1B4F, 0x9F4787C3, 0x529E7D00],
               (0x748F82EE, 0x78A5636F, 0x84C87814, 0x8CC70208), (0xEF57B9CD, 0xEBE6B238, 0x9FE3095E, 0x78BC8D4B),
               [0xB6AE8FFF, 0xFFB70472, 0xC062D46F, 0xFCD1887B, 0xB21BAD3D, 0x6D83BFC6, 0x7E44008E, 0x9B5E906C]);
  }

  lemma Rounds64()
    ensures StateIs(64,
              [0x506E3058, 0xD39A2165, 0x04D24D6C, 0xB85E2CE9, 0x5EF50F24, 0xFB121210, 0x948D25B6, 0x961F4894])
  {
    hide StateIs, WordIs, KIs;
    Rounds60();
    ConstantsFrom56();
    Words56();
    FourRounds(60, [0xB6AE8FFF, 0xFFB70472, 0xC062D46F, 0xFCD1887B, 0xB21BAD3D, 0x6D83BFC6, 0x7E44008E, 0x9B5E906C],
               (0x90BEFFFA, 0xA4506CEB, 0xBEF9A3F7, 0xC67178F2), (0xA43FCF15, 0x668B2FF8, 0xEEABA2CC, 0x12B1EDEB),
               [0x506E3058, 0xD39A2165, 0x04D24D6C, 0xB85E2CE9, 0x5EF50F24, 0xFB121210, 0x948D25B6, 0x961F4894]);
  }

  lemma Start()
    ensures StateIs(0, [0x6A09E667, 0xBB67AE85, 0x3C6EF372, 0xA54FF53A, 0x510E527F, 0x9B05688C, 0x1F83D9AB, 0x5BE0CD19])
  {
    PaddedAbc();
  }

  lemma HashOfAbc()
    ensures |BLOCK_ABC| == BLOCK
    ensures Compress(INIT, BLOCK_ABC) ==
            [0xBA7816BF, 0x8F01CFEA, 0x414140DE, 0x5DAE2223, 0xB00361A3, 0x96177A9C, 0xB410FF61, 0xF20015AD]
  {
    hide Rounds;
    PaddedAbc();
    Rounds64();
    Final();
  }

  lemma Final()
    ensures Plus(0x6A09E667, 0x506E3058) == 0xBA7816BF
         && Plus(0xBB67AE85, 0xD39A2165) == 0x8F01CFEA
         && Plus(0x3C6EF372, 0x04D24D6C) == 0x414140DE
         && Plus(0xA54FF53A, 0xB85E2CE9) == 0x5DAE2223
         && Plus(0x510E527F, 0x5EF50F24) == 0xB00361A3
         && Plus(0x9B05688C, 0xFB121210) == 0x96177A9C
         && Plus(0x1F83D9AB, 0x948D25B6) == 0xB410FF61
         && Plus(0x5BE0CD19, 0x961F4894) == 0xF20015AD
  {
  }

  lemma BytesOfWords()
    ensures WordBytes(0xBA7816BF) == [0xBA, 0x78, 0x16, 0xBF]
    ensures WordBytes(0x8F01CFEA) == [0x8F, 0x01, 0xCF, 0xEA]
    ensures WordBytes(0x414140DE) == [0x41, 0x41, 0x40, 0xDE]
    ensures WordBytes(0x5DAE2223) == [0x5D, 0xAE, 0x22, 0x23]
    ensures WordBytes(0xB00361A3) == [0xB0, 0x03, 0x61, 0xA3]
    ensures WordBytes(0x96177A9C) == [0x96, 0x17, 0x7A, 0x9C]
    ensures WordBytes(0xB410FF61) == [0xB4, 0x10, 0xFF, 0x61]
    ensures WordBytes(0xF20015AD) == [0xF2, 0x00, 0x15, 0xAD]
  {
  }

  lemma FrontWord(w: word, h: seq<word>)
    ensures HashBytes([w] + h) == WordBytes(w) + HashBytes(h)
  {
    assert ([w] + h)[1..] == h;
  }

  /** The bytes of four words, and of more after them. */
  lemma FourWords(a: word, b: word, c: word, d: word, h: seq<word>)
    ensures HashBytes([a, b, c, d] + h)
         == WordBytes(a) + (WordBytes(b) + (WordBytes(c) + (WordBytes(d) + HashBytes(h))))
  {
    hide WordBytes, HashBytes;
    FrontWord(d, h);
    FrontWord(c, [d] + h);
    FrontWord(b, [c] + ([d] + h));
    FrontWord(a, [b] + ([c] + ([d] + h)));
    assert [a, b, c, d] + h == [a] + ([b] + ([c] + ([d] + h)));
  }

  lemma EightWords(a: word, b: word, c: word, d: word, e: word, f: word, g: word, h: word)
    ensures HashBytes([a, b, c, d, e, f, g, h])
         == WordBytes(a) + (WordBytes(b) + (WordBytes(c) + (WordBytes(d) + (WordBytes(e) + (WordBytes(f) + (WordBytes(g)
            + WordBytes(h)))))))
  {
    hide WordBytes, HashBytes;
    FourWords(a, b, c, d, [e, f, g, h]);
    FourWords(e, f, g, h, []);
    NoBytes();
    assert [a, b, c, d, e, f, g, h] == [a, b, c, d] + [e, f, g, h] && [e, f, g, h] + [] == [e, f, g, h];
    assert WordBytes(h) + [] == WordBytes(h);
  }

  lemma NoBytes()
    ensures HashBytes([]) == []
  {
  }

  /** The digest of "abc". */
  lemma DigestOfAbc()
    ensures Sha256(ABC) ==
            [0xBA, 0x78, 0x16, 0xBF]
            + ([0x8F, 0x01, 0xCF, 0xEA]
            + ([0x41, 0x41, 0x40, 0xDE]
            + ([0x5D, 0xAE, 0x22, 0x23]
            + ([0xB0, 0x03, 0x61, 0xA3]
            + ([0x96, 0x17, 0x7A, 0x9C]
            + ([0xB4, 0x10, 0xFF, 0x61]
            + ([0xF2, 0x00, 0x15, 0xAD])))))))
  {
    hide Compress, WordBytes, HashBytes;
    PaddedAbc();
    HashOfAbc();
    OneBlock(INIT, BLOCK_ABC);
    BytesOfWords();
    EightWords(0xBA7816BF, 0x8F01CFEA, 0x414140DE, 0x5DAE2223, 0xB00361A3, 0x96177A9C, 0xB410FF61, 0xF20015AD);
  }
}
