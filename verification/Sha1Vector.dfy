/**
 The test vector that dyninstT/common/sha1.C quotes (lines 92-93): the digest of "abc",
 from the 80 words of its schedule and the value of the first register after each round.
 */
module Sha1Vector {
  import opened Basics
  import opened Sha1Spec
  import opened Sha1Laws

  function Abc(): seq<Byte> { [0x61, 0x62, 0x63] }

  // The schedule of the one block.
  function Word80(t: nat): Word
    requires t < 80
  {
    if t < 5 then [0x61626380, 0x00000000, 0x00000000, 0x00000000, 0x00000000][t]
    else if t < 10 then [0x00000000, 0x00000000, 0x00000000, 0x00000000, 0x00000000][t - 5]
    else if t < 15 then [0x00000000, 0x00000000, 0x00000000, 0x00000000, 0x00000000][t - 10]
    else if t < 20 then [0x00000018, 0xC2C4C700, 0x00000000, 0x00000030, 0x85898E01][t - 15]
    else if t < 25 then [0x00000000, 0x00000060, 0x0B131C03, 0x00000030, 0x85898EC1][t - 20]
    else if t < 30 then [0x16263806, 0x00000000, 0x00000180, 0x2C4C700C, 0x000000F0][t - 25]
    else if t < 35 then [0x93AFB507, 0x5898E048, 0x8E9A9202, 0x00000600, 0xB131C0F0][t - 30]
    else if t < 40 then [0x16263BC6, 0x4EBED41E, 0x626380A1, 0x16263806, 0x000018C0][t - 35]
    else if t < 45 then [0xD2E138C4, 0x00000F00, 0x3AFB5079, 0x898E04E5, 0xE2BA3C2B][t - 40]
    else if t < 50 then [0x000060C0, 0x053A37CD, 0x74458547, 0xDA9415ED, 0x26380A16][t - 45]
    else if t < 55 then [0x626383A1, 0x4EBF54DE, 0x3835B44B, 0x0000F600, 0x1E84C7A3][t - 50]
    else if t < 60 then [0x98E04D98, 0x651D16A0, 0x62658CA1, 0x458544D6, 0x44584CB7][t - 55]
    else if t < 65 then [0x7BA06619, 0x6380AEA2, 0x0AE55269, 0x627B49A1, 0x7CD45C9D][t - 60]
    else if t < 70 then [0x000F0000, 0xFB50753A, 0xEC6765E8, 0xBA3C2BE2, 0x0060C000][t - 65]
    else if t < 75 then [0x3A37CD05, 0x458546F4, 0xB8599DD6, 0x380A1A26, 0x01E02203][t - 70]
    else [0xE7CC3456, 0xE6E60B69, 0x00F60A00, 0x5795EF4F, 0x822E0879][t - 75]
  }

  // The first register before round t - 4; the other four are earlier values of it, three of them rotated.
  function Chain(t: nat): Word
    requires t < 85
  {
    if t < 5 then [0x0F4B87C3, 0x40C951D8, 0x62EB73FA, 0xEFCDAB89, 0x67452301][t]
    else if t < 10 then [0x0116FC33, 0x8990536D, 0xA1390F08, 0xCDD8E11B, 0xCFD499DE][t - 5]
    else if t < 15 then [0x3FC7CA40, 0x993E30C1, 0x9E8C07D4, 0x4B6AE328, 0x8351F929][t - 10]
    else if t < 20 then [0xFBDA9E89, 0x63188FE4, 0x4607B664, 0x9128F695, 0x196BEE77][t - 15]
    else if t < 25 then [0x20BDD62F, 0x4E925823, 0x82AA6728, 0xDC64901D, 0xFD9E1D7D][t - 20]
    else if t < 30 then [0x1A37B0CA, 0x33A23BFC, 0x21283486, 0xD541F12D, 0xC7567DC6][t - 25]
    else if t < 35 then [0x48413BA4, 0xBE35FBD5, 0x4AA84D97, 0x8370B52E, 0xC5FBAF5D][t - 30]
    else if t < 40 then [0x1267B407, 0x3B845D33, 0x046FAA0A, 0x2C0EBC11, 0x21796AD4][t - 35]
    else if t < 45 then [0xDCBBB0CB, 0x0F511FD8, 0xDC63973F, 0x4C986405, 0x32DE1CBA][t - 40]
    else if t < 50 then [0xFC87DEDF, 0x970A0D5C, 0x7F193DC5, 0xEE1B1AAF, 0x40F28E09][t - 45]
    else if t < 55 then [0x1C51E1F2, 0xA01B846C, 0xBEAD02CA, 0xBAF39337, 0x120731C5][t - 50]
    else if t < 60 then [0x641DB2CE, 0x3847AD66, 0xE490436D, 0x27E9F1D8, 0x7B71F76D][t - 55]
    else if t < 65 then [0x5E6456AF, 0xC846093F, 0xD262FF50, 0x09D785FD, 0x3F52DE5A][t - 60]
    else if t < 70 then [0xD756C147, 0x548C9CB2, 0xB66C020B, 0x6B61C9E1, 0x19DFA7AC][t - 65]
    else if t < 75 then [0x101655F9, 0x0C3DF2B4, 0x78DD4D2B, 0x497093C0, 0x3F2588C2][t - 70]
    else if t < 80 then [0xC199F8C7, 0x39859DE7, 0xEDB42DE4, 0x11793F6F, 0x5EE76897][t - 75]
    else [0x63F7DAB7, 0xA079B7D9, 0x860D21CC, 0x5738D5E1, 0x42541B35][t - 80]
  }

  predicate ScheduleOk(t: nat) {
    16 <= t < 80 && Word80(t) == Expand(Word80(t - 3), Word80(t - 8), Word80(t - 14), Word80(t - 16))
  }

  predicate RoundOk(t: nat) {
    t < 80 && Chain(t + 5) ==
      Sum(Rol5(Chain(t + 4)), F(t, Chain(t + 3), Rol30(Chain(t + 2)), Rol30(Chain(t + 1))), Rol30(Chain(t)),
          Word80(t), K(t))
  }

  lemma Schedule16()
    ensures forall t | 16 <= t < 24 :: ScheduleOk(t)
  {
    assert ScheduleOk(16);
    assert ScheduleOk(17);
    assert ScheduleOk(18);
    assert ScheduleOk(19);
    assert ScheduleOk(20);
    assert ScheduleOk(21);
    assert ScheduleOk(22);
    assert ScheduleOk(23);
  }

  lemma Schedule24()
    ensures forall t | 24 <= t < 32 :: ScheduleOk(t)
  {
    assert ScheduleOk(24);
    assert ScheduleOk(25);
    assert ScheduleOk(26);
    assert ScheduleOk(27);
    assert ScheduleOk(28);
    assert ScheduleOk(29);
    assert ScheduleOk(30);
    assert ScheduleOk(31);
  }

  lemma Schedule32()
    ensures forall t | 32 <= t < 40 :: ScheduleOk(t)
  {
    assert ScheduleOk(32);
    assert ScheduleOk(33);
    assert ScheduleOk(34);
    assert ScheduleOk(35);
    assert ScheduleOk(36);
    assert ScheduleOk(37);
    assert ScheduleOk(38);
    assert ScheduleOk(39);
  }

  lemma Schedule40()
    ensures forall t | 40 <= t < 48 :: ScheduleOk(t)
  {
    assert ScheduleOk(40);
    assert ScheduleOk(41);
    assert ScheduleOk(42);
    assert ScheduleOk(43);
    assert ScheduleOk(44);
    assert ScheduleOk(45);
    assert ScheduleOk(46);
    assert ScheduleOk(47);
  }

  lemma Schedule48()
    ensures forall t | 48 <= t < 56 :: ScheduleOk(t)
  {
    assert ScheduleOk(48);
    assert ScheduleOk(49);
    assert ScheduleOk(50);
    assert ScheduleOk(51);
    assert ScheduleOk(52);
    assert ScheduleOk(53);
    assert ScheduleOk(54);
    assert ScheduleOk(55);
  }

  lemma Schedule56()
    ensures forall t | 56 <= t < 64 :: ScheduleOk(t)
  {
    assert ScheduleOk(56);
    assert ScheduleOk(57);
    assert ScheduleOk(58);
    assert ScheduleOk(59);
    assert ScheduleOk(60);
    assert ScheduleOk(61);
    assert ScheduleOk(62);
    assert ScheduleOk(63);
  }

  lemma Schedule64()
    ensures forall t | 64 <= t < 72 :: ScheduleOk(t)
  {
    assert ScheduleOk(64);
    assert ScheduleOk(65);
    assert ScheduleOk(66);
    assert ScheduleOk(67);
    assert ScheduleOk(68);
    assert ScheduleOk(69);
    assert ScheduleOk(70);
    assert ScheduleOk(71);
  }

  lemma Schedule72()
    ensures forall t | 72 <= t < 80 :: ScheduleOk(t)
  {
    assert ScheduleOk(72);
    assert ScheduleOk(73);
    assert ScheduleOk(74);
    assert ScheduleOk(75);
    assert ScheduleOk(76);
    assert ScheduleOk(77);
    assert ScheduleOk(78);
    assert ScheduleOk(79);
  }

  lemma ScheduleHolds(t: nat)
    requires 16 <= t < 80
    ensures ScheduleOk(t)
  {
    Schedule16();
    Schedule24();
    Schedule32();
    Schedule40();
    Schedule48();
    Schedule56();
    Schedule64();
    Schedule72();
  }

  lemma Rounds0()
    ensures forall t | 0 <= t < 8 :: RoundOk(t)
  {
    assert RoundOk(0);
    assert RoundOk(1);
    assert RoundOk(2);
    assert RoundOk(3);
    assert RoundOk(4);
    assert RoundOk(5);
    assert RoundOk(6);
    assert RoundOk(7);
  }

  lemma Rounds8()
    ensures forall t | 8 <= t < 16 :: RoundOk(t)
  {
    assert RoundOk(8);
    assert RoundOk(9);
    assert RoundOk(10);
    assert RoundOk(11);
    assert RoundOk(12);
    assert RoundOk(13);
    assert RoundOk(14);
    assert RoundOk(15);
  }

  lemma Rounds16()
    ensures forall t | 16 <= t < 24 :: RoundOk(t)
  {
    assert RoundOk(16);
    assert RoundOk(17);
    assert RoundOk(18);
    assert RoundOk(19);
    assert RoundOk(20);
    assert RoundOk(21);
    assert RoundOk(22);
    assert RoundOk(23);
  }

  lemma Rounds24()
    ensures forall t | 24 <= t < 32 :: RoundOk(t)
  {
    assert RoundOk(24);
    assert RoundOk(25);
    assert RoundOk(26);
    assert RoundOk(27);
    assert RoundOk(28);
    assert RoundOk(29);
    assert RoundOk(30);
    assert RoundOk(31);
  }

  lemma Rounds32()
    ensures forall t | 32 <= t < 40 :: RoundOk(t)
  {
    assert RoundOk(32);
    assert RoundOk(33);
    assert RoundOk(34);
    assert RoundOk(35);
    assert RoundOk(36);
    assert RoundOk(37);
    assert RoundOk(38);
    assert RoundOk(39);
  }

  lemma Rounds40()
    ensures forall t | 40 <= t < 48 :: RoundOk(t)
  {
    assert RoundOk(40);
    assert RoundOk(41);
    assert RoundOk(42);
    assert RoundOk(43);
    assert RoundOk(44);
    assert RoundOk(45);
    assert RoundOk(46);
    assert RoundOk(47);
  }

  lemma Rounds48()
    ensures forall t | 48 <= t < 56 :: RoundOk(t)
  {
    assert RoundOk(48);
    assert RoundOk(49);
    assert RoundOk(50);
    assert RoundOk(51);
    assert RoundOk(52);
    assert RoundOk(53);
    assert RoundOk(54);
    assert RoundOk(55);
  }

  lemma Rounds56()
    ensures forall t | 56 <= t < 64 :: RoundOk(t)
  {
    assert RoundOk(56);
    assert RoundOk(57);
    assert RoundOk(58);
    assert RoundOk(59);
    assert RoundOk(60);
    assert RoundOk(61);
    assert RoundOk(62);
    assert RoundOk(63);
  }

  lemma Rounds64()
    ensures forall t | 64 <= t < 72 :: RoundOk(t)
  {
    assert RoundOk(64);
    assert RoundOk(65);
    assert RoundOk(66);
    assert RoundOk(67);
    assert RoundOk(68);
    assert RoundOk(69);
    assert RoundOk(70);
    assert RoundOk(71);
  }

  lemma Rounds72()
    ensures forall t | 72 <= t < 80 :: RoundOk(t)
  {
    assert RoundOk(72);
    assert RoundOk(73);
    assert RoundOk(74);
    assert RoundOk(75);
    assert RoundOk(76);
    assert RoundOk(77);
    assert RoundOk(78);
    assert RoundOk(79);
  }

  lemma RoundHolds(t: nat)
    requires t < 80
    ensures RoundOk(t)
  {
    Rounds0();
    Rounds8();
    Rounds16();
    Rounds24();
    Rounds32();
    Rounds40();
    Rounds48();
    Rounds56();
    Rounds64();
    Rounds72();
  }

  lemma {:induction false} ScheduleIs(block: seq<Byte>, t: nat)
    requires |block| == 64 && t < 80 && forall s | 0 <= s < 16 :: W(block, s) == Word80(s)
    ensures W(block, t) == Word80(t)
  {
    if t >= 16 {
      ScheduleIs(block, t - 3);
      ScheduleIs(block, t - 8);
      ScheduleIs(block, t - 14);
      ScheduleIs(block, t - 16);
      ScheduleHolds(t);
    }
  }

  function RegsAt(t: nat): Regs
    requires t <= 80
  {
    Regs(Chain(t + 4), Chain(t + 3), Rol30(Chain(t + 2)), Rol30(Chain(t + 1)), Rol30(Chain(t)))
  }

  lemma {:induction false} RoundsAre(ws: seq<Word>, t: nat)
    requires |ws| == 80 && t <= 80 && forall s | 0 <= s < 80 :: ws[s] == Word80(s)
    ensures Rounds(RegsAt(0), ws, t) == RegsAt(t)
  {
    if t > 0 {
      RoundsAre(ws, t - 1);
      RoundHolds(t - 1);
    }
  }

  lemma LengthOctets()
    ensures Octets(0, 24) == [0, 0, 0, 0, 0, 0, 0, 24]
  {
    OctetsAre(0, 24);
    OctetsOfZero();
    OctetsOfLength();
  }

  lemma OctetsOfZero()
    ensures OctetOf(0, 0) == OctetOf(0, 1) == OctetOf(0, 2) == OctetOf(0, 3) == 0
  {
    OctetIs(0, 0, 0);
    OctetIs(0, 1, 0);
    OctetIs(0, 2, 0);
    OctetIs(0, 3, 0);
  }

  lemma OctetsOfLength()
    ensures OctetOf(24, 0) == 24 && OctetOf(24, 1) == OctetOf(24, 2) == OctetOf(24, 3) == 0
  {
    ShiftIs();
    OctetIs(24, 0, 24);
    OctetIs(24, 1, 0);
    OctetIs(24, 2, 0);
    OctetIs(24, 3, 0);
  }

  lemma OctetIs(n: nat, k: nat, v: nat)
    requires v < 256 && n / Shift(k) % 256 == v
    ensures OctetOf(n, k) == v as Byte
  {}

  // The padded message: its bits, the bit after them, and its length, 24.
  lemma AbcBlock()
    ensures |Pad(Abc())| == 64
    ensures Pad(Abc()) == Abc() + [0x80] + Zeros(52) + [0, 0, 0, 0, 0, 0, 0, 24]
  {
    LengthOctets();
    PadOfThree(Abc());
  }

  lemma PadOfThree(m: seq<Byte>)
    requires |m| == 3
    ensures Pad(m) == m + [0x80] + Zeros(52) + Octets(0, 24)
  {}

  lemma AbcByte(k: nat)
    requires k < 64
    ensures |Pad(Abc())| == 64
    ensures Pad(Abc())[k] ==
      if k == 0 then 0x61 else if k == 1 then 0x62 else if k == 2 then 0x63 else if k == 3 then 0x80
      else if k == 63 then 24 else 0
  {
    AbcBlock();
  }

  lemma FirstWords(t: nat)
    requires t < 16
    ensures |Pad(Abc())| == 64 && W(Pad(Abc()), t) == Word80(t)
  {
    AbcByte(4 * t);
    AbcByte(4 * t + 1);
    AbcByte(4 * t + 2);
    AbcByte(4 * t + 3);
    assert W(Pad(Abc()), t) == if t == 0 then 0x61626380 else if t == 15 then 24 else 0;
  }

  lemma AbcRounds()
    ensures |Pad(Abc())| == 64
    ensures Compress(Start(), Pad(Abc())) == Add(RegsAt(0), RegsAt(80))
  {
    AbcBlock();
    var block := Pad(Abc());
    forall s | 0 <= s < 16
      ensures W(block, s) == Word80(s)
    {
      FirstWords(s);
    }
    forall s | 0 <= s < 80
      ensures Words(block)[s] == Word80(s)
    {
      ScheduleIs(block, s);
    }
    assert Start() == RegsAt(0);
    RoundsAre(Words(block), 80);
  }

  lemma AbcRegs()
    ensures Add(RegsAt(0), RegsAt(80)) == Regs(0xA9993E36, 0x4706816A, 0xBA3E2571, 0x7850C26C, 0x9CD0D89D)
  {}

  lemma AbcBytes()
    ensures WordBytes(0xA9993E36) == [0xA9, 0x99, 0x3E, 0x36]
    ensures WordBytes(0x4706816A) == [0x47, 0x06, 0x81, 0x6A]
    ensures WordBytes(0xBA3E2571) == [0xBA, 0x3E, 0x25, 0x71]
    ensures WordBytes(0x7850C26C) == [0x78, 0x50, 0xC2, 0x6C]
    ensures WordBytes(0x9CD0D89D) == [0x9C, 0xD0, 0xD8, 0x9D]
  {}

  /** The digest of "abc". */
  lemma AbcDigest()
    ensures Sha1(Abc()) ==
      [0xA9, 0x99, 0x3E, 0x36] + [0x47, 0x06, 0x81, 0x6A] + [0xBA, 0x3E, 0x25, 0x71]
      + [0x78, 0x50, 0xC2, 0x6C] + [0x9C, 0xD0, 0xD8, 0x9D]
  {
    AbcRounds();
    AbcRegs();
    AbcBytes();
    AbsorbOne(Start(), Pad(Abc()));
  }
}
