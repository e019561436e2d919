/** The check values of the four profiles: the checksum of the nine ASCII digits 1 to 9, by which catalogues of
    8-bit checksums identify an algorithm. */
module Crc8CheckValues {
  import opened Crc8

  const DIGITS: seq<Byte> := [0x31, 0x32, 0x33, 0x34, 0x35, 0x36, 0x37, 0x38, 0x39]

  function FourShifts(poly: Byte, crc: Byte): Byte {
    Shift(poly, Shift(poly, Shift(poly, Shift(poly, crc))))
  }

  lemma EightShifts(poly: Byte, crc: Byte)
    ensures Shifts(poly, crc, 8) == FourShifts(poly, FourShifts(poly, crc))
  {
    hide Shift;
    NextShift(poly, crc, 0);
    NextShift(poly, crc, 1);
    NextShift(poly, crc, 2);
    NextShift(poly, crc, 3);
    NextShift(poly, crc, 4);
    NextShift(poly, crc, 5);
    NextShift(poly, crc, 6);
    NextShift(poly, crc, 7);
    hide Shifts;
  }

  lemma RegisterUnfold(p: Profile, data: seq<Byte>, b: Byte)
    ensures Register(p, data + [b]) == Shifts(p.poly, Register(p, data) ^ Ordered(p.reflectIn, b), 8)
  {
    hide Shifts, Ordered;
    assert (data + [b])[..|data|] == data;
  }

  /** The register after the n-th digit. */
  lemma NextRegister(p: Profile, n: nat, register: Byte, next: Byte)
    requires n < 9 && Register(p, DIGITS[..n]) == register
    requires FourShifts(p.poly, FourShifts(p.poly, register ^ Ordered(p.reflectIn, DIGITS[n]))) == next
    ensures Register(p, DIGITS[..n + 1]) == next
  {
    hide Register, Shifts, FourShifts, Ordered;
    EightShifts(p.poly, register ^ Ordered(p.reflectIn, DIGITS[n]));
    RegisterUnfold(p, DIGITS[..n], DIGITS[n]);
    assert DIGITS[..n + 1] == DIGITS[..n] + [DIGITS[n]];
  }

  lemma Crc8Check()
    ensures Crc(PROFILES[0], DIGITS) == 0xF4
  {
    hide Register;
    var p := PROFILES[0];
    Start(p);
    NextRegister(p, 0, 0x00, 0x97);
    NextRegister(p, 1, 0x97, 0x72);
    NextRegister(p, 2, 0x72, 0xC0);
    NextRegister(p, 3, 0xC0, 0xC2);
    NextRegister(p, 4, 0xC2, 0xCB);
    NextRegister(p, 5, 0xCB, 0xFD);
    NextRegister(p, 6, 0xFD, 0x78);
    NextRegister(p, 7, 0x78, 0xC7);
    NextRegister(p, 8, 0xC7, 0xF4);
    assert DIGITS[..9] == DIGITS;
  }

  lemma Crc8ItuCheck()
    ensures Crc(PROFILES[1], DIGITS) == 0xA1
  {
    hide Register;
    var p := PROFILES[1];
    Start(p);
    NextRegister(p, 0, 0x00, 0x97);
    NextRegister(p, 1, 0x97, 0x72);
    NextRegister(p, 2, 0x72, 0xC0);
    NextRegister(p, 3, 0xC0, 0xC2);
    NextRegister(p, 4, 0xC2, 0xCB);
    NextRegister(p, 5, 0xCB, 0xFD);
    NextRegister(p, 6, 0xFD, 0x78);
    NextRegister(p, 7, 0x78, 0xC7);
    NextRegister(p, 8, 0xC7, 0xF4);
    assert DIGITS[..9] == DIGITS;
  }

  lemma MaximCheck()
    ensures Crc(PROFILES[2], DIGITS) == 0xA1
  {
    hide Register;
    var p := PROFILES[2];
    Start(p);
    NextRegister(p, 0, 0x00, 0x07);
    NextRegister(p, 1, 0x07, 0xD7);
    NextRegister(p, 2, 0xD7, 0xA9);
    NextRegister(p, 3, 0xA9, 0x8F);
    NextRegister(p, 4, 0x8F, 0xD5);
    NextRegister(p, 5, 0xD5, 0x37);
    NextRegister(p, 6, 0x37, 0xEE);
    NextRegister(p, 7, 0xEE, 0xE0);
    NextRegister(p, 8, 0xE0, 0x85);
    assert DIGITS[..9] == DIGITS;
  }

  lemma RohcCheck()
    ensures Crc(PROFILES[3], DIGITS) == 0xD0
  {
    hide Register;
    var p := PROFILES[3];
    Start(p);
    NextRegister(p, 0, 0xFF, 0x5E);
    NextRegister(p, 1, 0x5E, 0x7E);
    NextRegister(p, 2, 0x7E, 0x17);
    NextRegister(p, 3, 0x17, 0xA1);
    NextRegister(p, 4, 0xA1, 0x23);
    NextRegister(p, 5, 0x23, 0xEA);
    NextRegister(p, 6, 0xEA, 0x12);
    NextRegister(p, 7, 0x12, 0x2A);
    NextRegister(p, 8, 0x2A, 0x0B);
    assert DIGITS[..9] == DIGITS;
  }

  lemma Start(p: Profile)
    ensures Register(p, DIGITS[..0]) == p.init
  {
  }

  /** The table holds CRC-8, its ITU variant, the Maxim one-wire CRC and the ROHC CRC of section 5.9.1 of RFC 3095. */
  lemma {:induction false} TableCheckValues()
    ensures PROFILES[0].name == "crc8" && Crc(PROFILES[0], DIGITS) == 0xF4
    ensures PROFILES[1].name == "crc8_itu" && Crc(PROFILES[1], DIGITS) == 0xA1
    ensures PROFILES[2].name == "maxim" && Crc(PROFILES[2], DIGITS) == 0xA1
    ensures PROFILES[3].name == "rohc" && Crc(PROFILES[3], DIGITS) == 0xD0
  {
    Crc8Check();
    Crc8ItuCheck();
    MaximCheck();
    RohcCheck();
    hide Crc;
  }
}
