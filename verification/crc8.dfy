/** The serial link's 8-bit checksums: the profile table, the bit-by-bit register the parser runs,
    and the same register as a function, one byte at a time. */
module Crc8 {
  type Byte = bv8

  datatype Profile = Profile(
    name: string, poly: Byte, init: Byte, xorOut: Byte, reflectIn: bool, reflectOut: bool)

  const PROFILES: seq<Profile> := [
    Profile("crc8", 0x07, 0x00, 0x00, false, false),
    Profile("crc8_itu", 0x07, 0x00, 0x55, false, false),
    Profile("maxim", 0x31, 0x00, 0x00, true, true),
    Profile("rohc", 0x07, 0xFF, 0x00, true, true)]

  function Reflect8(value: Byte): Byte {
    var v := ((value & 0xF0) >> 4) | ((value & 0x0F) << 4);
    var w := ((v & 0xCC) >> 2) | ((v & 0x33) << 2);
    ((w & 0xAA) >> 1) | ((w & 0x55) << 1)
  }

  /** One shift of the register: multiply by x and reduce by x^8 + poly. */
  function Shift(poly: Byte, crc: Byte): Byte {
    if crc & 0x80 != 0 then (crc << 1) ^ poly else crc << 1
  }

  function Shifts(poly: Byte, crc: Byte, n: nat): Byte {
    if n == 0 then crc else Shift(poly, Shifts(poly, crc, n - 1))
  }

  function Ordered(reflect: bool, value: Byte): Byte {
    if reflect then Reflect8(value) else value
  }

  function Register(p: Profile, data: seq<Byte>): Byte {
    if data == [] then p.init
    else
      var last := |data| - 1;
      Shifts(p.poly, Register(p, data[..last]) ^ Ordered(p.reflectIn, data[last]), 8)
  }

  function Crc(p: Profile, data: seq<Byte>): Byte {
    Ordered(p.reflectOut, Register(p, data)) ^ p.xorOut
  }

  lemma NextShift(poly: Byte, crc: Byte, n: nat)
    ensures Shifts(poly, crc, 0) == crc && Shifts(poly, crc, n + 1) == Shift(poly, Shifts(poly, crc, n))
  {
  }

  /** The inner loop: eight shifts of the register. */
  method ShiftByte(poly: Byte, register: Byte) returns (crc: Byte)
    ensures crc == Shifts(poly, register, 8)
  {
    hide Shifts;
    crc := register;
    NextShift(poly, register, 0);
    for bit := 0 to 8
      invariant crc == Shifts(poly, register, bit)
    {
      NextShift(poly, register, bit);
      if crc & 0x80 != 0 {
        crc := (crc << 1) ^ poly;
      } else {
        crc := crc << 1;
      }
    }
  }

  /** The checksum loop of the parser, proved against Crc; Crc8Algebra says what Crc means. */
  method ComputeCrc8(data: seq<Byte>, profile: Profile) returns (checksum: Byte)
    ensures checksum == Crc(profile, data)
  {
    hide Reflect8, Shifts;
    var crc := profile.init;
    for index := 0 to |data|
      invariant crc == Register(profile, data[..index])
    {
      var value := data[index];
      if profile.reflectIn {
        value := Reflect8(value);
      }
      crc := ShiftByte(profile.poly, crc ^ value);
      assert data[..index + 1][..index] == data[..index];
    }
    assert data[..|data|] == data;
    if profile.reflectOut {
      crc := Reflect8(crc);
    }
    checksum := crc ^ profile.xorOut;
  }

  // ---- A few checksums

  lemma CrcOfOneByte(p: Profile, b: Byte)
    ensures Register(p, [b]) == Shifts(p.poly, p.init ^ Ordered(p.reflectIn, b), 8)
  {
    assert [b][..0] == [];
  }

  lemma {:induction false} ShiftsOfZero(poly: Byte, n: nat)
    ensures Shifts(poly, 0, n) == 0
  {
    if n > 0 {
      ShiftsOfZero(poly, n - 1);
    }
  }

  lemma Crc8OfOne()
    ensures Crc(PROFILES[0], [1]) == 0x07
  {
    CrcOfOneByte(PROFILES[0], 1);
    assert Shifts(0x07, 1, 2) == 0x04;
    assert Shifts(0x07, 1, 4) == 0x10;
    assert Shifts(0x07, 1, 6) == 0x40;
    assert Shifts(0x07, 1, 8) == 0x07;
  }

  lemma MaximOfOne()
    ensures Crc(PROFILES[2], [1]) == 0x5E
  {
    CrcOfOneByte(PROFILES[2], 1);
    assert Reflect8(1) == 0x80;
    assert Shifts(0x31, 0x80, 2) == 0x62;
    assert Shifts(0x31, 0x80, 4) == 0xB9;
    assert Shifts(0x31, 0x80, 6) == 0x86;
    assert Shifts(0x31, 0x80, 8) == 0x7A;
    assert Reflect8(0x7A) == 0x5E;
  }

  lemma ChecksumsOfC4()
    ensures Crc(PROFILES[0], [0xC4]) == 0x52 && Crc(PROFILES[1], [0xC4]) == 0x07
  {
    CrcOfOneByte(PROFILES[0], 0xC4);
    CrcOfOneByte(PROFILES[1], 0xC4);
    assert Shifts(0x07, 0xC4, 2) == 0x19;
    assert Shifts(0x07, 0xC4, 4) == 0x64;
    assert Shifts(0x07, 0xC4, 6) == 0x97;
    assert Shifts(0x07, 0xC4, 8) == 0x52;
  }
}
