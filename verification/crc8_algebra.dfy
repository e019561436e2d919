/** What the checksum means: the remainder of the message polynomial over GF(2). */
module Crc8Algebra {
  import opened Crc8
  import opened Gf2

  /** The i-th bit of a byte, most significant bit first. */
  predicate Bit(v: Byte, i: nat)
    requires i < 8
  {
    v & Mask(i) != 0
  }

  function Mask(i: nat): Byte
    requires i < 8
  {
    if i == 0 then 0x80 else if i == 1 then 0x40 else if i == 2 then 0x20 else if i == 3 then 0x10
    else if i == 4 then 0x08 else if i == 5 then 0x04 else if i == 6 then 0x02 else 0x01
  }

  /** A byte as a polynomial of degree below 8. */
  function Bits8(v: Byte): (b: Poly)
    ensures |b| == 8
  {
    seq(8, i requires 0 <= i < 8 => Bit(v, i))
  }

  /** The message bits in the order the profile takes them. */
  function MessageBits(p: Profile, data: seq<Byte>): (m: Poly)
    ensures |m| == 8 * |data|
  {
    if data == [] then []
    else
      var last := |data| - 1;
      MessageBits(p, data[..last]) + Bits8(Ordered(p.reflectIn, data[last]))
  }

  /** The dividend: the message times x^8, with the initial value added to its 8 leading coefficients. */
  function Dividend(p: Profile, data: seq<Byte>): (a: Poly)
    ensures |a| == 8 * |data| + 8
  {
    Xor(MessageBits(p, data) + Zeros(8), Bits8(p.init) + Zeros(8 * |data|))
  }

  // ---- Bytes as polynomials

  lemma BitXor(a: Byte, b: Byte, i: nat)
    requires i < 8
    ensures Bit(a ^ b, i) == (Bit(a, i) != Bit(b, i))
  {
    MaskedXor(a, b, Mask(i));
  }

  lemma MaskedXor(a: Byte, b: Byte, m: Byte)
    requires m & (m - 1) == 0
    ensures (a ^ b) & m != 0 <==> ((a & m != 0) != (b & m != 0))
  {
  }

  lemma Bits8Xor(a: Byte, b: Byte)
    ensures Bits8(a ^ b) == Xor(Bits8(a), Bits8(b))
  {
    forall i | 0 <= i < 8
      ensures Bits8(a ^ b)[i] == Xor(Bits8(a), Bits8(b))[i]
    {
      BitXor(a, b, i);
    }
  }

  lemma BitDouble(v: Byte, i: nat)
    requires i < 8
    ensures Bit(v << 1, i) == (i < 7 && Bit(v, i + 1))
  {
  }

  lemma Bits8Double(v: Byte)
    ensures Bits8(v << 1) == Bits8(v)[1..] + [false]
  {
    forall i | 0 <= i < 8
      ensures Bits8(v << 1)[i] == (Bits8(v)[1..] + [false])[i]
    {
      BitDouble(v, i);
    }
  }

  lemma Bits8Zero()
    ensures Bits8(0) == Zeros(8)
  {
    forall i | 0 <= i < 8
      ensures !Bit(0, i)
    {
    }
  }

  lemma Bits8Shift(poly: Byte, crc: Byte)
    ensures Bits8(Crc8.Shift(poly, crc)) == Gf2.Shift(Bits8(poly), Bits8(crc))
  {
    Bits8Double(crc);
    if crc & 0x80 != 0 {
      Bits8Xor(crc << 1, poly);
    } else {
      Bits8Zero();
      Bits8Xor(crc << 1, 0);
      assert (crc << 1) ^ 0 == crc << 1;
    }
  }

  lemma {:induction false} Bits8Shifts(poly: Byte, crc: Byte, n: nat)
    ensures Bits8(Crc8.Shifts(poly, crc, n)) == Gf2.Shifts(Bits8(poly), Bits8(crc), n)
  {
    if n > 0 {
      Bits8Shifts(poly, crc, n - 1);
      Bits8Shift(poly, Crc8.Shifts(poly, crc, n - 1));
    }
  }

  lemma BitsDetermine(a: Byte, b: Byte)
    requires Bit(a, 0) == Bit(b, 0) && Bit(a, 1) == Bit(b, 1) && Bit(a, 2) == Bit(b, 2) && Bit(a, 3) == Bit(b, 3)
    requires Bit(a, 4) == Bit(b, 4) && Bit(a, 5) == Bit(b, 5) && Bit(a, 6) == Bit(b, 6) && Bit(a, 7) == Bit(b, 7)
    ensures a == b
  {
  }

  lemma Bits8Injective(a: Byte, b: Byte)
    requires Bits8(a) == Bits8(b)
    ensures a == b
  {
    forall i | 0 <= i < 8
      ensures Bit(a, i) == Bit(b, i)
    {
      assert Bits8(a)[i] == Bits8(b)[i];
    }
    BitsDetermine(a, b);
  }

  lemma BitReflect(v: Byte, i: nat)
    requires i < 8
    ensures Bit(Reflect8(v), i) == Bit(v, 7 - i)
  {
  }

  lemma ReflectInvolution(v: Byte)
    ensures Reflect8(Reflect8(v)) == v
  {
  }

  /** Reflect8 reverses the bits of a byte. */
  lemma {:induction false} ReflectReverses(v: Byte)
    ensures forall i :: 0 <= i < 8 ==> Bits8(Reflect8(v))[i] == Bits8(v)[7 - i]
  {
    forall i | 0 <= i < 8
      ensures Bits8(Reflect8(v))[i] == Bits8(v)[7 - i]
    {
      BitReflect(v, i);
    }
  }

  lemma XorSwap(a: Byte, b: Byte, x: Byte)
    ensures a == b ^ x <==> a ^ x == b
  {
  }

  /** The final reflection and complement of a register can be undone. */
  lemma FinishInvertible(p: Profile, register: Byte, checksum: Byte)
    ensures checksum == Ordered(p.reflectOut, register) ^ p.xorOut <==>
            Ordered(p.reflectOut, checksum ^ p.xorOut) == register
  {
    XorSwap(checksum, Ordered(p.reflectOut, register), p.xorOut);
    ReflectInvolution(register);
    ReflectInvolution(checksum ^ p.xorOut);
    hide Reflect8;
  }

  // ---- The register is the remainder of the dividend

  lemma DividendGrows(p: Profile, data: seq<Byte>)
    requires data != []
    ensures var last := |data| - 1;
            Dividend(p, data) == Xor(Dividend(p, data[..last]) + Zeros(8),
                                     Zeros(8 * last) + Bits8(Ordered(p.reflectIn, data[last])) + Zeros(8))
  {
    var last := |data| - 1;
    MergeColumns(MessageBits(p, data[..last]), Bits8(p.init), Bits8(Ordered(p.reflectIn, data[last])));
  }

  lemma MergeColumns(m: Poly, init: Poly, v: Poly)
    requires |init| == |v| == 8
    ensures Xor(m + v + Zeros(8), init + Zeros(|m| + 8)) ==
            Xor(Xor(m + Zeros(8), init + Zeros(|m|)) + Zeros(8), Zeros(|m|) + v + Zeros(8))
  {
    var head := Xor(m + Zeros(8), init + Zeros(|m|));
    assert m + v + Zeros(8) == Xor(m + Zeros(8) + Zeros(8), Zeros(|m|) + v + Zeros(8));
    assert init + Zeros(|m| + 8) == init + Zeros(|m|) + Zeros(8);
    assert head + Zeros(8) == Xor(m + Zeros(8) + Zeros(8), init + Zeros(|m|) + Zeros(8));
  }

  lemma ResidueOfByte(g: Poly, v: Poly, k: nat)
    requires |g| == |v| == 8
    ensures Residue(g, Zeros(k) + v + Zeros(8)) == Gf2.Shifts(g, v, 8)
  {
    ResidueTrailingZeros(g, Zeros(k) + v, 8);
    ResidueLeadingZeros(g, k, v);
    ResidueOfShort(g, v);
    assert Zeros(0) + v == v;
  }

  lemma {:induction false} RegisterIsResidue(p: Profile, data: seq<Byte>)
    ensures Bits8(Register(p, data)) == Residue(Bits8(p.poly), Dividend(p, data))
  {
    var g := Bits8(p.poly);
    if data == [] {
      assert Dividend(p, data) == Bits8(p.init) by {
        assert Xor([] + Zeros(8), Bits8(p.init) + Zeros(0)) == Bits8(p.init);
      }
      ResidueOfShort(g, Bits8(p.init));
      assert Zeros(0) + Bits8(p.init) == Bits8(p.init);
    } else {
      var last := |data| - 1;
      var head := data[..last];
      var v := Ordered(p.reflectIn, data[last]);
      RegisterIsResidue(p, head);
      RegisterStep(p, head, v, Dividend(p, head));
      DividendGrows(p, data);
    }
  }

  lemma RegisterStep(p: Profile, head: seq<Byte>, v: Byte, d: Poly)
    requires Bits8(Register(p, head)) == Residue(Bits8(p.poly), d)
    requires |d| == 8 * |head| + 8
    ensures Bits8(Crc8.Shifts(p.poly, Register(p, head) ^ v, 8)) ==
            Residue(Bits8(p.poly), Xor(d + Zeros(8), Zeros(8 * |head|) + Bits8(v) + Zeros(8)))
  {
    hide *;
    var g, r := Bits8(p.poly), Register(p, head);
    Bits8Shifts(p.poly, r ^ v, 8);
    Bits8Xor(r, v);
    ShiftsLinear(g, Bits8(r), Bits8(v), 8);
    ResidueTrailingZeros(g, d, 8);
    ResidueOfByte(g, Bits8(v), 8 * |head|);
    ResidueLinear(g, d + Zeros(8), Zeros(8 * |head|) + Bits8(v) + Zeros(8));
  }

  /** The parser's checksum, for every profile and every input, is the remainder of the dividend modulo
      x^8 + poly, reflected and complemented as the profile says; no other byte is. */
  lemma {:induction false} CrcIsRemainder(p: Profile, data: seq<Byte>, checksum: Byte)
    ensures checksum == Crc(p, data) <==>
            IsRemainder(Dividend(p, data), Bits8(p.poly),
                        Bits8(Ordered(p.reflectOut, checksum ^ p.xorOut)))
  {
    var r := Ordered(p.reflectOut, checksum ^ p.xorOut);
    RegisterIsResidue(p, data);
    RemainderIsResidue(Dividend(p, data), Bits8(p.poly), Bits8(r));
    FinishInvertible(p, Register(p, data), checksum);
    if Bits8(r) == Bits8(Register(p, data)) {
      Bits8Injective(r, Register(p, data));
    }
  }

  // ---- Burst errors

  /** Two equal-length inputs whose bits, in the profile's order, differ only in a burst of at most 8
      consecutive bits never share a checksum, when the generator has constant term 1. */
  lemma {:induction false} BurstChangesCrc(p: Profile, a: seq<Byte>, b: seq<Byte>)
    requires Bit(p.poly, 7)
    requires BurstApart(MessageBits(p, a), MessageBits(p, b), 8)
    ensures |a| == |b| && Crc(p, a) != Crc(p, b)
  {
    BurstChangesResidue(Bits8(p.poly), MessageBits(p, a), MessageBits(p, b), 8);
    DividendDifference(p, a, b);
    XorSelf(Bits8(Register(p, a)));
    FinishInvertible(p, Register(p, a), Crc(p, b));
    FinishInvertible(p, Register(p, b), Crc(p, b));
  }

  /** Every generator in the table has constant term 1. */
  lemma {:induction false} TableDetectsBursts(index: nat)
    requires index < |PROFILES|
    ensures Bit(PROFILES[index].poly, 7)
  {
    assert PROFILES[index].poly == 0x07 || PROFILES[index].poly == 0x31;
  }

  lemma XorSelf(a: Poly)
    ensures Xor(a, a) == Zeros(|a|)
  {
  }

  lemma DividendDifference(p: Profile, a: seq<Byte>, b: seq<Byte>)
    requires |a| == |b|
    ensures var g := Bits8(p.poly);
            Xor(Bits8(Register(p, a)), Bits8(Register(p, b))) ==
            Gf2.Shifts(g, Xor(Residue(g, MessageBits(p, a)), Residue(g, MessageBits(p, b))), 8)
  {
    var g := Bits8(p.poly);
    var ma, mb := MessageBits(p, a), MessageBits(p, b);
    RegisterIsResidue(p, a);
    RegisterIsResidue(p, b);
    CommonInitCancels(ma, mb, Bits8(p.init));
    hide *;
    ResidueLinear(g, Dividend(p, a), Dividend(p, b));
    ResidueTrailingZeros(g, Xor(ma, mb), 8);
    ResidueLinear(g, ma, mb);
  }

  lemma CommonInitCancels(m: Poly, n: Poly, init: Poly)
    requires |m| == |n| && |init| == 8
    ensures Xor(Xor(m + Zeros(8), init + Zeros(|m|)), Xor(n + Zeros(8), init + Zeros(|n|))) ==
            Xor(m, n) + Zeros(8)
  {
  }
}
