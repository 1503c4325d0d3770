/** The checksummed recovery envelope: framing, the bitwise CRC of section 3.2.9 of
    IEEE 802.3, and exactly which corruptions it is certain to reject. */
module CrcEnvelope {
  import opened Bytes
  import opened CoreTypes

  // ---------------------------------------------------------------- the shift step

  function Mask(c: bv32): bv32 {
    (0 as bv32) - (c & 1)
  }

  function Shift(c: bv32): bv32 {
    (c >> 1) ^ (0xedb8_8320 & Mask(c))
  }

  lemma HalvesXor(a: bv32, b: bv32)
    ensures (a ^ b) >> 1 == (a >> 1) ^ (b >> 1)
  {
  }

  lemma LowBit(c: bv32)
    ensures c & 1 == 0 || c & 1 == 1
    ensures c & 1 == 0 ==> Mask(c) == 0
    ensures c & 1 == 1 ==> Mask(c) == 0xffff_ffff
  {
  }

  lemma LowBitXor(a: bv32, b: bv32)
    ensures (a ^ b) & 1 == (a & 1) ^ (b & 1)
  {
  }

  // The operations on words below are named, so that proofs by induction can treat words as
  // opaque and appeal to the few laws stated here.

  function Xor(a: bv32, b: bv32): bv32 { a ^ b }

  function Double(x: bv32): bv32 { x << 1 }

  function LeftByte(x: bv32): bv32 {
    Double(Double(Double(Double(Double(Double(Double(Double(x))))))))
  }

  function Wide(b: Byte): bv32 { b as bv32 }

  lemma RawAssoc(a: bv32, b: bv32, c: bv32)
    ensures (a ^ b) ^ c == a ^ (b ^ c)
  {
  }

  lemma XorCommutes(a: bv32, b: bv32)
    ensures Xor(a, b) == Xor(b, a)
  {
  }

  lemma XorAssociates(a: bv32, b: bv32, c: bv32)
    ensures Xor(Xor(a, b), c) == Xor(a, Xor(b, c))
  {
    RawAssoc(a, b, c);
  }

  lemma XorPairs(a: bv32, b: bv32, p: bv32, q: bv32)
    ensures Xor(Xor(a, b), Xor(p, q)) == Xor(Xor(a, p), Xor(b, q))
  {
    hide Xor;
    XorAssociates(a, b, Xor(p, q));
    XorAssociates(b, p, q);
    XorCommutes(b, p);
    XorAssociates(p, b, q);
    XorAssociates(a, p, Xor(b, q));
  }

  lemma XorZero(a: bv32)
    ensures Xor(a, 0) == a && Xor(0, a) == a && Xor(a, Wide(0)) == a
  {
  }

  lemma XorEqual(a: bv32, b: bv32)
    ensures Xor(a, b) == 0 <==> a == b
  {
  }

  lemma ByteXor(x: Byte, y: Byte)
    ensures Wide(x ^ y) == Xor(Wide(x), Wide(y))
    ensures x ^ y == 0 <==> x == y
  {
  }

  /** The step is linear over exclusive or. */
  lemma ShiftIsLinear(a: bv32, b: bv32)
    ensures Shift(Xor(a, b)) == Xor(Shift(a), Shift(b))
  {
    HalvesXor(a, b);
    LowBit(a);
    LowBit(b);
    LowBit(a ^ b);
    LowBitXor(a, b);
    var p, q := 0xedb8_8320 & Mask(a), 0xedb8_8320 & Mask(b);
    assert 0xedb8_8320 & Mask(a ^ b) == p ^ q;
    XorPairs(a >> 1, b >> 1, p, q);
  }

  /** And loses nothing: the polynomial's top bit records the bit shifted out. */
  lemma ShiftKeepsNonzero(c: bv32)
    ensures Shift(c) == 0 <==> c == 0
  {
  }

  // ---------------------------------------------------------------- the generator

  /** The bit of a word that stands for the coefficient of x to the power k. */
  function Power(k: nat): bv32
    requires k < 32
    decreases 31 - k
  {
    if k == 31 then 1 else Double(Power(k + 1))
  }

  function Masked(c: bv32, p: bv32): bv32 { c & p }

  predicate Has(c: bv32, p: bv32) {
    Masked(c, p) != 0
  }

  predicate Coefficient(c: bv32, k: nat)
    requires k < 32
  {
    Has(c, Power(k))
  }

  /** The exponents below 32 of the generator of section 3.2.9 of IEEE 802.3. */
  function Generator(): set<nat> {
    {26, 23, 22, 16, 12, 11, 10, 8, 7, 5, 4, 2, 1, 0}
  }

  predicate InGenerator(p: bv32) {
    Has(0xedb8_8320, p)
  }

  predicate OneBit(p: bv32) {
    p != 0 && p & (p - 1) == 0
  }

  function Half(c: bv32): bv32 { c >> 1 }

  lemma XorBit(x: bv32, y: bv32, p: bv32)
    requires OneBit(p)
    ensures Has(Xor(x, y), p) <==> (Has(x, p) <==> !Has(y, p))
  {
    hide OneBit, Masked, Xor;
    OneBitMasks(x, p);
    OneBitMasks(y, p);
    MaskXor(x, y, p);
    XorEqual(Masked(x, p), Masked(y, p));
  }

  lemma OneBitMasks(x: bv32, p: bv32)
    requires OneBit(p)
    ensures p != 0 && (Masked(x, p) == 0 || Masked(x, p) == p)
  {
  }

  lemma MaskXor(x: bv32, y: bv32, p: bv32)
    ensures Masked(Xor(x, y), p) == Xor(Masked(x, p), Masked(y, p))
  {
  }

  lemma HalfBit(c: bv32, p: bv32)
    ensures Has(Half(c), p) <==> Has(c, Double(p))
  {
  }

  lemma ShiftCases(c: bv32)
    ensures Shift(c) == if Has(c, 1) then Xor(Half(c), 0xedb8_8320) else Half(c)
  {
    LowBit(c);
  }

  lemma ShiftMovesBits(c: bv32, p: bv32)
    requires OneBit(p)
    ensures Has(Shift(c), p) <==> (Has(c, Double(p)) <==> !(Has(c, 1) && InGenerator(p)))
  {
    hide Shift, Double, OneBit, Has, Half, Xor;
    ShiftCases(c);
    HalfBit(c, p);
    XorBit(Half(c), 0xedb8_8320, p);
  }

  lemma PowersFrom31()
    ensures Power(31) == 0x0000_0001 && OneBit(0x0000_0001) && !InGenerator(0x0000_0001)
    ensures Power(30) == 0x0000_0002 && OneBit(0x0000_0002) && !InGenerator(0x0000_0002)
    ensures Power(29) == 0x0000_0004 && OneBit(0x0000_0004) && !InGenerator(0x0000_0004)
    ensures Power(28) == 0x0000_0008 && OneBit(0x0000_0008) && !InGenerator(0x0000_0008)
    ensures Power(27) == 0x0000_0010 && OneBit(0x0000_0010) && !InGenerator(0x0000_0010)
    ensures Power(26) == 0x0000_0020 && OneBit(0x0000_0020) && InGenerator(0x0000_0020)
    ensures Power(25) == 0x0000_0040 && OneBit(0x0000_0040) && !InGenerator(0x0000_0040)
    ensures Power(24) == 0x0000_0080 && OneBit(0x0000_0080) && !InGenerator(0x0000_0080)
  {
    assert Power(31) == 0x0000_0001;
    assert Power(30) == 0x0000_0002;
    assert Power(29) == 0x0000_0004;
    assert Power(28) == 0x0000_0008;
    assert Power(27) == 0x0000_0010;
    assert Power(26) == 0x0000_0020;
    assert Power(25) == 0x0000_0040;
    assert Power(24) == 0x0000_0080;
  }

  lemma PowersFrom23()
    requires Power(24) == 0x0000_0080
    ensures Power(23) == 0x0000_0100 && OneBit(0x0000_0100) && InGenerator(0x0000_0100)
    ensures Power(22) == 0x0000_0200 && OneBit(0x0000_0200) && InGenerator(0x0000_0200)
    ensures Power(21) == 0x0000_0400 && OneBit(0x0000_0400) && !InGenerator(0x0000_0400)
    ensures Power(20) == 0x0000_0800 && OneBit(0x0000_0800) && !InGenerator(0x0000_0800)
    ensures Power(19) == 0x0000_1000 && OneBit(0x0000_1000) && !InGenerator(0x0000_1000)
    ensures Power(18) == 0x0000_2000 && OneBit(0x0000_2000) && !InGenerator(0x0000_2000)
    ensures Power(17) == 0x0000_4000 && OneBit(0x0000_4000) && !InGenerator(0x0000_4000)
    ensures Power(16) == 0x0000_8000 && OneBit(0x0000_8000) && InGenerator(0x0000_8000)
  {
    assert Power(23) == 0x0000_0100;
    assert Power(22) == 0x0000_0200;
    assert Power(21) == 0x0000_0400;
    assert Power(20) == 0x0000_0800;
    assert Power(19) == 0x0000_1000;
    assert Power(18) == 0x0000_2000;
    assert Power(17) == 0x0000_4000;
    assert Power(16) == 0x0000_8000;
  }

  lemma PowersFrom15()
    requires Power(16) == 0x0000_8000
    ensures Power(15) == 0x0001_0000 && OneBit(0x0001_0000) && !InGenerator(0x0001_0000)
    ensures Power(14) == 0x0002_0000 && OneBit(0x0002_0000) && !InGenerator(0x0002_0000)
    ensures Power(13) == 0x0004_0000 && OneBit(0x0004_0000) && !InGenerator(0x0004_0000)
    ensures Power(12) == 0x0008_0000 && OneBit(0x0008_0000) && InGenerator(0x0008_0000)
    ensures Power(11) == 0x0010_0000 && OneBit(0x0010_0000) && InGenerator(0x0010_0000)
    ensures Power(10) == 0x0020_0000 && OneBit(0x0020_0000) && InGenerator(0x0020_0000)
    ensures Power(9) == 0x0040_0000 && OneBit(0x0040_0000) && !InGenerator(0x0040_0000)
    ensures Power(8) == 0x0080_0000 && OneBit(0x0080_0000) && InGenerator(0x0080_0000)
  {
    assert Power(15) == 0x0001_0000;
    assert Power(14) == 0x0002_0000;
    assert Power(13) == 0x0004_0000;
    assert Power(12) == 0x0008_0000;
    assert Power(11) == 0x0010_0000;
    assert Power(10) == 0x0020_0000;
    assert Power(9) == 0x0040_0000;
    assert Power(8) == 0x0080_0000;
  }

  lemma PowersFrom7()
    requires Power(8) == 0x0080_0000
    ensures Power(7) == 0x0100_0000 && OneBit(0x0100_0000) && InGenerator(0x0100_0000)
    ensures Power(6) == 0x0200_0000 && OneBit(0x0200_0000) && !InGenerator(0x0200_0000)
    ensures Power(5) == 0x0400_0000 && OneBit(0x0400_0000) && InGenerator(0x0400_0000)
    ensures Power(4) == 0x0800_0000 && OneBit(0x0800_0000) && InGenerator(0x0800_0000)
    ensures Power(3) == 0x1000_0000 && OneBit(0x1000_0000) && !InGenerator(0x1000_0000)
    ensures Power(2) == 0x2000_0000 && OneBit(0x2000_0000) && InGenerator(0x2000_0000)
    ensures Power(1) == 0x4000_0000 && OneBit(0x4000_0000) && InGenerator(0x4000_0000)
    ensures Power(0) == 0x8000_0000 && OneBit(0x8000_0000) && InGenerator(0x8000_0000)
  {
    assert Power(7) == 0x0100_0000;
    assert Power(6) == 0x0200_0000;
    assert Power(5) == 0x0400_0000;
    assert Power(4) == 0x0800_0000;
    assert Power(3) == 0x1000_0000;
    assert Power(2) == 0x2000_0000;
    assert Power(1) == 0x4000_0000;
    assert Power(0) == 0x8000_0000;
  }

  lemma PowerBits(k: nat)
    requires k < 32
    ensures OneBit(Power(k)) && (InGenerator(Power(k)) <==> k in Generator())
  {
    hide Power, OneBit;
    PowersFrom31();
    PowersFrom23();
    PowersFrom15();
    PowersFrom7();
  }

  /** The step is multiplication by x modulo the generator: every coefficient moves up by one,
      and if that of the power 31 was set, the generator is subtracted. */
  lemma ShiftIsTimesX(c: bv32, k: nat)
    requires k < 32
    ensures Coefficient(Shift(c), k) <==>
              ((k > 0 && Coefficient(c, k - 1)) <==> !(Coefficient(c, 31) && k in Generator()))
  {
    hide Shift, OneBit, Generator, InGenerator, Power, Double, Has;
    PowerBits(k);
    PowerSteps(k);
    PowersFrom31();
    ShiftMovesBits(c, Power(k));
    if k == 0 { NoBit(c); }
  }

  lemma NoBit(c: bv32)
    ensures !Has(c, 0)
  {
  }

  lemma PowerSteps(k: nat)
    requires k < 32
    ensures if k > 0 then Power(k - 1) == Double(Power(k)) else Double(Power(k)) == 0
  {
    hide Double;
    if k == 0 { TopPower(); }
  }

  lemma TopPower()
    ensures Double(Power(0)) == 0
  {
    hide OneBit;
    PowersFrom31();
    PowersFrom23();
    PowersFrom15();
    PowersFrom7();
  }

  function Shifted(c: bv32, n: nat): bv32
    decreases n
  {
    if n == 0 then c else Shifted(Shift(c), n - 1)
  }

  lemma {:induction false} ShiftedIsLinear(a: bv32, b: bv32, n: nat)
    ensures Shifted(Xor(a, b), n) == Xor(Shifted(a, n), Shifted(b, n))
    decreases n
  {
    hide Xor, Shift;
    if n > 0 {
      ShiftIsLinear(a, b);
      ShiftedIsLinear(Shift(a), Shift(b), n - 1);
    }
  }

  lemma {:induction false} ShiftedKeepsNonzero(c: bv32, n: nat)
    ensures Shifted(c, n) == 0 <==> c == 0
    decreases n
  {
    hide Shift;
    if n > 0 {
      ShiftKeepsNonzero(c);
      ShiftedKeepsNonzero(Shift(c), n - 1);
    }
  }

  lemma {:induction false} ShiftedAdds(c: bv32, m: nat, n: nat)
    ensures Shifted(Shifted(c, m), n) == Shifted(c, m + n)
    decreases m
  {
    hide Shift;
    if m > 0 { ShiftedAdds(Shift(c), m - 1, n); }
  }

  lemma DoubleHalves(x: bv32, limit: bv32)
    requires x <= limit <= 0x7fff_ffff
    ensures Shift(Double(x)) == x && Double(x) <= Double(limit)
  {
    DoubleIsEven(x);
    DoubleFits(x);
    DoubleGrows(x, limit);
    LowBit(Double(x));
  }

  lemma DoubleIsEven(x: bv32)
    ensures Double(x) & 1 == 0
  {
  }

  lemma DoubleFits(x: bv32)
    requires x <= 0x7fff_ffff
    ensures Double(x) >> 1 == x
  {
  }

  lemma DoubleGrows(x: bv32, limit: bv32)
    requires x <= limit <= 0x7fff_ffff
    ensures Double(x) <= Double(limit)
  {
  }

  lemma Limits()
    ensures Double(0xff_ffff) == 0x1ff_fffe && Double(0x1ff_fffe) == 0x3ff_fffc
    ensures Double(0x3ff_fffc) == 0x7ff_fff8 && Double(0x7ff_fff8) == 0xfff_fff0
    ensures Double(0xfff_fff0) == 0x1fff_ffe0 && Double(0x1fff_ffe0) == 0x3fff_ffc0
    ensures Double(0x3fff_ffc0) == 0x7fff_ff80
  {
  }

  lemma ShiftedStep(c: bv32, half: bv32, n: nat)
    requires n > 0 && Shift(c) == half
    ensures Shifted(c, n) == Shifted(half, n - 1)
  {
    hide Shift;
  }

  /** Eight steps undo a shift by one byte that lost nothing. */
  lemma EightUndoes(x: bv32)
    requires x <= 0xff_ffff
    ensures Shifted(LeftByte(x), 8) == x
  {
    hide Shifted, Shift, Double;
    var a := Double(x);
    var b := Double(a);
    var c := Double(b);
    var d := Double(c);
    var e := Double(d);
    var f := Double(e);
    var g := Double(f);
    Limits();
    DoubleHalves(x, 0xff_ffff);
    DoubleHalves(a, 0x1ff_fffe);
    DoubleHalves(b, 0x3ff_fffc);
    DoubleHalves(c, 0x7ff_fff8);
    DoubleHalves(d, 0xfff_fff0);
    DoubleHalves(e, 0x1fff_ffe0);
    DoubleHalves(f, 0x3fff_ffc0);
    DoubleHalves(g, 0x7fff_ff80);
    ShiftedStep(Double(g), g, 8);
    ShiftedStep(g, f, 7);
    ShiftedStep(f, e, 6);
    ShiftedStep(e, d, 5);
    ShiftedStep(d, c, 4);
    ShiftedStep(c, b, 3);
    ShiftedStep(b, a, 2);
    ShiftedStep(a, x, 1);
    ShiftedNone(x);
  }

  lemma ShiftedNone(c: bv32)
    ensures Shifted(c, 0) == c
  {
  }

  // ---------------------------------------------------------------- the checksum

  function CrcStep(crc: bv32, b: Byte): bv32 {
    Shifted(Xor(crc, Wide(b)), 8)
  }

  function CrcFrom(crc: bv32, bytes: seq<Byte>): bv32
    decreases |bytes|
  {
    if bytes == [] then crc else CrcFrom(CrcStep(crc, bytes[0]), bytes[1..])
  }

  function Complement(c: bv32): bv32 { !c }

  function Crc32(bytes: seq<Byte>): bv32 {
    Complement(CrcFrom(0xffff_ffff, bytes))
  }

  lemma {:induction false} CrcAppends(crc: bv32, s: seq<Byte>, t: seq<Byte>)
    ensures CrcFrom(crc, s + t) == CrcFrom(CrcFrom(crc, s), t)
    decreases |s|
  {
    hide CrcStep;
    if s == [] {
      assert s + t == t;
    } else {
      assert (s + t)[0] == s[0] && (s + t)[1..] == s[1..] + t;
      CrcAppends(CrcStep(crc, s[0]), s[1..], t);
    }
  }

  /** The nested loops: every byte is mixed in and followed by eight conditional shifts. */
  method Crc32Ieee(bytes: seq<Byte>) returns (checksum: bv32)
    ensures checksum == Crc32(bytes)
  {
    hide Shift, Xor, Wide, Complement;
    var crc: bv32 := 0xffff_ffff;
    for i := 0 to |bytes|
      invariant CrcFrom(crc, bytes[i..]) == CrcFrom(0xffff_ffff, bytes)
    {
      ghost var before := crc;
      crc := Xor(crc, Wide(bytes[i]));
      ghost var mixed := crc;
      for k := 0 to 8
        invariant Shifted(crc, 8 - k) == Shifted(mixed, 8)
      {
        crc := Shift(crc);
      }
      assert crc == CrcStep(before, bytes[i]);
      assert bytes[i..][1..] == bytes[i + 1..];
    }
    checksum := Complement(crc);
  }

  // ---------------------------------------------------------------- a known checksum

  lemma ShiftedEight(c: bv32)
    ensures Shifted(c, 8) == Shift(Shift(Shift(Shift(Shift(Shift(Shift(Shift(c))))))))
  {
    hide Shift;
  }

  lemma CrcPrepends(crc: bv32, bytes: seq<Byte>, next: bv32, rest: seq<Byte>)
    requires bytes != [] && bytes[1..] == rest && CrcStep(crc, bytes[0]) == next
    ensures CrcFrom(crc, bytes) == CrcFrom(next, rest)
  {
    hide CrcStep;
  }

  lemma CheckSteps0()
    ensures CrcStep(0xffff_ffff, 49) == 0x7c23_1048
    ensures CrcStep(0x7c23_1048, 50) == 0xb0ac_bb32
    ensures CrcStep(0xb0ac_bb32, 51) == 0x77b7_9c2d
  {
    ShiftedEight(0xffff_ffce);
    ShiftedEight(0x7c23_107a);
    ShiftedEight(0xb0ac_bb01);
  }

  lemma CheckSteps3()
    ensures CrcStep(0x77b7_9c2d, 52) == 0x641c_1f5c
    ensures CrcStep(0x641c_1f5c, 53) == 0x340a_c5e3
    ensures CrcStep(0x340a_c5e3, 54) == 0xf68d_2c9e
  {
    ShiftedEight(0x77b7_9c19);
    ShiftedEight(0x641c_1f69);
    ShiftedEight(0x340a_c5d5);
  }

  lemma CheckSteps6()
    ensures CrcStep(0xf68d_2c9e, 55) == 0xaffc_9660
    ensures CrcStep(0xaffc_9660, 56) == 0x651f_2550
    ensures CrcStep(0x651f_2550, 57) == 0x340b_c6d9
  {
    ShiftedEight(0xf68d_2ca9);
    ShiftedEight(0xaffc_9658);
    ShiftedEight(0x651f_2569);
  }

  /** Start value, bit order and complement: the checksum of the nine digits is the published
      check value. */
  lemma CheckValue()
    ensures Crc32([49, 50, 51, 52, 53, 54, 55, 56, 57]) == 0xcbf4_3926
  {
    hide CrcStep, Complement, CrcFrom;
    CheckSteps0();
    CheckSteps3();
    CheckSteps6();
    CrcPrepends(0xffff_ffff, [49, 50, 51, 52, 53, 54, 55, 56, 57], 0x7c23_1048, [50, 51, 52, 53, 54, 55, 56, 57]);
    CrcPrepends(0x7c23_1048, [50, 51, 52, 53, 54, 55, 56, 57], 0xb0ac_bb32, [51, 52, 53, 54, 55, 56, 57]);
    CrcPrepends(0xb0ac_bb32, [51, 52, 53, 54, 55, 56, 57], 0x77b7_9c2d, [52, 53, 54, 55, 56, 57]);
    CrcPrepends(0x77b7_9c2d, [52, 53, 54, 55, 56, 57], 0x641c_1f5c, [53, 54, 55, 56, 57]);
    CrcPrepends(0x641c_1f5c, [53, 54, 55, 56, 57], 0x340a_c5e3, [54, 55, 56, 57]);
    CrcPrepends(0x340a_c5e3, [54, 55, 56, 57], 0xf68d_2c9e, [55, 56, 57]);
    CrcPrepends(0xf68d_2c9e, [55, 56, 57], 0xaffc_9660, [56, 57]);
    CrcPrepends(0xaffc_9660, [56, 57], 0x651f_2550, [57]);
    CrcPrepends(0x651f_2550, [57], 0x340b_c6d9, []);
    CrcFromNothing(0x340b_c6d9);
    Complements(0x340b_c6d9, 0xcbf4_3926);
  }

  lemma CrcFromNothing(crc: bv32)
    ensures CrcFrom(crc, []) == crc
  {
  }

  lemma Complements(c: bv32, d: bv32)
    requires c ^ d == 0xffff_ffff
    ensures Complement(c) == d
  {
  }

  // ---------------------------------------------------------------- differences

  function Difference(s: seq<Byte>, t: seq<Byte>): (d: seq<Byte>)
    requires |s| == |t|
    ensures |d| == |s|
  {
    seq(|s|, i requires 0 <= i < |s| => s[i] ^ t[i])
  }

  lemma StepDifference(a: bv32, b: bv32, x: Byte, y: Byte)
    ensures CrcStep(Xor(a, b), x ^ y) == Xor(CrcStep(a, x), CrcStep(b, y))
  {
    hide Xor, Shifted, Wide;
    ByteXor(x, y);
    XorPairs(a, b, Wide(x), Wide(y));
    ShiftedIsLinear(Xor(a, Wide(x)), Xor(b, Wide(y)), 8);
  }

  /** Two equally long inputs: the difference of the checksums is the checksum of the
      difference, started from nothing. */
  lemma {:induction false} CrcOfDifference(a: bv32, b: bv32, s: seq<Byte>, t: seq<Byte>)
    requires |s| == |t|
    ensures Xor(CrcFrom(a, s), CrcFrom(b, t)) == CrcFrom(Xor(a, b), Difference(s, t))
    decreases |s|
  {
    hide Xor, CrcStep;
    if s != [] {
      var d := Difference(s, t);
      StepDifference(a, b, s[0], t[0]);
      assert d[1..] == Difference(s[1..], t[1..]);
      CrcOfDifference(CrcStep(a, s[0]), CrcStep(b, t[0]), s[1..], t[1..]);
    }
  }

  predicate AllZero(s: seq<Byte>) {
    forall i :: 0 <= i < |s| ==> s[i] == 0
  }

  lemma {:induction false} CrcOfZeros(c: bv32, s: seq<Byte>)
    requires AllZero(s)
    ensures CrcFrom(c, s) == 0 <==> c == 0
    decreases |s|
  {
    hide Shifted, Xor, Wide;
    if s != [] {
      XorZero(c);
      ShiftedKeepsNonzero(c, 8);
      CrcOfZeros(CrcStep(c, s[0]), s[1..]);
    }
  }

  /** Up to four bytes as one word, first byte lowest. */
  function Word(s: seq<Byte>): bv32
    decreases |s|
  {
    if s == [] then 0 else Xor(Wide(s[0]), LeftByte(Word(s[1..])))
  }

  lemma WordStep(b: Byte, rest: bv32)
    ensures rest <= 0xff_ffff ==> (Xor(Wide(b), LeftByte(rest)) == 0 <==> b == 0 && rest == 0)
    ensures rest <= 0xffff ==> Xor(Wide(b), LeftByte(rest)) <= 0xff_ffff
    ensures rest <= 0xff ==> Xor(Wide(b), LeftByte(rest)) <= 0xffff
    ensures rest == 0 ==> Xor(Wide(b), LeftByte(rest)) <= 0xff
  {
  }

  lemma Bounds(x: bv32)
    ensures x == 0 ==> x <= 0xff
    ensures x <= 0xff ==> x <= 0xffff
    ensures x <= 0xffff ==> x <= 0xff_ffff
  {
  }

  lemma ZeroSplit(s: seq<Byte>)
    requires s != []
    ensures AllZero(s) <==> s[0] == 0 && AllZero(s[1..])
  {
    if s[0] == 0 && AllZero(s[1..]) {
      forall i | 0 <= i < |s| ensures s[i] == 0 { if i > 0 { assert s[1..][i - 1] == 0; } }
    }
  }

  /** What a word of at most `|s|` bytes can be; it vanishes only if every byte does. */
  lemma {:induction false} WordFits(s: seq<Byte>)
    requires |s| <= 4
    ensures |s| <= 3 ==> Word(s) <= 0xff_ffff
    ensures |s| <= 2 ==> Word(s) <= 0xffff
    ensures |s| <= 1 ==> Word(s) <= 0xff
    ensures Word(s) == 0 <==> AllZero(s)
    decreases |s|
  {
    hide Xor, LeftByte, Wide, AllZero;
    if s == [] {
      NothingIsZero();
    } else {
      WordFits(s[1..]);
      WordStep(s[0], Word(s[1..]));
      ZeroSplit(s);
      Bounds(Word(s));
      Bounds(Word(s[1..]));
    }
  }

  lemma NothingIsZero()
    ensures AllZero([])
    ensures (0 as bv32) <= 0xff && (0 as bv32) <= 0xffff && (0 as bv32) <= 0xff_ffff
  {
  }

  /** A short input is absorbed as if it were one word mixed in at once. */
  lemma {:induction false} ShortInputIsOneWord(c: bv32, s: seq<Byte>)
    requires |s| <= 4
    ensures CrcFrom(c, s) == Shifted(Xor(c, Word(s)), 8 * |s|)
    decreases |s|
  {
    hide Shifted, Xor, LeftByte, Wide;
    if s == [] {
      XorZero(c);
      ShiftedNone(c);
    } else {
      var rest, w, b := s[1..], Word(s[1..]), Wide(s[0]);
      WordFits(rest);
      EightUndoes(w);
      ShiftedIsLinear(Xor(c, b), LeftByte(w), 8);
      XorAssociates(c, b, LeftByte(w));
      assert Xor(CrcStep(c, s[0]), w) == Shifted(Xor(c, Word(s)), 8);
      ShortInputIsOneWord(CrcStep(c, s[0]), rest);
      ShiftedAdds(Xor(c, Word(s)), 8, 8 * |rest|);
    }
  }

  /** A nonempty short burst, however far from the end, leaves a nonzero remainder. */
  lemma BurstIsSeen(front: seq<Byte>, burst: seq<Byte>, back: seq<Byte>)
    requires AllZero(front) && AllZero(back) && !AllZero(burst) && |burst| <= 4
    ensures CrcFrom(0, front + (burst + back)) != 0
  {
    hide Shifted, Xor, CrcFrom, Word, AllZero;
    CrcAppends(0, front, burst + back);
    CrcAppends(CrcFrom(0, front), burst, back);
    CrcOfZeros(0, front);
    ShortInputIsOneWord(0, burst);
    WordFits(burst);
    XorZero(Word(burst));
    ShiftedKeepsNonzero(Word(burst), 8 * |burst|);
    CrcOfZeros(CrcFrom(0, burst), back);
  }

  lemma ComplementInjective(x: bv32, y: bv32)
    ensures Complement(x) == Complement(y) <==> x == y
  {
  }

  /** `s` and `t` differ, and only inside the window of `width` bytes at `at`. */
  predicate DiffersWithin(s: seq<Byte>, t: seq<Byte>, at: nat, width: nat) {
    && |s| == |t| && s != t && at + width <= |s|
    && forall i :: 0 <= i < |s| && s[i] != t[i] ==> at <= i < at + width
  }

  /** Equally long inputs that differ only within four consecutive bytes never share a
      checksum. */
  lemma ShortBurstChangesCrc(s: seq<Byte>, t: seq<Byte>, at: nat, width: nat)
    requires DiffersWithin(s, t, at, width) && width <= 4
    ensures Crc32(s) != Crc32(t)
  {
    hide Xor, CrcFrom, Complement;
    var d := Difference(s, t);
    var front, burst, back := d[..at], d[at..at + width], d[at + width..];
    forall i | 0 <= i < |d| ensures d[i] == 0 <==> s[i] == t[i] { ByteXor(s[i], t[i]); }
    assert AllZero(back) by {
      forall i | 0 <= i < |back| ensures back[i] == 0 { assert d[at + width + i] == 0; }
    }
    var k :| 0 <= k < |s| && s[k] != t[k];
    assert burst[k - at] == d[k];
    assert d == front + (burst + back);
    BurstIsSeen(front, burst, back);
    XorEqual(0xffff_ffff, 0xffff_ffff);
    CrcOfDifference(0xffff_ffff, 0xffff_ffff, s, t);
    XorEqual(CrcFrom(0xffff_ffff, s), CrcFrom(0xffff_ffff, t));
    ComplementInjective(CrcFrom(0xffff_ffff, s), CrcFrom(0xffff_ffff, t));
  }

  // ---------------------------------------------------------------- the envelope

  datatype RecoveryDecodeError =
    | TooShort
    | InvalidMagic
    | UnsupportedVersion(version: nat)
    | LengthMismatch
    | ChecksumMismatch

  const VERSION: nat := 1
  const HEADER_LEN: nat := 18
  const CHECKSUM_LEN: nat := 4

  function Magic(): (m: seq<Byte>)
    ensures |m| == 8
  {
    Ascii("APCDEV01")
  }

  function WordBytes(c: bv32): (s: seq<Byte>)
    ensures |s| == 4
  {
    [((c >> 24) & 0xff) as Byte, ((c >> 16) & 0xff) as Byte, ((c >> 8) & 0xff) as Byte, (c & 0xff) as Byte]
  }

  function BytesWord(s: seq<Byte>): bv32
    requires |s| == 4
  {
    ((s[0] as bv32) << 24) | ((s[1] as bv32) << 16) | ((s[2] as bv32) << 8) | (s[3] as bv32)
  }

  lemma WordRoundTrip(c: bv32)
    ensures BytesWord(WordBytes(c)) == c
  {
  }

  lemma BytesRoundTrip(a: Byte, b: Byte, c: Byte, d: Byte)
    ensures WordBytes(BytesWord([a, b, c, d])) == [a, b, c, d]
  {
  }

  /** The bytes of the envelope around `payload`, up to the checksum. */
  function Framed(payload: seq<Byte>): seq<Byte> {
    Magic() + ToBE(VERSION, 2) + ToBE(|payload|, 8) + payload
  }

  function Encoded(payload: seq<Byte>): seq<Byte> {
    Framed(payload) + WordBytes(Crc32(Framed(payload)))
  }

  function Decoded(encoded: seq<Byte>): Result<seq<Byte>, RecoveryDecodeError> {
    if |encoded| < HEADER_LEN + CHECKSUM_LEN then Err(TooShort)
    else if encoded[..8] != Magic() then Err(InvalidMagic)
    else if FromBE(encoded[8..10]) != VERSION then Err(UnsupportedVersion(FromBE(encoded[8..10])))
    else if |encoded| != HEADER_LEN + FromBE(encoded[10..18]) + CHECKSUM_LEN then Err(LengthMismatch)
    else
      var offset := |encoded| - CHECKSUM_LEN;
      if BytesWord(encoded[offset..]) != Crc32(encoded[..offset]) then Err(ChecksumMismatch)
      else Ok(encoded[HEADER_LEN..offset])
  }

  method Encode(payload: seq<Byte>) returns (encoded: seq<Byte>)
    requires |payload| < U64_LIMIT
    ensures encoded == Encoded(payload)
  {
    encoded := Magic();
    encoded := encoded + ToBE(VERSION, 2);
    encoded := encoded + ToBE(|payload|, 8);
    encoded := encoded + payload;
    var checksum := Crc32Ieee(encoded);
    encoded := encoded + WordBytes(checksum);
  }

  method Decode(encoded: seq<Byte>) returns (r: Result<seq<Byte>, RecoveryDecodeError>)
    ensures r == Decoded(encoded)
  {
    hide Crc32, BytesWord;
    if |encoded| < HEADER_LEN + CHECKSUM_LEN { return Err(TooShort); }
    if encoded[..8] != Magic() { return Err(InvalidMagic); }
    var version := FromBE(encoded[8..10]);
    if version != VERSION { return Err(UnsupportedVersion(version)); }
    var payloadLen := FromBE(encoded[10..18]);
    var expectedLen := HEADER_LEN + payloadLen + CHECKSUM_LEN;
    if |encoded| != expectedLen { return Err(LengthMismatch); }
    var offset := HEADER_LEN + payloadLen;
    var stored := BytesWord(encoded[offset..]);
    var actual := Crc32Ieee(encoded[..offset]);
    if stored != actual { return Err(ChecksumMismatch); }
    r := Ok(encoded[HEADER_LEN..offset]);
  }

  lemma FramedLayout(payload: seq<Byte>)
    ensures |Framed(payload)| == HEADER_LEN + |payload|
    ensures Framed(payload)[..8] == Magic() && Framed(payload)[8..10] == ToBE(VERSION, 2)
    ensures Framed(payload)[10..18] == ToBE(|payload|, 8) && Framed(payload)[18..] == payload
  {
  }

  lemma EncodedLayout(payload: seq<Byte>)
    ensures var e, n := Encoded(payload), HEADER_LEN + |payload|;
            |e| == n + CHECKSUM_LEN && e[..n] == Framed(payload) && e[n..] == WordBytes(Crc32(Framed(payload)))
    ensures Encoded(payload)[..8] == Magic() && Encoded(payload)[8..10] == ToBE(VERSION, 2)
    ensures Encoded(payload)[10..18] == ToBE(|payload|, 8) && Encoded(payload)[HEADER_LEN..HEADER_LEN + |payload|] == payload
  {
    hide Framed, WordBytes, Crc32;
    FramedLayout(payload);
    var e, f := Encoded(payload), Framed(payload);
    assert e[..|f|] == f;
    assert e[..8] == f[..8] && e[8..10] == f[8..10] && e[10..18] == f[10..18] && e[18..|f|] == f[18..];
  }

  lemma VersionBytes()
    ensures FromBE(ToBE(VERSION, 2)) == VERSION
  {
    assert Pow256(1) == 256 && Pow256(2) == 0x1_0000;
    FromToBE(VERSION, 2);
  }

  // ---------------------------------------------------------------- a known envelope

  /** The layout: magic, version, payload length, payload and checksum, every number with its
      most significant byte first. */
  lemma KnownEnvelope()
    ensures var framed: seq<Byte> := [65, 80, 67, 68, 69, 86, 48, 49] + [0, 1] + [0, 0, 0, 0, 0, 0, 0, 1] + [65];
            Encoded([65]) == framed + WordBytes(Crc32(framed))
    ensures WordBytes(0x0102_0304) == [1, 2, 3, 4]
  {
    hide Crc32;
    MagicBytes();
    SmallBE(1, 1, 2);
    SmallBE(1, 1, 8);
    assert Framed([65]) == [65, 80, 67, 68, 69, 86, 48, 49] + [0, 1] + [0, 0, 0, 0, 0, 0, 0, 1] + [65];
  }

  lemma MagicBytes()
    ensures Magic() == [65, 80, 67, 68, 69, 86, 48, 49]
  {
    assert Char('A') == 65 && Char('P') == 80 && Char('C') == 67 && Char('D') == 68;
    assert Char('E') == 69 && Char('V') == 86 && Char('0') == 48 && Char('1') == 49;
  }

  /** Every payload comes back. */
  lemma EnvelopeRoundTrip(payload: seq<Byte>)
    requires |payload| < U64_LIMIT
    ensures Decoded(Encoded(payload)) == Ok(payload)
  {
    hide Encoded, Crc32, Framed, Magic, BytesWord, WordBytes;
    EncodedLayout(payload);
    VersionBytes();
    U64IsEightBytes();
    FromToBE(|payload|, 8);
    WordRoundTrip(Crc32(Framed(payload)));
  }

  lemma WordBytesInjective(s: seq<Byte>)
    requires |s| == 4
    ensures WordBytes(BytesWord(s)) == s
  {
    hide BytesWord, WordBytes;
    BytesRoundTrip(s[0], s[1], s[2], s[3]);
    assert s == [s[0], s[1], s[2], s[3]];
  }

  /** Nothing but an encoding is accepted: what decodes re-encodes to the same bytes. */
  lemma OnlyEncodingsDecode(encoded: seq<Byte>, payload: seq<Byte>)
    requires Decoded(encoded) == Ok(payload)
    ensures encoded == Encoded(payload)
  {
    hide Crc32, Magic, BytesWord, WordBytes;
    var offset := |encoded| - CHECKSUM_LEN;
    ToFromBE(encoded[8..10]);
    ToFromBE(encoded[10..18]);
    WordBytesInjective(encoded[offset..]);
    assert |payload| == FromBE(encoded[10..18]);
    assert encoded[..offset] == encoded[..8] + encoded[8..10] + encoded[10..18] + encoded[18..offset];
    assert encoded == encoded[..offset] + encoded[offset..];
  }

  lemma TailsDiffer(s: seq<Byte>, t: seq<Byte>, n: nat)
    requires |s| == |t| && n <= |s| && s[n..] != t[n..]
    ensures exists k :: n <= k < |s| && s[k] != t[k]
  {
    var i :| 0 <= i < |s| - n && s[n..][i] != t[n..][i];
    assert s[n + i] != t[n + i];
  }

  /** No two envelopes of one length are within a short burst of each other. */
  lemma EnvelopesAreFarApart(payload: seq<Byte>, other: seq<Byte>, at: nat, width: nat)
    requires |payload| == |other| && width <= 4
    requires at + width <= HEADER_LEN + |payload| || at >= HEADER_LEN + |payload|
    ensures !DiffersWithin(Encoded(payload), Encoded(other), at, width)
  {
    hide Encoded, Crc32, Magic, BytesWord, WordBytes, Framed;
    var n := HEADER_LEN + |payload|;
    var e, f := Encoded(payload), Encoded(other);
    EncodedLayout(payload);
    EncodedLayout(other);
    if Framed(payload) == Framed(other) {
      assert e == e[..n] + e[n..] && f == f[..n] + f[n..];
    } else if at >= n {
      var k :| 0 <= k < n && e[..n][k] != f[..n][k];
    } else if DiffersWithin(Framed(payload), Framed(other), at, width) {
      ShortBurstChangesCrc(Framed(payload), Framed(other), at, width);
      WordRoundTrip(Crc32(Framed(payload)));
      WordRoundTrip(Crc32(Framed(other)));
      TailsDiffer(e, f, n);
    } else {
      var k :| 0 <= k < n && e[..n][k] != f[..n][k] && !(at <= k < at + width);
    }
  }

  /** A buffer of the right length that was changed only within four consecutive bytes of
      the framed part, or only within the checksum, is rejected. */
  lemma DamageIsRejected(payload: seq<Byte>, damaged: seq<Byte>, at: nat, width: nat)
    requires |payload| < U64_LIMIT && DiffersWithin(Encoded(payload), damaged, at, width) && width <= 4
    requires at + width <= HEADER_LEN + |payload| || at >= HEADER_LEN + |payload|
    ensures Decoded(damaged).Err?
  {
    hide Encoded, Decoded;
    forall other ensures Decoded(damaged) != Ok(other) {
      if Decoded(damaged) == Ok(other) {
        OnlyEncodingsDecode(damaged, other);
        SameLengthPayloads(payload, other);
        EnvelopesAreFarApart(payload, other, at, width);
      }
    }
  }

  lemma SameLengthPayloads(payload: seq<Byte>, other: seq<Byte>)
    requires |Encoded(payload)| == |Encoded(other)|
    ensures |payload| == |other|
  {
    hide Crc32, Magic;
  }

  /** One changed byte, anywhere: magic, version, length, payload or checksum. */
  lemma OneByteIsRejected(payload: seq<Byte>, damaged: seq<Byte>, at: nat)
    requires |payload| < U64_LIMIT && DiffersWithin(Encoded(payload), damaged, at, 1)
    ensures Decoded(damaged).Err?
  {
    DamageIsRejected(payload, damaged, at, 1);
  }

  /** A torn or extended buffer never passes for another payload's envelope. */
  lemma WrongLengthIsRejected(payload: seq<Byte>, damaged: seq<Byte>)
    requires |payload| < U64_LIMIT && |damaged| != |Encoded(payload)|
    requires |damaged| >= HEADER_LEN ==> damaged[..HEADER_LEN] == Encoded(payload)[..HEADER_LEN]
    ensures Decoded(damaged).Err?
  {
    hide Encoded, Crc32, Magic, BytesWord, WordBytes, Framed;
    EncodedLayout(payload);
    U64IsEightBytes();
    FromToBE(|payload|, 8);
    if |damaged| >= HEADER_LEN {
      assert damaged[10..18] == damaged[..HEADER_LEN][10..18];
      assert Encoded(payload)[10..18] == Encoded(payload)[..HEADER_LEN][10..18];
    }
  }
}
