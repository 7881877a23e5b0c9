// app/luts.c and the program that wrote it, lutgen/lutgen.go: tables that expand pixels of one, two
// and four bits to one octet each, a whole word of them at a time.
module Luts {
  import opened Bytes

  // ----- app/luts.c -----

  function Lut1Bit(i: nat): uint32
    requires i < 16
  {
    [
      0x00000000, 0x00000001, 0x00000100, 0x00000101, 0x00010000, 0x00010001, 0x00010100, 0x00010101,
      0x01000000, 0x01000001, 0x01000100, 0x01000101, 0x01010000, 0x01010001, 0x01010100, 0x01010101][i]
  }

  function Lut2BitRow(r: nat): (s: seq<uint32>)
    requires r < 16
    ensures |s| == 16
  {
    match r
    case 0 => [
        0x00000000, 0x00000001, 0x00000002, 0x00000003, 0x00000100, 0x00000101, 0x00000102, 0x00000103,
        0x00000200, 0x00000201, 0x00000202, 0x00000203, 0x00000300, 0x00000301, 0x00000302, 0x00000303]
    case 1 => [
        0x00010000, 0x00010001, 0x00010002, 0x00010003, 0x00010100, 0x00010101, 0x00010102, 0x00010103,
        0x00010200, 0x00010201, 0x00010202, 0x00010203, 0x00010300, 0x00010301, 0x00010302, 0x00010303]
    case 2 => [
        0x00020000, 0x00020001, 0x00020002, 0x00020003, 0x00020100, 0x00020101, 0x00020102, 0x00020103,
        0x00020200, 0x00020201, 0x00020202, 0x00020203, 0x00020300, 0x00020301, 0x00020302, 0x00020303]
    case 3 => [
        0x00030000, 0x00030001, 0x00030002, 0x00030003, 0x00030100, 0x00030101, 0x00030102, 0x00030103,
        0x00030200, 0x00030201, 0x00030202, 0x00030203, 0x00030300, 0x00030301, 0x00030302, 0x00030303]
    case 4 => [
        0x01000000, 0x01000001, 0x01000002, 0x01000003, 0x01000100, 0x01000101, 0x01000102, 0x01000103,
        0x01000200, 0x01000201, 0x01000202, 0x01000203, 0x01000300, 0x01000301, 0x01000302, 0x01000303]
    case 5 => [
        0x01010000, 0x01010001, 0x01010002, 0x01010003, 0x01010100, 0x01010101, 0x01010102, 0x01010103,
        0x01010200, 0x01010201, 0x01010202, 0x01010203, 0x01010300, 0x01010301, 0x01010302, 0x01010303]
    case 6 => [
        0x01020000, 0x01020001, 0x01020002, 0x01020003, 0x01020100, 0x01020101, 0x01020102, 0x01020103,
        0x01020200, 0x01020201, 0x01020202, 0x01020203, 0x01020300, 0x01020301, 0x01020302, 0x01020303]
    case 7 => [
        0x01030000, 0x01030001, 0x01030002, 0x01030003, 0x01030100, 0x01030101, 0x01030102, 0x01030103,
        0x01030200, 0x01030201, 0x01030202, 0x01030203, 0x01030300, 0x01030301, 0x01030302, 0x01030303]
    case 8 => [
        0x02000000, 0x02000001, 0x02000002, 0x02000003, 0x02000100, 0x02000101, 0x02000102, 0x02000103,
        0x02000200, 0x02000201, 0x02000202, 0x02000203, 0x02000300, 0x02000301, 0x02000302, 0x02000303]
    case 9 => [
        0x02010000, 0x02010001, 0x02010002, 0x02010003, 0x02010100, 0x02010101, 0x02010102, 0x02010103,
        0x02010200, 0x02010201, 0x02010202, 0x02010203, 0x02010300, 0x02010301, 0x02010302, 0x02010303]
    case 10 => [
        0x02020000, 0x02020001, 0x02020002, 0x02020003, 0x02020100, 0x02020101, 0x02020102, 0x02020103,
        0x02020200, 0x02020201, 0x02020202, 0x02020203, 0x02020300, 0x02020301, 0x02020302, 0x02020303]
    case 11 => [
        0x02030000, 0x02030001, 0x02030002, 0x02030003, 0x02030100, 0x02030101, 0x02030102, 0x02030103,
        0x02030200, 0x02030201, 0x02030202, 0x02030203, 0x02030300, 0x02030301, 0x02030302, 0x02030303]
    case 12 => [
        0x03000000, 0x03000001, 0x03000002, 0x03000003, 0x03000100, 0x03000101, 0x03000102, 0x03000103,
        0x03000200, 0x03000201, 0x03000202, 0x03000203, 0x03000300, 0x03000301, 0x03000302, 0x03000303]
    case 13 => [
        0x03010000, 0x03010001, 0x03010002, 0x03010003, 0x03010100, 0x03010101, 0x03010102, 0x03010103,
        0x03010200, 0x03010201, 0x03010202, 0x03010203, 0x03010300, 0x03010301, 0x03010302, 0x03010303]
    case 14 => [
        0x03020000, 0x03020001, 0x03020002, 0x03020003, 0x03020100, 0x03020101, 0x03020102, 0x03020103,
        0x03020200, 0x03020201, 0x03020202, 0x03020203, 0x03020300, 0x03020301, 0x03020302, 0x03020303]
    case _ => [
        0x03030000, 0x03030001, 0x03030002, 0x03030003, 0x03030100, 0x03030101, 0x03030102, 0x03030103,
        0x03030200, 0x03030201, 0x03030202, 0x03030203, 0x03030300, 0x03030301, 0x03030302, 0x03030303]
  }

  function Lut2Bit(i: nat): uint32
    requires i < 256
  {
    Lut2BitRow(i / 16)[i % 16]
  }

  function Lut4BitRow(r: nat): (s: seq<uint16>)
    requires r < 16
    ensures |s| == 16
  {
    match r
    case 0 => [
        0x0000, 0x0001, 0x0002, 0x0003, 0x0004, 0x0005, 0x0006, 0x0007,
        0x0008, 0x0009, 0x000a, 0x000b, 0x000c, 0x000d, 0x000e, 0x000f]
    case 1 => [
        0x0100, 0x0101, 0x0102, 0x0103, 0x0104, 0x0105, 0x0106, 0x0107,
        0x0108, 0x0109, 0x010a, 0x010b, 0x010c, 0x010d, 0x010e, 0x010f]
    case 2 => [
        0x0200, 0x0201, 0x0202, 0x0203, 0x0204, 0x0205, 0x0206, 0x0207,
        0x0208, 0x0209, 0x020a, 0x020b, 0x020c, 0x020d, 0x020e, 0x020f]
    case 3 => [
        0x0300, 0x0301, 0x0302, 0x0303, 0x0304, 0x0305, 0x0306, 0x0307,
        0x0308, 0x0309, 0x030a, 0x030b, 0x030c, 0x030d, 0x030e, 0x030f]
    case 4 => [
        0x0400, 0x0401, 0x0402, 0x0403, 0x0404, 0x0405, 0x0406, 0x0407,
        0x0408, 0x0409, 0x040a, 0x040b, 0x040c, 0x040d, 0x040e, 0x040f]
    case 5 => [
        0x0500, 0x0501, 0x0502, 0x0503, 0x0504, 0x0505, 0x0506, 0x0507,
        0x0508, 0x0509, 0x050a, 0x050b, 0x050c, 0x050d, 0x050e, 0x050f]
    case 6 => [
        0x0600, 0x0601, 0x0602, 0x0603, 0x0604, 0x0605, 0x0606, 0x0607,
        0x0608, 0x0609, 0x060a, 0x060b, 0x060c, 0x060d, 0x060e, 0x060f]
    case 7 => [
        0x0700, 0x0701, 0x0702, 0x0703, 0x0704, 0x0705, 0x0706, 0x0707,
        0x0708, 0x0709, 0x070a, 0x070b, 0x070c, 0x070d, 0x070e, 0x070f]
    case 8 => [
        0x0800, 0x0801, 0x0802, 0x0803, 0x0804, 0x0805, 0x0806, 0x0807,
        0x0808, 0x0809, 0x080a, 0x080b, 0x080c, 0x080d, 0x080e, 0x080f]
    case 9 => [
        0x0900, 0x0901, 0x0902, 0x0903, 0x0904, 0x0905, 0x0906, 0x0907,
        0x0908, 0x0909, 0x090a, 0x090b, 0x090c, 0x090d, 0x090e, 0x090f]
    case 10 => [
        0x0a00, 0x0a01, 0x0a02, 0x0a03, 0x0a04, 0x0a05, 0x0a06, 0x0a07,
        0x0a08, 0x0a09, 0x0a0a, 0x0a0b, 0x0a0c, 0x0a0d, 0x0a0e, 0x0a0f]
    case 11 => [
        0x0b00, 0x0b01, 0x0b02, 0x0b03, 0x0b04, 0x0b05, 0x0b06, 0x0b07,
        0x0b08, 0x0b09, 0x0b0a, 0x0b0b, 0x0b0c, 0x0b0d, 0x0b0e, 0x0b0f]
    case 12 => [
        0x0c00, 0x0c01, 0x0c02, 0x0c03, 0x0c04, 0x0c05, 0x0c06, 0x0c07,
        0x0c08, 0x0c09, 0x0c0a, 0x0c0b, 0x0c0c, 0x0c0d, 0x0c0e, 0x0c0f]
    case 13 => [
        0x0d00, 0x0d01, 0x0d02, 0x0d03, 0x0d04, 0x0d05, 0x0d06, 0x0d07,
        0x0d08, 0x0d09, 0x0d0a, 0x0d0b, 0x0d0c, 0x0d0d, 0x0d0e, 0x0d0f]
    case 14 => [
        0x0e00, 0x0e01, 0x0e02, 0x0e03, 0x0e04, 0x0e05, 0x0e06, 0x0e07,
        0x0e08, 0x0e09, 0x0e0a, 0x0e0b, 0x0e0c, 0x0e0d, 0x0e0e, 0x0e0f]
    case _ => [
        0x0f00, 0x0f01, 0x0f02, 0x0f03, 0x0f04, 0x0f05, 0x0f06, 0x0f07,
        0x0f08, 0x0f09, 0x0f0a, 0x0f0b, 0x0f0c, 0x0f0d, 0x0f0e, 0x0f0f]
  }

  function Lut4Bit(i: nat): uint16
    requires i < 256
  {
    Lut4BitRow(i / 16)[i % 16]
  }

  // ----- what the entries mean -----

  // The k-th pixel of `depth` bits in an octet, counted from its most significant end.
  function Field(depth: nat, b: byte, k: nat): byte
    requires depth in {1, 2, 4, 8} && k * depth < 8
  {
    match depth
    case 1 => (b / [128, 64, 32, 16, 8, 4, 2, 1][k]) % 2
    case 2 => (b / [64, 16, 4, 1][k]) % 4
    case 4 => (b / [16, 1][k]) % 16
    case _ => b
  }

  lemma FieldIs(b: byte)
    ensures Field(1, b, 0) == b / 128 % 2 && Field(1, b, 1) == b / 64 % 2 && Field(1, b, 2) == b / 32 % 2
    ensures Field(1, b, 3) == b / 16 % 2 && Field(1, b, 4) == b / 8 % 2 && Field(1, b, 5) == b / 4 % 2
    ensures Field(1, b, 6) == b / 2 % 2 && Field(1, b, 7) == b % 2
  {
    assert b / 1 == b;
  }

  lemma BitsMakeOctet(b: byte)
    ensures b == 128 * (b / 128 % 2) + 64 * (b / 64 % 2) + 32 * (b / 32 % 2) + 16 * (b / 16 % 2)
                 + 8 * (b / 8 % 2) + 4 * (b / 4 % 2) + 2 * (b / 2 % 2) + b % 2
  {
    var q1, q2, q3, q4 := b / 2, b / 4, b / 8, b / 16;
    var q5, q6, q7 := b / 32, b / 64, b / 128;
    assert q2 == q1 / 2 && q3 == q2 / 2 && q4 == q3 / 2 && q5 == q4 / 2 && q6 == q5 / 2 && q7 == q6 / 2 && q7 < 2;
  }

  // The fields of an octet make it up, the first of them most significant.
  lemma FieldsMakeOctet(b: byte)
    ensures b == Field(8, b, 0)
    ensures b == 0x10 * Field(4, b, 0) + Field(4, b, 1)
    ensures b == 0x40 * Field(2, b, 0) + 0x10 * Field(2, b, 1) + 4 * Field(2, b, 2) + Field(2, b, 3)
    ensures b == 0x80 * Field(1, b, 0) + 0x40 * Field(1, b, 1) + 0x20 * Field(1, b, 2) + 0x10 * Field(1, b, 3)
                 + 8 * Field(1, b, 4) + 4 * Field(1, b, 5) + 2 * Field(1, b, 6) + Field(1, b, 7)
  {
    hide Field;
    FieldIs(b);
    BitsMakeOctet(b);
    FourBitFields(b);
    TwoBitFields(b);
    WholeField(b);
  }

  lemma WholeField(b: byte)
    ensures Field(8, b, 0) == b
  {
  }

  lemma Lut1BitAt(a: nat, b: nat, c: nat, d: nat)
    requires a < 2 && b < 2 && c < 2 && d < 2
    ensures Lut1Bit(8 * a + 4 * b + 2 * c + d) == Join32(a, b, c, d)
  {
  }

  lemma BinaryDigits(i: nat)
    requires i < 16
    ensures i == 8 * (i / 8) + 4 * (i / 4 % 2) + 2 * (i / 2 % 2) + i % 2
    ensures i / 8 < 2
  {
    assert i / 4 == 2 * (i / 8) + i / 4 % 2;
    assert i / 2 == 2 * (i / 4) + i / 2 % 2;
  }

  lemma Lut1BitExpands(i: nat)
    requires i < 16
    ensures Lut1Bit(i) == Join32(i / 8, i / 4 % 2, i / 2 % 2, i % 2)
  {
    BinaryDigits(i);
    Lut1BitAt(i / 8, i / 4 % 2, i / 2 % 2, i % 2);
  }

  // Row r of lut2bit spelled out: its two high pixels are those of r.
  function TwoBitRow(a: byte, b: byte): seq<uint32> {
    [Join32(a, b, 0, 0), Join32(a, b, 0, 1), Join32(a, b, 0, 2), Join32(a, b, 0, 3),
     Join32(a, b, 1, 0), Join32(a, b, 1, 1), Join32(a, b, 1, 2), Join32(a, b, 1, 3),
     Join32(a, b, 2, 0), Join32(a, b, 2, 1), Join32(a, b, 2, 2), Join32(a, b, 2, 3),
     Join32(a, b, 3, 0), Join32(a, b, 3, 1), Join32(a, b, 3, 2), Join32(a, b, 3, 3)]
  }

  function FourBitRow(a: byte): seq<uint16> {
    [Join16(a, 0), Join16(a, 1), Join16(a, 2), Join16(a, 3), Join16(a, 4), Join16(a, 5), Join16(a, 6), Join16(a, 7),
     Join16(a, 8), Join16(a, 9), Join16(a, 10), Join16(a, 11), Join16(a, 12), Join16(a, 13), Join16(a, 14), Join16(a, 15)]
  }

  lemma TwoBitRowsFrom0(r: nat)
    requires 0 <= r < 4
    ensures Lut2BitRow(r) == TwoBitRow(r / 4, r % 4)
  {
  }

  lemma TwoBitRowsFrom1(r: nat)
    requires 4 <= r < 8
    ensures Lut2BitRow(r) == TwoBitRow(r / 4, r % 4)
  {
  }

  lemma TwoBitRowsFrom2(r: nat)
    requires 8 <= r < 12
    ensures Lut2BitRow(r) == TwoBitRow(r / 4, r % 4)
  {
  }

  lemma TwoBitRowsFrom3(r: nat)
    requires 12 <= r < 16
    ensures Lut2BitRow(r) == TwoBitRow(r / 4, r % 4)
  {
  }

  lemma TwoBitRows(r: nat)
    requires r < 16
    ensures Lut2BitRow(r) == TwoBitRow(r / 4, r % 4)
  {
    if r < 4 {
      TwoBitRowsFrom0(r);
    } else if r < 8 {
      TwoBitRowsFrom1(r);
    } else if r < 12 {
      TwoBitRowsFrom2(r);
    } else {
      TwoBitRowsFrom3(r);
    }
  }

  lemma FourBitRowsFrom0(r: nat)
    requires 0 <= r < 8
    ensures Lut4BitRow(r) == FourBitRow(r)
  {
  }

  lemma FourBitRowsFrom1(r: nat)
    requires 8 <= r < 16
    ensures Lut4BitRow(r) == FourBitRow(r)
  {
  }

  lemma FourBitRows(r: nat)
    requires r < 16
    ensures Lut4BitRow(r) == FourBitRow(r)
  {
    if r < 8 {
      FourBitRowsFrom0(r);
    } else {
      FourBitRowsFrom1(r);
    }
  }

  lemma InTwoBitRow(a: byte, b: byte, k: nat)
    requires k < 16
    ensures TwoBitRow(a, b)[k] == Join32(a, b, k / 4, k % 4)
  {
  }

  lemma InFourBitRow(a: byte, k: nat)
    requires k < 16
    ensures FourBitRow(a)[k] == Join16(a, k)
  {
  }

  lemma TwoBitFields(b: byte)
    ensures Field(2, b, 0) == b / 16 / 4 && Field(2, b, 1) == b / 16 % 4
    ensures Field(2, b, 2) == b % 16 / 4 && Field(2, b, 3) == b % 16 % 4
  {
    var a0, a1, a2, a3 := b / 16 / 4, b / 16 % 4, b % 16 / 4, b % 16 % 4;
    assert b == 64 * a0 + (16 * a1 + 4 * a2 + a3);
    assert b / 64 == a0 && b / 16 == 4 * a0 + a1 && b / 4 == 4 * (4 * a0 + a1) + a2;
  }

  lemma FourBitFields(b: byte)
    ensures Field(4, b, 0) == b / 16 && Field(4, b, 1) == b % 16
  {
  }

  lemma Lut2BitExpands(b: byte)
    ensures Lut2Bit(b) == Join32(Field(2, b, 0), Field(2, b, 1), Field(2, b, 2), Field(2, b, 3))
  {
    TwoBitFields(b);
    TwoBitRows(b / 16);
    InTwoBitRow(b / 16 / 4, b / 16 % 4, b % 16);
  }

  lemma Lut4BitExpands(b: byte)
    ensures Lut4Bit(b) == Join16(Field(4, b, 0), Field(4, b, 1))
  {
    FourBitFields(b);
    FourBitRows(b / 16);
    InFourBitRow(b / 16, b % 16);
  }

  // ----- lutgen/lutgen.go: every entry is printed as a hexadecimal literal -----

  function HexDigit(d: nat): char
    requires d < 16
  {
    if d < 10 then ('0' as int + d) as char else ('a' as int + d - 10) as char
  }

  function HexOctet(b: byte): string {
    [HexDigit(b / 16), HexDigit(b % 16)]
  }

  function DigitValue(c: char): nat {
    if '0' <= c <= '9' then c as int - '0' as int
    else if 'a' <= c <= 'f' then c as int - 'a' as int + 10
    else 0
  }

  // The number that a C compiler reads.
  function HexValue(s: string): nat {
    if s == "" then 0 else 16 * HexValue(s[..|s| - 1]) + DigitValue(s[|s| - 1])
  }

  // The octets in order, the first one most significant.
  function Spell(octets: seq<byte>): string {
    if octets == [] then "" else HexOctet(octets[0]) + Spell(octets[1..])
  }

  function Number(octets: seq<byte>): nat {
    if octets == [] then 0 else 0x100 * Number(octets[..|octets| - 1]) + octets[|octets| - 1]
  }

  lemma HexValueOctet(s: string, b: byte)
    ensures HexValue(s + HexOctet(b)) == 0x100 * HexValue(s) + b
  {
    var hi, lo := HexDigit(b / 16), HexDigit(b % 16);
    assert (s + HexOctet(b))[..|s| + 1] == s + [hi];
    assert (s + [hi])[..|s|] == s;
    assert DigitValue(hi) == b / 16 && DigitValue(lo) == b % 16;
  }

  lemma {:induction false} SpellSnoc(octets: seq<byte>, b: byte)
    ensures Spell(octets + [b]) == Spell(octets) + HexOctet(b)
  {
    if octets == [] {
      assert Spell([b]) == HexOctet(b) + Spell([b][1..]);
    } else {
      assert (octets + [b])[1..] == octets[1..] + [b];
      SpellSnoc(octets[1..], b);
    }
  }

  lemma {:induction false} SpellValue(octets: seq<byte>)
    ensures HexValue(Spell(octets)) == Number(octets)
  {
    if octets != [] {
      var init, last := octets[..|octets| - 1], octets[|octets| - 1];
      SpellValue(init);
      SpellSnoc(init, last);
      HexValueOctet(Spell(init), last);
      assert init + [last] == octets;
    }
  }

  lemma SpellTwo(a: byte, b: byte)
    ensures HexValue(Spell([a, b])) == Join16(a, b)
  {
    SpellValue([a, b]);
    assert [a, b][..1] == [a] && [a][..0] == [];
    assert Number([a]) == a;
  }

  lemma SpellFour(a: byte, b: byte, c: byte, d: byte)
    ensures HexValue(Spell([a, b, c, d])) == Join32(a, b, c, d)
  {
    SpellValue([a, b, c, d]);
    assert [a, b, c, d][..3] == [a, b, c] && [a, b, c][..2] == [a, b] && [a, b][..1] == [a] && [a][..0] == [];
    assert Number([a]) == a;
    assert Number([a, b]) == 0x100 * a + b;
    assert Number([a, b, c]) == 0x100 * (0x100 * a + b) + c;
  }

  // One more octet in front.
  lemma SpellNext(octets: seq<byte>, k: nat)
    requires k < |octets|
    ensures Spell(octets[k..]) == HexOctet(octets[k]) + Spell(octets[k + 1..])
  {
    assert octets[k..][1..] == octets[k + 1..];
  }

  lemma Literal(octets: seq<byte>, digits: string, number: string)
    requires digits == Spell(octets[0..]) && number == "0x" + digits
    ensures number[..2] == "0x" && number[2..] == Spell(octets)
    ensures |number| == 2 + 2 * |octets|
  {
    assert octets[0..] == octets;
    SpellLength(octets);
  }

  lemma {:induction false} SpellLength(octets: seq<byte>)
    ensures |Spell(octets)| == 2 * |octets|
  {
    if octets != [] {
      SpellLength(octets[1..]);
    }
  }

  // The octets of an entry of lut1bit.
  function OneBitOctets(i: nat): seq<byte>
    requires i < 16
  {
    [i / 8, i / 4 % 2, i / 2 % 2, i % 2]
  }

  function TwoBitOctets(i: byte): seq<byte> {
    [i / 64 % 4, i / 16 % 4, i / 4 % 4, i % 4]
  }

  function FourBitOctets(i: byte): seq<byte> {
    [i / 16, i % 16]
  }

  // i & (1 << j), as a truth value.
  method TestBit(i: nat, j: nat) returns (bit: nat)
    requires i < 16 && j < 4
    ensures bit == OneBitOctets(i)[3 - j] && bit < 2
  {
    bit := i / [1, 2, 4, 8][j] % 2;
  }

  lemma HexBit(bit: byte)
    requires bit < 2
    ensures HexOctet(bit) == if bit > 0 then "01" else "00"
  {
  }

  lemma OneBitEntry(i: nat)
    requires i < 16
    ensures HexValue(Spell(OneBitOctets(i))) == Lut1Bit(i)
  {
    SpellFour(i / 8, i / 4 % 2, i / 2 % 2, i % 2);
    Lut1BitExpands(i);
  }

  method Digits1Bit(i: nat) returns (number: string)
    requires i < 16
    ensures number == Spell(OneBitOctets(i)[0..])
  {
    number := "";
    for j := 0 to 4
      invariant number == Spell(OneBitOctets(i)[4 - j..])
    {
      var bit := TestBit(i, j);
      HexBit(bit);
      SpellNext(OneBitOctets(i), 3 - j);
      if bit > 0 {
        number := "01" + number;
      } else {
        number := "00" + number;
      }
    }
  }

  method Generate1Bit(i: nat) returns (number: string)
    requires i < 16
    ensures |number| == 10 && number[..2] == "0x" && HexValue(number[2..]) == Lut1Bit(i)
  {
    var digits := Digits1Bit(i);
    number := "0x" + digits;
    Literal(OneBitOctets(i), digits, number);
    OneBitEntry(i);
  }

  lemma TwoBitsAt(i: byte, j: nat)
    requires j < 4
    ensures i / [1, 4, 16, 64][j] % 4 == TwoBitOctets(i)[3 - j]
  {
  }

  lemma HexSmall(b: byte)
    requires b < 16
    ensures "0" + [HexDigit(b)] == HexOctet(b)
  {
  }

  lemma TwoBitEntry(i: byte)
    ensures HexValue(Spell(TwoBitOctets(i))) == Lut2Bit(i)
  {
    SpellFour(i / 64 % 4, i / 16 % 4, i / 4 % 4, i % 4);
    Lut2BitExpands(i);
  }

  method Generate2Bit(i: byte) returns (number: string)
    ensures |number| == 10 && number[..2] == "0x" && HexValue(number[2..]) == Lut2Bit(i)
  {
    ghost var octets := TwoBitOctets(i);
    var digits := "";
    for j := 0 to 4
      invariant digits == Spell(octets[4 - j..])
    {
      // (i >> (j * 2)) & 3
      var blob := i / [1, 4, 16, 64][j] % 4;
      TwoBitsAt(i, j);
      HexSmall(blob);
      SpellNext(octets, 3 - j);
      digits := "0" + [HexDigit(blob)] + digits;
    }
    number := "0x" + digits;
    Literal(octets, digits, number);
    TwoBitEntry(i);
  }

  lemma FourBitsAt(i: byte, j: nat)
    requires j < 2
    ensures i / [1, 16][j] % 16 == FourBitOctets(i)[1 - j]
  {
  }

  lemma FourBitEntry(i: byte)
    ensures HexValue(Spell(FourBitOctets(i))) == Lut4Bit(i)
  {
    SpellTwo(i / 16, i % 16);
    Lut4BitExpands(i);
    FourBitFields(i);
  }

  method Generate4Bit(i: byte) returns (number: string)
    ensures |number| == 6 && number[..2] == "0x" && HexValue(number[2..]) == Lut4Bit(i)
  {
    ghost var octets := FourBitOctets(i);
    var digits := "";
    for j := 0 to 2
      invariant digits == Spell(octets[2 - j..])
    {
      // (i >> (j * 4)) & 15
      var blob := i / [1, 16][j] % 16;
      FourBitsAt(i, j);
      SpellNext(octets, 1 - j);
      digits := HexOctet(blob) + digits;
    }
    number := "0x" + digits;
    Literal(octets, digits, number);
    FourBitEntry(i);
  }
}
