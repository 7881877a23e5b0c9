// What the CRC of a buffer comes out as, and the mark it leaves behind itself: a buffer with its own
// CRC at the end has the same CRC whatever is in it.
module CrcResidue {
  import opened Bytes
  import opened Crc32
  import opened Folds
  import CrcBursts

  // ----- octets as a number, the first one least significant -----

  function Spelt(r: seq<byte>): bv32 {
    if r == [] then 0 else Xor(Word(r[0]), Shifted(Spelt(r[1..])))
  }

  function Shifted(x: bv32): bv32 {
    x << 8
  }

  lemma Fits(x: bv32, w: bv32)
    requires w <= 0xff
    ensures x <= 0xff ==> Xor(w, Shifted(x)) <= 0xffff
    ensures x <= 0xffff ==> Xor(w, Shifted(x)) <= 0xff_ffff
    ensures x == 0 ==> Xor(w, Shifted(x)) <= 0xff
  {
  }

  lemma SpeltFits(r: seq<byte>)
    requires |r| <= 3
    ensures Spelt(r) <= 0xff_ffff
    ensures |r| <= 2 ==> Spelt(r) <= 0xffff
    ensures |r| <= 1 ==> Spelt(r) <= 0xff
    ensures r == [] ==> Spelt(r) == 0
  {
    hide Xor, Shifted, Word;
    if r != [] {
      SpeltFits(r[1..]);
      WordFits(r[0]);
      Fits(Spelt(r[1..]), Word(r[0]));
    }
  }

  lemma WordFits(b: byte)
    ensures Word(b) <= 0xff
  {
    OctetIsSmall(b);
  }

  lemma ShiftedHigh(x: bv32)
    requires x <= 0xff_ffff
    ensures Shifted(x) & 0xff == 0 && Shifted(x) >> 8 == x
  {
  }

  lemma StepOfShifted(x: bv32)
    requires x <= 0xff_ffff
    ensures ByteStep(Shifted(x)) == x
  {
    hide ByteStep, Shifted;
    ShiftedHigh(x);
    ByteStepOfHigh(Shifted(x));
  }

  function Octet(x: bv32): (b: byte)
    requires x <= 0xff
    ensures Word(b) == x
  {
    x as int
  }

  // Every value of the register can be spelt.
  function Spell(x: bv32): (r: seq<byte>)
    ensures |r| == 4 && Spelt(r) == x
  {
    var r := [Octet(x & 0xff), Octet((x >> 8) & 0xff), Octet((x >> 16) & 0xff), Octet(x >> 24)];
    SpeltBack(x, r);
    r
  }

  lemma SpeltBack(x: bv32, r: seq<byte>)
    requires |r| == 4 && Word(r[0]) == x & 0xff && Word(r[1]) == (x >> 8) & 0xff
    requires Word(r[2]) == (x >> 16) & 0xff && Word(r[3]) == x >> 24
    ensures Spelt(r) == x
  {
    hide Word, Xor, Shifted;
    assert r[1..][0] == r[1] && r[1..][1..] == r[2..] && r[2..][0] == r[2] && r[2..][1..] == r[3..];
    assert r[3..][0] == r[3] && r[3..][1..] == [];
    assert Spelt(r[3..]) == Xor(Word(r[3]), Shifted(0));
    assert Spelt(r[2..]) == Xor(Word(r[2]), Shifted(Spelt(r[3..])));
    assert Spelt(r[1..]) == Xor(Word(r[1]), Shifted(Spelt(r[2..])));
    Reassembled(x);
  }

  lemma Reassembled(x: bv32)
    ensures x == Xor(x & 0xff, Shifted(Xor((x >> 8) & 0xff, Shifted(Xor((x >> 16) & 0xff, Shifted(Xor(x >> 24, Shifted(0))))))))
  {
  }

  // Up to four octets can be added all at once.
  lemma {:induction false} FoldOctets(c: bv32, r: seq<byte>)
    requires |r| <= 4
    ensures Fold(ShiftInOctet, c, r) == Iterate(ByteStep, |r|, Xor(c, Spelt(r)))
    decreases r
  {
    hide Xor, ByteStep, Shifted, Word;
    if r == [] {
      CrcBursts.XorNeutral(c);
    } else {
      var w, rest := Word(r[0]), Spelt(r[1..]);
      FoldOctets(ShiftInOctet(c, r[0]), r[1..]);
      SpeltFits(r[1..]);
      StepOfShifted(rest);
      ByteStepLinear(Xor(c, w), Shifted(rest));
      CrcBursts.XorAssociates(c, w, Shifted(rest));
    }
  }

  lemma Complements(c: bv32)
    ensures Xor(c, Not(c)) == 0xffff_ffff
  {
  }

  lemma FourSteps()
    ensures Iterate(ByteStep, 4, 0xffff_ffff) == 0xdebb_20e3
  {
    hide ByteStep;
    Steps();
    assert Iterate(ByteStep, 4, 0xffff_ffff) == Iterate(ByteStep, 2, ByteStep(ByteStep(0xffff_ffff)));
  }

  lemma Steps()
    ensures ByteStep(0xffff_ffff) == 0x2dfd_1072 && ByteStep(0x2dfd_1072) == 0xbe26_ed00
    ensures ByteStep(0xbe26_ed00) == 0x00be_26ed && ByteStep(0x00be_26ed) == 0xdebb_20e3
  {
  }

  // Whatever the buffer: with its CRC at the end, least significant octet first, the CRC is this.
  lemma Residue(buf: seq<byte>)
    ensures Crc(buf + Spell(Crc(buf))) == 0x2144_df1c
  {
    hide ShiftInOctet, Spell, Spelt, ByteStep, Iterate, Not;
    var c, r := Fold(ShiftInOctet, 0xffff_ffff, buf), Spell(Crc(buf));
    FoldAppend(ShiftInOctet, 0xffff_ffff, buf, r);
    FoldOctets(c, r);
    Complements(c);
    FourSteps();
    Complement();
  }

  lemma Complement()
    ensures Not(0xdebb_20e3) == 0x2144_df1c && Not(0xffff_ffff) == 0 && Not(0x340b_c6d9) == 0xcbf4_3926
  {
  }

  // And with no other four octets at the end.
  lemma ResidueExactly(buf: seq<byte>, s: seq<byte>)
    requires |s| == 4
    ensures Crc(buf + s) == 0x2144_df1c <==> s == Spell(Crc(buf))
  {
    hide Crc, Spell, CrcBursts.Near;
    var r := Spell(Crc(buf));
    Residue(buf);
    CrcBursts.FourOctetsAreNear(buf + r, buf + s, |buf|);
    CrcBursts.NearDetected(buf + r, buf + s);
    assert (buf + r)[|buf|..] == r && (buf + s)[|buf|..] == s;
  }

  lemma NothingRead()
    ensures Crc([]) == 0
  {
  }

  // The customary check value, of the digits 1 to 9.
  lemma CheckValue()
    ensures Crc([0x31, 0x32, 0x33, 0x34, 0x35, 0x36, 0x37, 0x38, 0x39]) == 0xcbf4_3926
  {
    hide ShiftInOctet, Not;
    var digits: seq<byte> := [0x31, 0x32, 0x33, 0x34, 0x35, 0x36, 0x37, 0x38, 0x39];
    CheckValueSteps();
    CrcBursts.FoldFive(ShiftInOctet, 0x641c_1f5c, 0x35, 0x36, 0x37, 0x38, 0x39);
    FoldFour(ShiftInOctet, 0xffff_ffff, 0x31, 0x32, 0x33, 0x34);
    FoldAppend(ShiftInOctet, 0xffff_ffff, [0x31, 0x32, 0x33, 0x34], [0x35, 0x36, 0x37, 0x38, 0x39]);
    assert digits == [0x31, 0x32, 0x33, 0x34] + [0x35, 0x36, 0x37, 0x38, 0x39];
    Complement();
  }

  lemma FoldFour<S, B>(step: (S, B) -> S, s: S, a: B, b: B, c: B, d: B)
    ensures Fold(step, s, [a, b, c, d]) == step(step(step(step(s, a), b), c), d)
  {
    FoldSnoc(step, s, [], a);
    FoldSnoc(step, s, [a], b);
    FoldSnoc(step, s, [a, b], c);
    FoldSnoc(step, s, [a, b, c], d);
    assert [] + [a] == [a] && [a] + [b] == [a, b] && [a, b] + [c] == [a, b, c] && [a, b, c] + [d] == [a, b, c, d];
  }

  lemma CheckValueSteps()
    ensures ShiftInOctet(0xffff_ffff, 0x31) == 0x7c23_1048
    ensures ShiftInOctet(0x7c23_1048, 0x32) == 0xb0ac_bb32
    ensures ShiftInOctet(0xb0ac_bb32, 0x33) == 0x77b7_9c2d
    ensures ShiftInOctet(0x77b7_9c2d, 0x34) == 0x641c_1f5c
    ensures ShiftInOctet(0x641c_1f5c, 0x35) == 0x340a_c5e3
    ensures ShiftInOctet(0x340a_c5e3, 0x36) == 0xf68d_2c9e
    ensures ShiftInOctet(0xf68d_2c9e, 0x37) == 0xaffc_9660
    ensures ShiftInOctet(0xaffc_9660, 0x38) == 0x651f_2550
    ensures ShiftInOctet(0x651f_2550, 0x39) == 0x340b_c6d9
  {
  }
}
