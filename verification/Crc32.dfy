// kernel/src/crc32.h: the CRC by which the daemon notices that the colour table changed.
//
// The reference divides bit by bit: each octet is added to a register preset to all ones, eight
// reflected division steps follow, and the register is complemented at the end (section 8 of
// RFC 1952).
module Crc32 {
  import opened Bytes
  import opened CrcTable
  import opened Folds

  // ----- reference definition -----

  function Xor(a: bv32, b: bv32): bv32 {
    a ^ b
  }

  function Word(b: byte): bv32 {
    b as bv32
  }

  function ByteStep(c: bv32): bv32 {
    Iterate(BitStep, 8, c)
  }

  function ShiftInOctet(c: bv32, b: byte): bv32 {
    ByteStep(Xor(c, Word(b)))
  }

  function Not(c: bv32): bv32 {
    !c
  }

  function Crc(buf: seq<byte>): bv32 {
    Not(Fold(ShiftInOctet, 0xffff_ffff, buf))
  }

  // ----- GF(2) linearity of the register step -----

  lemma BothEven(a: bv32, b: bv32)
    requires a & 1 == 0 && b & 1 == 0
    ensures (a ^ b) & 1 == 0 && (a ^ b) >> 1 == (a >> 1) ^ (b >> 1)
  {
  }

  lemma OddEven(a: bv32, b: bv32)
    requires a & 1 == 1 && b & 1 == 0
    ensures (a ^ b) & 1 == 1
    ensures ((a ^ b) >> 1) ^ 0xedb88320 == ((a >> 1) ^ 0xedb88320) ^ (b >> 1)
  {
  }

  lemma BothOdd(a: bv32, b: bv32)
    requires a & 1 == 1 && b & 1 == 1
    ensures (a ^ b) & 1 == 0
    ensures (a ^ b) >> 1 == ((a >> 1) ^ 0xedb88320) ^ ((b >> 1) ^ 0xedb88320)
  {
  }

  lemma LinearWhenOdd(a: bv32, b: bv32)
    requires a & 1 == 1
    ensures BitStep(a ^ b) == BitStep(a) ^ BitStep(b)
  {
    if b & 1 == 1 {
      BothOdd(a, b);
    } else {
      OddEven(a, b);
    }
  }

  lemma BitStepLinear(a: bv32, b: bv32)
    ensures BitStep(a ^ b) == BitStep(a) ^ BitStep(b)
  {
    if a & 1 == 1 {
      LinearWhenOdd(a, b);
    } else if b & 1 == 1 {
      LinearWhenOdd(b, a);
      assert a ^ b == b ^ a;
      assert BitStep(a) ^ BitStep(b) == BitStep(b) ^ BitStep(a);
    } else {
      BothEven(a, b);
    }
  }

  lemma {:induction false} IterateLinear<T(!new)>(f: T -> T, plus: (T, T) -> T, n: nat, a: T, b: T)
    requires forall x, y :: f(plus(x, y)) == plus(f(x), f(y))
    ensures Iterate(f, n, plus(a, b)) == plus(Iterate(f, n, a), Iterate(f, n, b))
  {
    if n > 0 {
      IterateLinear(f, plus, n - 1, f(a), f(b));
    }
  }

  // Any number of bit steps distributes over exclusive or.
  lemma BitStepsLinear(n: nat, a: bv32, b: bv32)
    ensures Iterate(BitStep, n, Xor(a, b)) == Xor(Iterate(BitStep, n, a), Iterate(BitStep, n, b))
  {
    forall x, y
      ensures BitStep(Xor(x, y)) == Xor(BitStep(x), BitStep(y))
    {
      BitStepLinear(x, y);
    }
    IterateLinear(BitStep, Xor, n, a, b);
  }

  lemma EightStepsIterate(x: bv32)
    ensures ByteStep(x) == EightSteps(x)
  {
    calc {
      Iterate(BitStep, 8, x);
      Iterate(BitStep, 6, BitStep(BitStep(x)));
      Iterate(BitStep, 4, BitStep(BitStep(BitStep(BitStep(x)))));
      Iterate(BitStep, 2, BitStep(BitStep(BitStep(BitStep(BitStep(BitStep(x)))))));
    }
  }

  lemma ByteStepLinear(a: bv32, b: bv32)
    ensures ByteStep(Xor(a, b)) == Xor(ByteStep(a), ByteStep(b))
  {
    BitStepsLinear(8, a, b);
  }

  // Zero bits leave without disturbing the rest.
  lemma EightStepsOfHigh(x: bv32)
    requires x & 0xff == 0
    ensures EightSteps(x) == x >> 8
  {
  }

  lemma ByteStepOfHigh(x: bv32)
    requires x & 0xff == 0
    ensures ByteStep(x) == x >> 8
  {
    EightStepsIterate(x);
    EightStepsOfHigh(x);
  }

  // ----- the table-driven form -----

  // UPDC32
  function Updc32(octet: bv32, crc: bv32): bv32 {
    Entry((crc ^ octet) & 0xff) ^ (crc >> 8)
  }

  function UpdateCrc(crc: bv32, octet: byte): bv32 {
    Updc32(octet as bv32, crc)
  }

  lemma SplitOctet(c: bv32, o: bv32, x: bv32, low: bv32, high: bv32, c8: bv32)
    requires o <= 0xff && x == c ^ o && low == x & 0xff && high == x & 0xffff_ff00 && c8 == c >> 8
    ensures x == Xor(low, high) && low <= 0xff && high & 0xff == 0 && high >> 8 == c8
  {
  }

  lemma TableForLow(x: bv32, low: bv32, high: bv32, c8: bv32)
    requires x == Xor(low, high) && low <= 0xff && high & 0xff == 0 && high >> 8 == c8
    ensures Xor(Entry(low), c8) == ByteStep(x)
  {
    ByteStepLinear(low, high);
    ByteStepOfHigh(high);
    TableIsBitwise(low);
    EightStepsIterate(low);
  }

  lemma TableForOctet(c: bv32, o: bv32, x: bv32, low: bv32, c8: bv32)
    requires o <= 0xff && x == c ^ o && low == x & 0xff && c8 == c >> 8
    ensures Xor(Entry(low), c8) == ByteStep(x)
  {
    var high := x & 0xffff_ff00;
    SplitOctet(c, o, x, low, high, c8);
    TableForLow(x, low, high, c8);
  }

  lemma OctetIsSmall(b: byte)
    ensures b as bv32 <= 0xff
  {
  }

  // One table lookup is eight bit steps.
  lemma Updc32IsByteStep(o: bv32, c: bv32)
    requires o <= 0xff
    ensures Updc32(o, c) == ByteStep(c ^ o)
  {
    TableForOctet(c, o, c ^ o, (c ^ o) & 0xff, c >> 8);
  }

  lemma UpdateIsByteStep(c: bv32, b: byte)
    ensures UpdateCrc(c, b) == ShiftInOctet(c, b)
  {
    OctetIsSmall(b);
    Updc32IsByteStep(b as bv32, c);
  }

  // The table-driven CRC is the bitwise one.
  lemma TableDrivenIsBitwise(c: bv32, buf: seq<byte>)
    ensures Fold(UpdateCrc, c, buf) == Fold(ShiftInOctet, c, buf)
  {
    forall t, b
      ensures UpdateCrc(t, b) == ShiftInOctet(t, b)
    {
      UpdateIsByteStep(t, b);
    }
    FoldAgree(UpdateCrc, ShiftInOctet, c, buf);
  }

  // fb_crc32buf
  method Crc32Buf(buf: array<byte>, len: nat) returns (crc: bv32)
    requires len <= buf.Length
    ensures crc == Crc(buf[..len])
  {
    var oldcrc32: bv32 := 0xffff_ffff;
    var n, p := len, 0;
    while n != 0
      invariant p + n == len
      invariant oldcrc32 == Fold(UpdateCrc, 0xffff_ffff, buf[..p])
      decreases n
    {
      FoldSnoc(UpdateCrc, 0xffff_ffff, buf[..p], buf[p]);
      assert buf[..p] + [buf[p]] == buf[..p + 1];
      oldcrc32 := UpdateCrc(oldcrc32, buf[p]);
      n, p := n - 1, p + 1;
    }
    TableDrivenIsBitwise(0xffff_ffff, buf[..len]);
    crc := Not(oldcrc32);
  }
}
