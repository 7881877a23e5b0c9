// What the CRC cannot miss: any burst of at most 32 bits, wherever it begins.
//
// The bits are taken in the order in which the reflected register shifts them in, the least
// significant bit of each octet first.
module CrcBursts {
  import opened Bytes
  import opened CrcTable
  import opened Crc32
  import opened Folds
  import RegisterAlgebra

  // ----- the register, bit by bit -----

  function BitWord(b: bool): bv32 {
    if b then 1 else 0
  }

  function ShiftInBit(c: bv32, b: bool): bv32 {
    BitStep(Xor(c, BitWord(b)))
  }

  function BitsOf(b: byte): seq<bool> {
    [b % 2 == 1, b / 2 % 2 == 1, b / 4 % 2 == 1, b / 8 % 2 == 1,
     b / 16 % 2 == 1, b / 32 % 2 == 1, b / 64 % 2 == 1, b / 128 % 2 == 1]
  }

  function BitStream(buf: seq<byte>): seq<bool> {
    Concat(BitsOf, buf)
  }

  function Up(d: bv32): bv32 {
    d << 1
  }

  function Half(d: bv32): bv32 {
    d >> 1
  }

  // The register difference that the bits make if they are all added at once.
  function Sum(bits: seq<bool>): bv32 {
    if bits == [] then 0 else Xor(BitWord(bits[0]), Up(Sum(bits[1..])))
  }

  lemma BitStepZero(x: bv32)
    requires BitStep(x) == 0
    ensures x == 0
  {
  }

  lemma XorCommutes(a: bv32, b: bv32)
    ensures Xor(a, b) == Xor(b, a)
  {
  }

  lemma XorAssociates(a: bv32, b: bv32, c: bv32)
    ensures Xor(Xor(a, b), c) == Xor(a, Xor(b, c))
  {
  }

  lemma XorNeutral(a: bv32)
    ensures Xor(a, a) == 0 && Xor(a, 0) == a
  {
  }

  lemma XorZero(a: bv32, b: bv32)
    ensures Xor(a, b) == 0 <==> a == b
  {
    hide Xor;
    XorAssociates(a, b, b);
    XorNeutral(a);
    XorNeutral(b);
    XorCommutes(0, b);
  }

  // n bits can still cancel the difference d.
  ghost predicate Small(n: nat, d: bv32) {
    Iterate(Half, n, d) == 0
  }

  lemma {:induction false} IterateAdd<T>(f: T -> T, m: nat, n: nat, x: T)
    ensures Iterate(f, m + n, x) == Iterate(f, n, Iterate(f, m, x))
  {
    if m > 0 {
      IterateAdd(f, m - 1, n, f(x));
    }
  }

  lemma {:induction false} IterateStays<T>(f: T -> T, n: nat, x: T)
    requires f(x) == x
    ensures Iterate(f, n, x) == x
  {
    if n > 0 {
      IterateStays(f, n - 1, x);
    }
  }

  lemma HalfSeven(x: bv32)
    ensures Iterate(Half, 7, x) == x >> 7
  {
    calc {
      Iterate(Half, 7, x);
      Iterate(Half, 5, Half(Half(x)));
      Iterate(Half, 3, Half(Half(Half(Half(x)))));
      Half(Half(Half(Half(Half(Half(Half(x)))))));
    }
  }

  lemma HalfEight(x: bv32)
    ensures Iterate(Half, 8, x) == x >> 8
  {
    HalfSeven(Half(x));
    assert Iterate(Half, 8, x) == Iterate(Half, 7, Half(x));
  }

  lemma HalfAll(x: bv32)
    ensures Iterate(Half, 31, x) == x >> 31
  {
    hide Iterate, Half;
    var a := Iterate(Half, 8, x);
    var b := Iterate(Half, 8, a);
    var c := Iterate(Half, 8, b);
    IterateAdd(Half, 8, 23, x);
    IterateAdd(Half, 8, 15, a);
    IterateAdd(Half, 8, 7, b);
    HalfEight(x);
    HalfEight(a);
    HalfEight(b);
    HalfSeven(c);
    Shifts(x, a, b, c);
  }

  lemma Shifts(x: bv32, a: bv32, b: bv32, c: bv32)
    requires a == x >> 8 && b == a >> 8 && c == b >> 8
    ensures c >> 7 == x >> 31
  {
  }

  lemma TopOf(d: bv32)
    requires d >> 31 == 0
    ensures d & 0x8000_0000 == 0
  {
  }

  lemma TopClear(n: nat, d: bv32)
    requires n <= 31 && Small(n, d)
    ensures d & 0x8000_0000 == 0
  {
    IterateAdd(Half, n, 31 - n, d);
    IterateStays(Half, 31 - n, 0);
    HalfAll(d);
    TopOf(d);
  }

  lemma StepOfUp(d: bv32)
    requires d & 0x8000_0000 == 0
    ensures BitStep(Up(d)) == d
  {
  }

  lemma HalfOfSum(d: bv32, w: bv32)
    requires d & 0x8000_0000 == 0 && w <= 1
    ensures Half(Xor(Up(d), w)) == d
    ensures Xor(Up(d), w) == 0 ==> d == 0 && w == 0
  {
  }

  lemma HalfOfFlippedSum(d: bv32, w: bv32)
    requires d & 0x8000_0000 == 0 && w <= 1
    ensures Half(Xor(w, Up(d))) == d
  {
    hide Half, Xor, Up;
    XorCommutes(w, Up(d));
    HalfOfSum(d, w);
  }

  // ----- eight bits make an octet -----

  lemma {:induction false} SumSmall(bits: seq<bool>)
    requires |bits| <= 31
    ensures Small(|bits|, Sum(bits))
  {
    if bits != [] {
      var rest := Sum(bits[1..]);
      SumSmall(bits[1..]);
      TopClear(|bits| - 1, rest);
      HalfOfFlippedSum(rest, BitWord(bits[0]));
    }
  }

  // Adding the bits one at a time is adding them all at once.
  lemma {:induction false} FoldBits(c: bv32, bits: seq<bool>)
    requires |bits| <= 31
    ensures Fold(ShiftInBit, c, bits) == Iterate(BitStep, |bits|, Xor(c, Sum(bits)))
    decreases bits
  {
    hide Xor, BitStep, Up, Small, BitWord;
    if bits == [] {
      XorNeutral(c);
    } else {
      var w, rest := BitWord(bits[0]), Sum(bits[1..]);
      FoldBits(ShiftInBit(c, bits[0]), bits[1..]);
      SumSmall(bits[1..]);
      TopClear(|bits| - 1, rest);
      StepOfUp(rest);
      StepLinear(Xor(c, w), Up(rest));
      XorAssociates(c, w, Up(rest));
    }
  }

  lemma StepLinear(a: bv32, b: bv32)
    ensures BitStep(Xor(a, b)) == Xor(BitStep(a), BitStep(b))
  {
    hide BitStep, Xor;
    BitStepsLinear(1, a, b);
    OneStep(a);
    OneStep(b);
    OneStep(Xor(a, b));
  }

  lemma OneStep(x: bv32)
    ensures Iterate(BitStep, 1, x) == BitStep(x)
  {
    hide BitStep;
  }

  lemma SumCons(b: bool, rest: seq<bool>)
    ensures Sum([b] + rest) == Xor(BitWord(b), Up(Sum(rest)))
  {
    assert ([b] + rest)[1..] == rest;
  }

  function Nest(a: bool, b: bool, c: bool, d: bool, rest: bv32): bv32 {
    Xor(BitWord(a), Up(Xor(BitWord(b), Up(Xor(BitWord(c), Up(Xor(BitWord(d), Up(rest))))))))
  }

  lemma SumFour(a: bool, b: bool, c: bool, d: bool, rest: seq<bool>)
    ensures Sum([a, b, c, d] + rest) == Nest(a, b, c, d, Sum(rest))
  {
    hide Sum;
    SumCons(d, rest);
    SumCons(c, [d] + rest);
    SumCons(b, [c] + ([d] + rest));
    SumCons(a, [b] + ([c] + ([d] + rest)));
    assert [a, b, c, d] + rest == [a] + ([b] + ([c] + ([d] + rest)));
  }

  lemma LowFour(o: bv32, b0: bool, b1: bool, b2: bool, b3: bool)
    requires (o & 1 == 1 <==> b0) && (o & 2 == 2 <==> b1) && (o & 4 == 4 <==> b2) && (o & 8 == 8 <==> b3)
    ensures BitWord(b0) == o & 1 && BitWord(b1) == (o >> 1) & 1 && BitWord(b2) == (o >> 2) & 1 && BitWord(b3) == (o >> 3) & 1
  {
  }

  lemma HighFour(o: bv32, b4: bool, b5: bool, b6: bool, b7: bool)
    requires (o & 16 == 16 <==> b4) && (o & 32 == 32 <==> b5) && (o & 64 == 64 <==> b6) && (o & 128 == 128 <==> b7)
    ensures BitWord(b4) == (o >> 4) & 1 && BitWord(b5) == (o >> 5) & 1
    ensures BitWord(b6) == (o >> 6) & 1 && BitWord(b7) == (o >> 7) & 1
  {
  }

  lemma NestOfBits(o: bv32, w0: bv32, w1: bv32, w2: bv32, w3: bv32, w4: bv32, w5: bv32, w6: bv32, w7: bv32)
    requires o <= 0xff
    requires w0 == o & 1 && w1 == (o >> 1) & 1 && w2 == (o >> 2) & 1 && w3 == (o >> 3) & 1
    requires w4 == (o >> 4) & 1 && w5 == (o >> 5) & 1 && w6 == (o >> 6) & 1 && w7 == (o >> 7) & 1
    ensures o == Xor(w0, Up(Xor(w1, Up(Xor(w2, Up(Xor(w3, Up(Xor(w4, Up(Xor(w5, Up(Xor(w6, Up(Xor(w7, Up(0))))))))))))))))
  {
  }

  lemma Assemble(o: bv32, b0: bool, b1: bool, b2: bool, b3: bool, b4: bool, b5: bool, b6: bool, b7: bool)
    requires o <= 0xff
    requires (o & 1 == 1 <==> b0) && (o & 2 == 2 <==> b1) && (o & 4 == 4 <==> b2) && (o & 8 == 8 <==> b3)
    requires (o & 16 == 16 <==> b4) && (o & 32 == 32 <==> b5) && (o & 64 == 64 <==> b6) && (o & 128 == 128 <==> b7)
    ensures o == Nest(b0, b1, b2, b3, Nest(b4, b5, b6, b7, 0))
  {
    hide Xor, Up, BitWord;
    LowFour(o, b0, b1, b2, b3);
    HighFour(o, b4, b5, b6, b7);
    NestOfBits(o, BitWord(b0), BitWord(b1), BitWord(b2), BitWord(b3), BitWord(b4), BitWord(b5), BitWord(b6), BitWord(b7));
  }

  lemma OctetBits(b: byte)
    ensures var o := b as bv32;
            && (o & 1 == 1 <==> b % 2 == 1)
            && (o & 2 == 2 <==> b / 2 % 2 == 1)
            && (o & 4 == 4 <==> b / 4 % 2 == 1)
            && (o & 8 == 8 <==> b / 8 % 2 == 1)
            && (o & 16 == 16 <==> b / 16 % 2 == 1)
            && (o & 32 == 32 <==> b / 32 % 2 == 1)
            && (o & 64 == 64 <==> b / 64 % 2 == 1)
            && (o & 128 == 128 <==> b / 128 % 2 == 1)
  {
  }

  lemma SumOfBits(o: bv32, b0: bool, b1: bool, b2: bool, b3: bool, b4: bool, b5: bool, b6: bool, b7: bool)
    requires o <= 0xff
    requires (o & 1 == 1 <==> b0) && (o & 2 == 2 <==> b1) && (o & 4 == 4 <==> b2) && (o & 8 == 8 <==> b3)
    requires (o & 16 == 16 <==> b4) && (o & 32 == 32 <==> b5) && (o & 64 == 64 <==> b6) && (o & 128 == 128 <==> b7)
    ensures Sum([b0, b1, b2, b3, b4, b5, b6, b7]) == o
  {
    hide Nest, Sum;
    Assemble(o, b0, b1, b2, b3, b4, b5, b6, b7);
    SumFour(b4, b5, b6, b7, []);
    SumFour(b0, b1, b2, b3, [b4, b5, b6, b7]);
    SumNothing();
    assert [b4, b5, b6, b7] + [] == [b4, b5, b6, b7];
    assert [b0, b1, b2, b3] + [b4, b5, b6, b7] == [b0, b1, b2, b3, b4, b5, b6, b7];
  }

  lemma SumOfOctet(b: byte)
    ensures Sum(BitsOf(b)) == Word(b)
  {
    hide Sum;
    OctetBits(b);
    OctetIsSmall(b);
    SumOfBits(b as bv32, b % 2 == 1, b / 2 % 2 == 1, b / 4 % 2 == 1, b / 8 % 2 == 1,
              b / 16 % 2 == 1, b / 32 % 2 == 1, b / 64 % 2 == 1, b / 128 % 2 == 1);
  }

  lemma SumNothing()
    ensures Sum([]) == 0
  {
  }

  lemma OctetByBits(c: bv32, b: byte)
    ensures ShiftInOctet(c, b) == Fold(ShiftInBit, c, BitsOf(b))
  {
    hide Sum, BitStep, Xor, Word;
    FoldBits(c, BitsOf(b));
    SumOfOctet(b);
  }

  // The CRC is that of the stream of bits.
  lemma CrcByBits(buf: seq<byte>)
    ensures Crc(buf) == Not(Fold(ShiftInBit, 0xffff_ffff, BitStream(buf)))
  {
    hide ShiftInOctet, ShiftInBit, BitsOf;
    forall t, a
      ensures ShiftInOctet(t, a) == Fold(ShiftInBit, t, BitsOf(a))
    {
      OctetByBits(t, a);
    }
    FoldConcat(ShiftInOctet, ShiftInBit, BitsOf, 0xffff_ffff, buf);
  }

  // ----- the register has room for 32 bits -----

  lemma XorGroup()
    ensures RegisterAlgebra.Group(Xor, 0)
  {
    forall x, y
      ensures Xor(x, y) == Xor(y, x)
    {
      XorCommutes(x, y);
    }
    forall x, y, z
      ensures Xor(Xor(x, y), z) == Xor(x, Xor(y, z))
    {
      XorAssociates(x, y, z);
    }
    forall x
      ensures Xor(x, x) == 0
    {
      XorNeutral(x);
    }
    forall x
      ensures Xor(x, 0) == x
    {
      XorNeutral(x);
    }
  }

  lemma BitStepInjective(a: bv32, b: bv32)
    requires BitStep(a) == BitStep(b)
    ensures a == b
  {
    StepLinear(a, b);
    XorZero(BitStep(a), BitStep(b));
    BitStepZero(Xor(a, b));
    XorZero(a, b);
  }

  lemma BitsCancel(a: bool, b: bool)
    ensures Xor(BitWord(a), BitWord(b)) <= 1 && (Xor(BitWord(a), BitWord(b)) == 0 ==> a == b)
  {
  }

  lemma RoomForBit(n: nat, d: bv32, a: bool, b: bool)
    requires n < 32 && Small(n, d)
    ensures BitStep(Up(d)) == d
    ensures var before := RegisterAlgebra.Before(Xor, BitWord, Up, d, a, b);
            Small(n + 1, before) && (before == 0 ==> d == 0 && a == b)
  {
    hide Xor, Up, BitStep, BitWord, Half;
    TopClear(n, d);
    StepOfUp(d);
    BitsCancel(a, b);
    HalfOfSum(d, Xor(BitWord(a), BitWord(b)));
  }

  lemma BitStepLaws()
    ensures RegisterAlgebra.Linear(BitStep, Xor) && RegisterAlgebra.Injective(BitStep)
  {
    hide Xor, BitStep;
    forall x, y
      ensures BitStep(Xor(x, y)) == Xor(BitStep(x), BitStep(y))
    {
      StepLinear(x, y);
    }
    forall x, y | BitStep(x) == BitStep(y)
      ensures x == y
    {
      BitStepInjective(x, y);
    }
  }

  lemma BitRegisterLaws()
    ensures RegisterAlgebra.SelfInverse(Xor, 0)
    ensures RegisterAlgebra.Linear(BitStep, Xor) && RegisterAlgebra.Injective(BitStep)
    ensures RegisterAlgebra.Room(BitStep, Xor, 0, BitWord, Up, Small, 32)
  {
    hide *;
    XorGroup();
    RegisterAlgebra.GroupCancels(Xor, 0);
    BitStepLaws();
    RoomForBits();
  }

  lemma RoomForBits()
    ensures RegisterAlgebra.Room(BitStep, Xor, 0, BitWord, Up, Small, 32)
  {
    hide Xor, Up, BitStep, BitWord;
    forall n: nat, d | n < 32 && Small(n, d)
      ensures BitStep(Up(d)) == d
    {
      RoomForBit(n, d, false, false);
    }
    forall n: nat, d, a, b {:trigger Small(n, d), RegisterAlgebra.Before(Xor, BitWord, Up, d, a, b)} | n < 32 && Small(n, d)
      ensures Small(n + 1, RegisterAlgebra.Before(Xor, BitWord, Up, d, a, b))
      ensures RegisterAlgebra.Before(Xor, BitWord, Up, d, a, b) == 0 ==> d == 0 && a == b
    {
      RoomForBit(n, d, a, b);
    }
  }

  lemma NotInjective(a: bv32, b: bv32)
    requires Not(a) == Not(b)
    ensures a == b
  {
  }

  // ----- what follows for buffers -----

  lemma BitsDetermine(a: byte, b: byte)
    requires a % 2 == b % 2 && a / 2 % 2 == b / 2 % 2 && a / 4 % 2 == b / 4 % 2 && a / 8 % 2 == b / 8 % 2
    requires a / 16 % 2 == b / 16 % 2 && a / 32 % 2 == b / 32 % 2 && a / 64 % 2 == b / 64 % 2 && a / 128 % 2 == b / 128 % 2
    ensures a == b
  {
    Nested(a);
    Nested(b);
    HighDetermine(a / 16, b / 16);
    HalvesDetermine(a / 8, b / 8, a / 16, b / 16);
    HalvesDetermine(a / 4, b / 4, a / 8, b / 8);
    HalvesDetermine(a / 2, b / 2, a / 4, b / 4);
    HalvesDetermine(a, b, a / 2, b / 2);
  }

  lemma Nested(a: byte)
    ensures a / 16 / 2 == a / 32 && a / 16 / 4 == a / 64 && a / 16 / 8 == a / 128
    ensures a / 8 / 2 == a / 16 && a / 4 / 2 == a / 8 && a / 2 / 2 == a / 4
  {
  }

  lemma HighDetermine(x: nat, y: nat)
    requires x < 16 && y < 16
    requires x % 2 == y % 2 && x / 2 % 2 == y / 2 % 2 && x / 4 % 2 == y / 4 % 2 && x / 8 % 2 == y / 8 % 2
    ensures x == y
  {
    HalvesDetermine(x / 4, y / 4, x / 8, y / 8);
    HalvesDetermine(x / 2, y / 2, x / 4, y / 4);
    HalvesDetermine(x, y, x / 2, y / 2);
  }

  lemma HalvesDetermine(a: int, b: int, x: int, y: int)
    requires a / 2 == x && b / 2 == y && x == y && a % 2 == b % 2
    ensures a == b
  {
  }

  lemma {:induction false} StreamAt(buf: seq<byte>, i: nat, j: nat)
    requires i < |buf| && j < 8
    ensures |BitStream(buf)| == 8 * |buf| && BitStream(buf)[8 * i + j] == BitsOf(buf[i])[j]
  {
    StreamLength(buf);
    if i > 0 {
      StreamAt(buf[1..], i - 1, j);
      assert BitStream(buf)[8 * i + j] == BitStream(buf[1..])[8 * (i - 1) + j];
    }
  }

  lemma {:induction false} StreamLength(buf: seq<byte>)
    ensures |BitStream(buf)| == 8 * |buf|
  {
    if buf != [] {
      StreamLength(buf[1..]);
    }
  }

  lemma StreamDetermines(a: seq<byte>, b: seq<byte>)
    requires |a| == |b| && BitStream(a) == BitStream(b)
    ensures a == b
  {
    hide BitStream;
    forall i | 0 <= i < |a|
      ensures a[i] == b[i]
    {
      forall j | 0 <= j < 8
        ensures BitsOf(a[i])[j] == BitsOf(b[i])[j]
      {
        StreamAt(a, i, j);
        StreamAt(b, i, j);
      }
      SameBits(a[i], b[i]);
    }
  }

  lemma SameBits(a: byte, b: byte)
    requires forall j | 0 <= j < 8 :: BitsOf(a)[j] == BitsOf(b)[j]
    ensures a == b
  {
    assert BitsOf(a) == BitsOf(b);
    BitsDetermine(a, b);
  }

  lemma StreamBurst(p: seq<bool>, u: seq<bool>, v: seq<bool>, q: seq<bool>)
    requires |u| == |v| <= 32
    ensures Not(Fold(ShiftInBit, 0xffff_ffff, p + u + q)) == Not(Fold(ShiftInBit, 0xffff_ffff, p + v + q)) <==> u == v
  {
    hide BitStep, Xor, BitWord, Up, Small, Not;
    BitRegisterLaws();
    forall x, y | Not(x) == Not(y)
      ensures x == y
    {
      NotInjective(x, y);
    }
    RegisterAlgebra.WindowSeen(BitStep, Xor, 0, BitWord, Up, Small, 32, ShiftInBit, Not, 0xffff_ffff, p, u, v, q);
  }

  // a and b differ, if at all, in the `n` bits from bit w on.
  ghost predicate DifferWithin(a: seq<byte>, b: seq<byte>, w: nat, n: nat) {
    |a| == |b| && |BitStream(a)| == |BitStream(b)| &&
    forall i | 0 <= i < |BitStream(a)| && !(w <= i < w + n) :: BitStream(a)[i] == BitStream(b)[i]
  }

  lemma SplitAt(s: seq<bool>, t: seq<bool>, lo: nat, hi: nat)
    requires lo <= hi <= |s| == |t| && forall i | 0 <= i < |s| && !(lo <= i < hi) :: s[i] == t[i]
    ensures s == s[..lo] + s[lo..hi] + s[hi..]
    ensures t == s[..lo] + t[lo..hi] + s[hi..]
  {
  }

  // A burst of at most 32 bits never goes unnoticed.
  lemma BurstDetected(a: seq<byte>, b: seq<byte>, w: nat)
    requires DifferWithin(a, b, w, 32)
    ensures Crc(a) == Crc(b) <==> a == b
  {
    hide Crc, BitStream, ShiftInBit, Not;
    var s, t := BitStream(a), BitStream(b);
    var lo := if w <= |s| then w else |s|;
    var hi := if w + 32 <= |s| then w + 32 else |s|;
    CrcByBits(a);
    CrcByBits(b);
    SplitAt(s, t, lo, hi);
    StreamBurst(s[..lo], s[lo..hi], t[lo..hi], s[hi..]);
    if s == t {
      StreamDetermines(a, b);
    }
  }

  // a and b differ, if at all, within 32 neighbouring bits.
  ghost predicate Near(a: seq<byte>, b: seq<byte>) {
    exists w: nat :: DifferWithin(a, b, w, 32)
  }

  lemma NearDetected(a: seq<byte>, b: seq<byte>)
    requires Near(a, b)
    ensures Crc(a) == Crc(b) <==> a == b
  {
    hide Crc, DifferWithin;
    var w: nat :| DifferWithin(a, b, w, 32);
    BurstDetected(a, b, w);
  }

  // Four neighbouring octets are such a window.
  lemma FourOctetsAreNear(a: seq<byte>, b: seq<byte>, w: nat)
    requires |a| == |b| && forall i | 0 <= i < |a| && !(w <= i < w + 4) :: a[i] == b[i]
    ensures Near(a, b)
  {
    hide BitStream;
    StreamLength(a);
    StreamLength(b);
    forall i | 0 <= i < |BitStream(a)| && !(8 * w <= i < 8 * w + 32)
      ensures BitStream(a)[i] == BitStream(b)[i]
    {
      StreamAt(a, i / 8, i % 8);
      StreamAt(b, i / 8, i % 8);
    }
    assert DifferWithin(a, b, 8 * w, 32);
  }

  lemma FoldFive<S, B>(step: (S, B) -> S, s: S, a: B, b: B, c: B, d: B, e: B)
    ensures Fold(step, s, [a, b, c, d, e]) == step(step(step(step(step(s, a), b), c), d), e)
  {
    FoldSnoc(step, s, [], a);
    FoldSnoc(step, s, [a], b);
    FoldSnoc(step, s, [a, b], c);
    FoldSnoc(step, s, [a, b, c], d);
    FoldSnoc(step, s, [a, b, c, d], e);
    assert [] + [a] == [a] && [a] + [b] == [a, b] && [a, b] + [c] == [a, b, c];
    assert [a, b, c] + [d] == [a, b, c, d] && [a, b, c, d] + [e] == [a, b, c, d, e];
  }

  lemma DifferAtStart(a: seq<byte>, b: seq<byte>)
    requires |a| == |b| == 5 && a[4] == 0 && b[4] == 1
    ensures DifferWithin(a, b, 0, 33)
  {
    hide BitStream;
    StreamLength(a);
    StreamLength(b);
    forall i | 33 <= i < 40
      ensures BitStream(a)[i] == BitStream(b)[i]
    {
      StreamAt(a, 4, i - 32);
      StreamAt(b, 4, i - 32);
    }
  }

  // 33 bits are too many: these two buffers collide.
  lemma LongerBurstsCanHide() returns (a: seq<byte>, b: seq<byte>)
    ensures a == [0, 0, 0, 0, 0] && b == [0x41, 0x06, 0x71, 0xdb, 0x01]
    ensures DifferWithin(a, b, 0, 33) && Crc(a) == Crc(b)
  {
    hide DifferWithin;
    a, b := [0, 0, 0, 0, 0], [0x41, 0x06, 0x71, 0xdb, 0x01];
    DifferAtStart(a, b);
    FoldFive(ShiftInOctet, 0xffff_ffff, 0, 0, 0, 0, 0);
    FoldFive(ShiftInOctet, 0xffff_ffff, 0x41, 0x06, 0x71, 0xdb, 0x01);
    assert ShiftInOctet(0xffff_ffff, 0x00) == 0x2dfd_1072;
    assert ShiftInOctet(0x2dfd_1072, 0x00) == 0xbe26_ed00;
    assert ShiftInOctet(0xbe26_ed00, 0x00) == 0x00be_26ed;
    assert ShiftInOctet(0x00be_26ed, 0x00) == 0xdebb_20e3;
    assert ShiftInOctet(0xdebb_20e3, 0x00) == 0x39dd_08e2;
    assert ShiftInOctet(0xffff_ffff, 0x41) == 0x2c26_6174;
    assert ShiftInOctet(0x2c26_6174, 0x06) == 0xbe27_3671;
    assert ShiftInOctet(0xbe27_3671, 0x71) == 0x00be_2736;
    assert ShiftInOctet(0x00be_2736, 0xdb) == 0xdebb_20e2;
    assert ShiftInOctet(0xdebb_20e2, 0x01) == 0x39dd_08e2;
  }
}
