// app/frame_buffer.c, lines 189-314: copying one row of the screen, expanding its pixels to one
// octet each and noting which words of the destination were different.
module RowCopy {
  import opened Bytes
  import opened Driver
  import opened Luts

  // The meaning of a row of `depth`-bit pixels that starts at address src.
  function Pixel(depth: nat, image: int -> byte, src: int, x: nat): byte
    requires depth in {1, 2, 4, 8}
  {
    Field(depth, image(src + x / (8 / depth)), x % (8 / depth))
  }

  ghost function RowOf(depth: nat, image: int -> byte, src: int): nat -> byte
    requires depth in {1, 2, 4, 8}
  {
    x => Pixel(depth, image, src, x)
  }

  // The size of the words that are compared, in octets.
  function Unit(depth: nat): nat {
    if depth == 4 then 2 else 4
  }

  // How many columns of a row get copied: whole words or source octets only.
  function Covered(depth: nat, width: nat): nat
    requires depth in {1, 2, 4, 8}
  {
    match depth
    case 1 => width / 8 * 8
    case 4 => width / 2 * 2
    case _ => width / 4 * 4
  }

  // The scan of a row at `dst` has reached column `done`. What it reports is true whatever the
  // screen did meanwhile: no octet changed but in the columns xstart..xend, which are whole words.
  ghost predicate Scanned(before: seq<byte>, now: seq<byte>, dst: nat, done: nat, unit: nat,
                          changed: bool, xstart: int, xend: int)
    requires unit > 0
  {
    && |now| == |before| && dst + done <= |now|
    && if changed then
         && 0 <= xstart <= xend < done && xstart % unit == 0 && (xend + 1) % unit == 0
         && forall k | 0 <= k < |now| && !(dst + xstart <= k <= dst + xend) :: now[k] == before[k]
       else
         xstart == -1 && now == before
  }

  ghost predicate WordDiffers(before: seq<byte>, now: seq<byte>, at: nat, unit: nat)
    requires at + unit <= |before| == |now|
  {
    exists k | at <= k < at + unit :: before[k] != now[k]
  }

  // The words that the report names really did change.
  ghost predicate Tight(before: seq<byte>, now: seq<byte>, dst: nat, unit: nat, changed: bool, xstart: int, xend: int)
    requires unit > 0 && |before| == |now|
  {
    changed ==>
      && 0 <= xstart && dst + xstart + unit <= |now| && WordDiffers(before, now, dst + xstart, unit)
      && unit - 1 <= xend && dst + xend < |now| && WordDiffers(before, now, dst + xend + 1 - unit, unit)
  }

  ghost predicate Shown(now: seq<byte>, pixel: nat -> byte, dst: nat, done: nat) {
    dst + done <= |now| && forall x: nat | x < done :: now[dst + x] == pixel(x)
  }

  // All that is known when the scan has reached `done`. `stable`: the screen has held still.
  ghost predicate Progress(before: seq<byte>, now: seq<byte>, unit: nat, pixel: nat -> byte, dst: nat, done: nat,
                           changed: bool, xstart: int, xend: int, stable: bool)
    requires unit > 0
  {
    && Scanned(before, now, dst, done, unit, changed, xstart, xend)
    && (stable ==> Shown(now, pixel, dst, done))
    && (stable ==> Tight(before, now, dst, unit, changed, xstart, xend))
  }

  lemma Flags(before: seq<byte>, now: seq<byte>, unit: nat, pixel: nat -> byte, dst: nat, done: nat,
              changed: bool, xstart: int, xend: int, stable: bool)
    requires unit > 0 && Progress(before, now, unit, pixel, dst, done, changed, xstart, xend, stable)
    ensures if changed then xstart >= 0 else xstart == -1
    ensures dst + done <= |now|
  {
  }

  lemma ProgressKnowing(before: seq<byte>, now: seq<byte>, unit: nat, pixel: nat -> byte, dst: nat, done: nat,
                        changed: bool, xstart: int, xend: int, was: bool, stable: bool)
    requires unit > 0 && Progress(before, now, unit, pixel, dst, done, changed, xstart, xend, was)
    requires stable ==> was
    ensures Progress(before, now, unit, pixel, dst, done, changed, xstart, xend, stable)
  {
  }

  // The next word was what it should be.
  lemma Keep(before: seq<byte>, now: seq<byte>, unit: nat, pixel: nat -> byte, dst: nat, done: nat,
             changed: bool, xstart: int, xend: int, was: bool, stable: bool)
    requires unit > 0 && Progress(before, now, unit, pixel, dst, done, changed, xstart, xend, was)
    requires stable ==> was
    requires dst + done + unit <= |now|
    requires stable ==> forall x: nat | done <= x < done + unit :: now[dst + x] == pixel(x)
    ensures Progress(before, now, unit, pixel, dst, done + unit, changed, xstart, xend, stable)
  {
  }

  lemma StoreScanned(before: seq<byte>, now: seq<byte>, next: seq<byte>, dst: nat, done: nat, unit: nat,
                     changed: bool, xstart: int, xend: int)
    requires (unit == 2 || unit == 4) && done % unit == 0 && dst + done + unit <= |now| == |next|
    requires Scanned(before, now, dst, done, unit, changed, xstart, xend)
    requires forall k | 0 <= k < |now| && !(dst + done <= k < dst + done + unit) :: next[k] == now[k]
    ensures Scanned(before, next, dst, done + unit, unit, true, if changed then xstart else done, done + unit - 1)
  {
  }

  lemma StartsBefore(done: nat, unit: nat, xstart: int, xend: int)
    requires unit == 2 || unit == 4
    requires 0 <= xstart <= xend < done && xstart % unit == 0 && (xend + 1) % unit == 0
    ensures xstart + unit <= done
  {
  }

  lemma StoreTight(before: seq<byte>, now: seq<byte>, next: seq<byte>, dst: nat, done: nat, unit: nat,
                   changed: bool, xstart: int, xend: int)
    requires (unit == 2 || unit == 4) && dst + done + unit <= |now| == |next|
    requires Scanned(before, now, dst, done, unit, changed, xstart, xend)
    requires Tight(before, now, dst, unit, changed, xstart, xend)
    requires forall k | 0 <= k < |now| && !(dst + done <= k < dst + done + unit) :: next[k] == now[k]
    requires WordDiffers(now, next, dst + done, unit)
    ensures Tight(before, next, dst, unit, true, if changed then xstart else done, done + unit - 1)
  {
    var k :| dst + done <= k < dst + done + unit && now[k] != next[k];
    assert before[k] == now[k];
    if changed {
      StartsBefore(done, unit, xstart, xend);
      var j :| dst + xstart <= j < dst + xstart + unit && before[j] != now[j];
      assert next[j] == now[j];
    }
  }

  // The next word was wrong and has been replaced.
  lemma Store(before: seq<byte>, now: seq<byte>, next: seq<byte>, unit: nat, pixel: nat -> byte, dst: nat, done: nat,
              changed: bool, xstart: int, xend: int, was: bool, stable: bool)
    requires (unit == 2 || unit == 4) && done % unit == 0
    requires Progress(before, now, unit, pixel, dst, done, changed, xstart, xend, was)
    requires stable ==> was
    requires dst + done + unit <= |now| == |next|
    requires forall k | 0 <= k < |now| && !(dst + done <= k < dst + done + unit) :: next[k] == now[k]
    requires stable ==> WordDiffers(now, next, dst + done, unit)
    requires stable ==> forall x: nat | done <= x < done + unit :: next[dst + x] == pixel(x)
    ensures Progress(before, next, unit, pixel, dst, done + unit, true,
                     if changed then xstart else done, done + unit - 1, stable)
  {
    StoreScanned(before, now, next, dst, done, unit, changed, xstart, xend);
    if stable {
      StoreTight(before, now, next, dst, done, unit, changed, xstart, xend);
    }
  }

  // ----- words in memory -----

  function LoadWord(frame: array<byte>, at: nat): uint32
    requires at + 4 <= frame.Length
    reads frame
  {
    Join32(frame[at], frame[at + 1], frame[at + 2], frame[at + 3])
  }

  lemma OctetsOf(w: uint32)
    ensures w / 0x100_0000 < 0x100
    ensures Join32(w / 0x100_0000, w / 0x1_0000 % 0x100, w / 0x100 % 0x100, w % 0x100) == w
  {
    var hi, lo := w / 0x1_0000, w % 0x1_0000;
    assert w / 0x100_0000 == hi / 0x100 && w / 0x100 == 0x100 * hi + lo / 0x100;
    assert w / 0x100 % 0x100 == lo / 0x100 && w % 0x100 == lo % 0x100;
  }

  method StoreWord(frame: array<byte>, at: nat, w: uint32)
    requires at + 4 <= frame.Length
    modifies frame
    ensures LoadWord(frame, at) == w
    ensures forall k | 0 <= k < frame.Length && !(at <= k < at + 4) :: frame[k] == old(frame[k])
  {
    OctetsOf(w);
    frame[at], frame[at + 1] := w / 0x100_0000, w / 0x1_0000 % 0x100;
    frame[at + 2], frame[at + 3] := w / 0x100 % 0x100, w % 0x100;
  }

  function LoadShort(frame: array<byte>, at: nat): uint16
    requires at + 2 <= frame.Length
    reads frame
  {
    Join16(frame[at], frame[at + 1])
  }

  method StoreShort(frame: array<byte>, at: nat, w: uint16)
    requires at + 2 <= frame.Length
    modifies frame
    ensures LoadShort(frame, at) == w
    ensures forall k | 0 <= k < frame.Length && !(at <= k < at + 2) :: frame[k] == old(frame[k])
  {
    frame[at], frame[at + 1] := w / 0x100, w % 0x100;
  }

  lemma JoinInjective(a: byte, b: byte, c: byte, d: byte, a': byte, b': byte, c': byte, d': byte)
    requires Join32(a, b, c, d) == Join32(a', b', c', d')
    ensures a == a' && b == b' && c == c' && d == d'
  {
  }

  lemma WordShown(f: seq<byte>, at: nat, pixel: nat -> byte, done: nat)
    requires at + 4 <= |f| && At32(f, at) == Join32(pixel(done), pixel(done + 1), pixel(done + 2), pixel(done + 3))
    ensures f[at] == pixel(done) && f[at + 1] == pixel(done + 1)
    ensures f[at + 2] == pixel(done + 2) && f[at + 3] == pixel(done + 3)
  {
    JoinInjective(f[at], f[at + 1], f[at + 2], f[at + 3], pixel(done), pixel(done + 1), pixel(done + 2), pixel(done + 3));
  }

  lemma WordsDiffer(f: seq<byte>, g: seq<byte>, at: nat)
    requires at + 4 <= |f| == |g| && At32(f, at) != At32(g, at)
    ensures WordDiffers(f, g, at, 4)
  {
    assert f[at] != g[at] || f[at + 1] != g[at + 1] || f[at + 2] != g[at + 2] || f[at + 3] != g[at + 3];
  }

  lemma ShortsDiffer(f: seq<byte>, g: seq<byte>, at: nat)
    requires at + 2 <= |f| == |g| && At16(f, at) != At16(g, at)
    ensures WordDiffers(f, g, at, 2)
  {
    assert f[at] != g[at] || f[at + 1] != g[at + 1];
  }

  ghost function WordOf(pixel: nat -> byte, d: nat): uint32 {
    Join32(pixel(d), pixel(d + 1), pixel(d + 2), pixel(d + 3))
  }

  ghost function ShortOf(pixel: nat -> byte, d: nat): uint16 {
    Join16(pixel(d), pixel(d + 1))
  }

  // One word of a scan: it was w already, or it has been overwritten.
  lemma WordDone(before: seq<byte>, now: seq<byte>, next: seq<byte>, pixel: nat -> byte, dst: nat, done: nat,
                 changed: bool, xstart: int, xend: int, was: bool, stable: bool, w: uint32, w': uint32)
    requires done % 4 == 0 && dst + done + 4 <= |now| == |next|
    requires Progress(before, now, 4, pixel, dst, done, changed, xstart, xend, was)
    requires stable ==> was && w == w' == WordOf(pixel, done)
    requires if At32(now, dst + done) == w then next == now else
               At32(next, dst + done) == w' &&
               forall k | 0 <= k < |now| && !(dst + done <= k < dst + done + 4) :: next[k] == now[k]
    ensures var same := At32(now, dst + done) == w;
            Progress(before, next, 4, pixel, dst, done + 4, same ==> changed,
                     if same || changed then xstart else done, if same then xend else done + 3, stable)
  {
    if stable {
      WordShown(next, dst + done, pixel, done);
    }
    if At32(now, dst + done) == w {
      Keep(before, now, 4, pixel, dst, done, changed, xstart, xend, was, stable);
    } else {
      if stable {
        WordsDiffer(now, next, dst + done);
      }
      Store(before, now, next, 4, pixel, dst, done, changed, xstart, xend, was, stable);
    }
  }

  lemma ShortDone(before: seq<byte>, now: seq<byte>, next: seq<byte>, pixel: nat -> byte, dst: nat, done: nat,
                  changed: bool, xstart: int, xend: int, was: bool, stable: bool, w: uint16)
    requires done % 2 == 0 && dst + done + 2 <= |now| == |next|
    requires Progress(before, now, 2, pixel, dst, done, changed, xstart, xend, was)
    requires stable ==> was && w == ShortOf(pixel, done)
    requires if At16(now, dst + done) == w then next == now else
               At16(next, dst + done) == w &&
               forall k | 0 <= k < |now| && !(dst + done <= k < dst + done + 2) :: next[k] == now[k]
    ensures var same := At16(now, dst + done) == w;
            Progress(before, next, 2, pixel, dst, done + 2, same ==> changed,
                     if same || changed then xstart else done, if same then xend else done + 1, stable)
  {
    if stable {
      assert next[dst + done] == pixel(done) && next[dst + done + 1] == pixel(done + 1);
    }
    if At16(now, dst + done) == w {
      Keep(before, now, 2, pixel, dst, done, changed, xstart, xend, was, stable);
    } else {
      if stable {
        ShortsDiffer(now, next, dst + done);
      }
      Store(before, now, next, 2, pixel, dst, done, changed, xstart, xend, was, stable);
    }
  }

  // ----- rows of pixels, a source word or octet at a time -----

  ghost function Word(image: int -> byte, a: int): uint32 {
    Join32(image(a), image(a + 1), image(a + 2), image(a + 3))
  }

  ghost function SourceWord(image: int -> byte, src: int, d: nat): uint32 {
    Word(image, src + d)
  }

  ghost function SourceOctet(image: int -> byte, src: int, i: nat): byte {
    image(src + i)
  }

  ghost predicate Row8(pixel: nat -> byte, image: int -> byte, src: int) {
    forall d: nat {:trigger SourceWord(image, src, d)} :: WordOf(pixel, d) == SourceWord(image, src, d)
  }

  ghost predicate Row4(pixel: nat -> byte, image: int -> byte, src: int) {
    forall i: nat {:trigger SourceOctet(image, src, i)} :: ShortOf(pixel, 2 * i) == Lut4Bit(SourceOctet(image, src, i))
  }

  ghost predicate Row2(pixel: nat -> byte, image: int -> byte, src: int) {
    forall i: nat {:trigger SourceOctet(image, src, i)} :: WordOf(pixel, 4 * i) == Lut2Bit(SourceOctet(image, src, i))
  }

  ghost predicate Row1(pixel: nat -> byte, image: int -> byte, src: int) {
    forall i: nat {:trigger SourceOctet(image, src, i)} ::
      && WordOf(pixel, 8 * i) == Lut1Bit(SourceOctet(image, src, i) / 16)
      && WordOf(pixel, 8 * i + 4) == Lut1Bit(SourceOctet(image, src, i) % 16)
  }

  // ----- the loop bodies: columns done.. of the row at dst -----

  // `if (dst[i] != src[i]) dst[i] = src[i]`, on words: the source is read again to be stored, and
  // need not be the same the second time.
  method RefreshWord(frame: array<byte>, at: nat, hw: Driver, src: int, ghost image: int -> byte)
    returns (different: bool, ghost w: uint32, ghost stored: uint32)
    requires at + 4 <= frame.Length
    modifies frame, hw`now
    ensures hw.now > old(hw.now)
    ensures different == (At32(old(frame[..]), at) != w)
    ensures !different ==> frame[..] == old(frame[..])
    ensures different ==> At32(frame[..], at) == stored
    ensures forall k | 0 <= k < frame.Length && !(at <= k < at + 4) :: frame[k] == old(frame[k])
    ensures hw.Shows(image, old(hw.now), hw.now) ==> w == stored == Word(image, src)
  {
    var first := hw.ReadWord(src);
    w, stored, different := first, first, LoadWord(frame, at) != first;
    if different {
      var again := hw.ReadWord(src);
      StoreWord(frame, at, again);
      stored := again;
    }
  }

  method ScanWord8(frame: array<byte>, dst: nat, done: nat, hw: Driver, src: int, changed0: bool, xstart0: int, xend0: int,
                   ghost before: seq<byte>, ghost from: nat, ghost image: int -> byte, ghost pixel: nat -> byte)
    returns (changed: bool, xstart: int, xend: int)
    requires done % 4 == 0 && dst + done + 4 <= frame.Length && from <= hw.now && Row8(pixel, image, src)
    requires Progress(before, frame[..], 4, pixel, dst, done, changed0, xstart0, xend0, hw.Shows(image, from, hw.now))
    modifies frame, hw`now
    ensures from <= hw.now
    ensures Progress(before, frame[..], 4, pixel, dst, done + 4, changed, xstart, xend, hw.Shows(image, from, hw.now))
  {
    hide Progress, WordOf;
    Flags(before, frame[..], 4, pixel, dst, done, changed0, xstart0, xend0, hw.Shows(image, from, hw.now));
    ghost var now, t := frame[..], hw.now;
    changed, xstart, xend := changed0, xstart0, xend0;
    var different, w, stored := RefreshWord(frame, dst + done, hw, src + done, image);
    if different {
      changed := true;
      if xstart < 0 {
        xstart := done;
      }
      xend := done + 3;
    }
    if hw.Shows(image, from, hw.now) {
      hw.ShowsParts(image, from, t, hw.now);
    }
    assert SourceWord(image, src, done) == Word(image, src + done);
    WordDone(before, now, frame[..], pixel, dst, done, changed0, xstart0, xend0,
             hw.Shows(image, from, t), hw.Shows(image, from, hw.now), w, stored);
  }

  // Store an expanded word unless it is there already.
  method ScanWord(frame: array<byte>, dst: nat, done: nat, pixes: uint32, changed0: bool, xstart0: int, xend0: int,
                  ghost before: seq<byte>, ghost pixel: nat -> byte, ghost was: bool, ghost stable: bool)
    returns (changed: bool, xstart: int, xend: int)
    requires done % 4 == 0 && dst + done + 4 <= frame.Length
    requires Progress(before, frame[..], 4, pixel, dst, done, changed0, xstart0, xend0, was)
    requires stable ==> was && pixes == WordOf(pixel, done)
    modifies frame
    ensures Progress(before, frame[..], 4, pixel, dst, done + 4, changed, xstart, xend, stable)
  {
    hide Progress, WordOf;
    Flags(before, frame[..], 4, pixel, dst, done, changed0, xstart0, xend0, was);
    ghost var now := frame[..];
    changed, xstart, xend := changed0, xstart0, xend0;
    if LoadWord(frame, dst + done) != pixes {
      StoreWord(frame, dst + done, pixes);
      if xstart == -1 {
        changed := true;
        xstart := done;
      }
      xend := done + 3;
    }
    WordDone(before, now, frame[..], pixel, dst, done, changed0, xstart0, xend0, was, stable, pixes, pixes);
  }

  method ScanShort(frame: array<byte>, dst: nat, done: nat, pixes: uint16, changed0: bool, xstart0: int, xend0: int,
                   ghost before: seq<byte>, ghost pixel: nat -> byte, ghost was: bool, ghost stable: bool)
    returns (changed: bool, xstart: int, xend: int)
    requires done % 2 == 0 && dst + done + 2 <= frame.Length
    requires Progress(before, frame[..], 2, pixel, dst, done, changed0, xstart0, xend0, was)
    requires stable ==> was && pixes == ShortOf(pixel, done)
    modifies frame
    ensures Progress(before, frame[..], 2, pixel, dst, done + 2, changed, xstart, xend, stable)
  {
    hide Progress, ShortOf;
    Flags(before, frame[..], 2, pixel, dst, done, changed0, xstart0, xend0, was);
    ghost var now := frame[..];
    changed, xstart, xend := changed0, xstart0, xend0;
    if LoadShort(frame, dst + done) != pixes {
      StoreShort(frame, dst + done, pixes);
      if xstart == -1 {
        changed := true;
        xstart := done;
      }
      xend := done + 1;
    }
    ShortDone(before, now, frame[..], pixel, dst, done, changed0, xstart0, xend0, was, stable, pixes);
  }

  lemma At1(image: int -> byte, src: int, i: nat, pixel: nat -> byte, b: byte)
    requires Row1(pixel, image, src) && b == image(src + i)
    ensures WordOf(pixel, 8 * i) == Lut1Bit(b / 16) && WordOf(pixel, 8 * i + 4) == Lut1Bit(b % 16)
  {
    assert SourceOctet(image, src, i) == b;
  }

  lemma At2(image: int -> byte, src: int, i: nat, pixel: nat -> byte, b: byte)
    requires Row2(pixel, image, src) && b == image(src + i)
    ensures WordOf(pixel, 4 * i) == Lut2Bit(b)
  {
    assert SourceOctet(image, src, i) == b;
  }

  lemma At4(image: int -> byte, src: int, i: nat, pixel: nat -> byte, b: byte)
    requires Row4(pixel, image, src) && b == image(src + i)
    ensures ShortOf(pixel, 2 * i) == Lut4Bit(b)
  {
    assert SourceOctet(image, src, i) == b;
  }

  // The i-th source octet of a row, expanded. At depth 1 it is read twice, once for either half.
  method Expand1(hw: Driver, src: int, i: nat, ghost image: int -> byte, ghost pixel: nat -> byte)
    returns (pixes1: uint32, pixes2: uint32)
    requires Row1(pixel, image, src)
    modifies hw`now
    ensures hw.now > old(hw.now)
    ensures hw.Shows(image, old(hw.now), hw.now) ==> pixes1 == WordOf(pixel, 8 * i) && pixes2 == WordOf(pixel, 8 * i + 4)
  {
    var b1 := hw.ReadByte(src + i);
    pixes1 := Lut1Bit(b1 / 16);
    var b2 := hw.ReadByte(src + i);
    pixes2 := Lut1Bit(b2 % 16);
    if hw.Shows(image, old(hw.now), hw.now) {
      At1(image, src, i, pixel, b1);
      At1(image, src, i, pixel, b2);
    }
  }

  method Expand2(hw: Driver, src: int, i: nat, ghost image: int -> byte, ghost pixel: nat -> byte) returns (pixes: uint32)
    requires Row2(pixel, image, src)
    modifies hw`now
    ensures hw.now > old(hw.now)
    ensures hw.Shows(image, old(hw.now), hw.now) ==> pixes == WordOf(pixel, 4 * i)
  {
    var b := hw.ReadByte(src + i);
    pixes := Lut2Bit(b);
    if hw.Shows(image, old(hw.now), hw.now) {
      At2(image, src, i, pixel, b);
    }
  }

  method Expand4(hw: Driver, src: int, i: nat, ghost image: int -> byte, ghost pixel: nat -> byte) returns (pixes: uint16)
    requires Row4(pixel, image, src)
    modifies hw`now
    ensures hw.now > old(hw.now)
    ensures hw.Shows(image, old(hw.now), hw.now) ==> pixes == ShortOf(pixel, 2 * i)
  {
    var b := hw.ReadByte(src + i);
    pixes := Lut4Bit(b);
    if hw.Shows(image, old(hw.now), hw.now) {
      At4(image, src, i, pixel, b);
    }
  }

  lemma WordsOfEight(i: nat)
    ensures 8 * i % 4 == 0 && (8 * i + 4) % 4 == 0
  {
    Div4(8 * i, 2 * i, 0);
    Div4(8 * i + 4, 2 * i + 1, 0);
  }

  method ScanOctet1(frame: array<byte>, dst: nat, i: nat, hw: Driver, src: int, changed0: bool, xstart0: int, xend0: int,
                     ghost before: seq<byte>, ghost from: nat, ghost image: int -> byte, ghost pixel: nat -> byte)
    returns (changed: bool, xstart: int, xend: int)
    requires dst + 8 * i + 8 <= frame.Length && from <= hw.now && Row1(pixel, image, src)
    requires Progress(before, frame[..], 4, pixel, dst, 8 * i, changed0, xstart0, xend0, hw.Shows(image, from, hw.now))
    modifies frame, hw`now
    ensures from <= hw.now
    ensures Progress(before, frame[..], 4, pixel, dst, 8 * i + 8, changed, xstart, xend, hw.Shows(image, from, hw.now))
  {
    hide *;
    WordsOfEight(i);
    ghost var t := hw.now;
    ghost var was := hw.Shows(image, from, hw.now);
    var pixes1, pixes2 := Expand1(hw, src, i, image, pixel);
    if hw.Shows(image, from, hw.now) {
      hw.ShowsParts(image, from, t, hw.now);
    }
    ghost var stable := hw.Shows(image, from, hw.now);
    changed, xstart, xend := ScanWord(frame, dst, 8 * i, pixes1, changed0, xstart0, xend0, before, pixel, was, stable);
    changed, xstart, xend := ScanWord(frame, dst, 8 * i + 4, pixes2, changed, xstart, xend, before, pixel, stable, stable);
  }

  method ScanOctet2(frame: array<byte>, dst: nat, i: nat, hw: Driver, src: int, changed0: bool, xstart0: int, xend0: int,
                     ghost before: seq<byte>, ghost from: nat, ghost image: int -> byte, ghost pixel: nat -> byte)
    returns (changed: bool, xstart: int, xend: int)
    requires dst + 4 * i + 4 <= frame.Length && from <= hw.now && Row2(pixel, image, src)
    requires Progress(before, frame[..], 4, pixel, dst, 4 * i, changed0, xstart0, xend0, hw.Shows(image, from, hw.now))
    modifies frame, hw`now
    ensures from <= hw.now
    ensures Progress(before, frame[..], 4, pixel, dst, 4 * i + 4, changed, xstart, xend, hw.Shows(image, from, hw.now))
  {
    hide *;
    ghost var t := hw.now;
    ghost var was := hw.Shows(image, from, hw.now);
    var pixes := Expand2(hw, src, i, image, pixel);
    if hw.Shows(image, from, hw.now) {
      hw.ShowsParts(image, from, t, hw.now);
    }
    changed, xstart, xend := ScanWord(frame, dst, 4 * i, pixes, changed0, xstart0, xend0, before, pixel, was,
                                      hw.Shows(image, from, hw.now));
  }

  method ScanOctet4(frame: array<byte>, dst: nat, i: nat, hw: Driver, src: int, changed0: bool, xstart0: int, xend0: int,
                     ghost before: seq<byte>, ghost from: nat, ghost image: int -> byte, ghost pixel: nat -> byte)
    returns (changed: bool, xstart: int, xend: int)
    requires dst + 2 * i + 2 <= frame.Length && from <= hw.now && Row4(pixel, image, src)
    requires Progress(before, frame[..], 2, pixel, dst, 2 * i, changed0, xstart0, xend0, hw.Shows(image, from, hw.now))
    modifies frame, hw`now
    ensures from <= hw.now
    ensures Progress(before, frame[..], 2, pixel, dst, 2 * i + 2, changed, xstart, xend, hw.Shows(image, from, hw.now))
  {
    hide *;
    ghost var t := hw.now;
    ghost var was := hw.Shows(image, from, hw.now);
    var pixes := Expand4(hw, src, i, image, pixel);
    if hw.Shows(image, from, hw.now) {
      hw.ShowsParts(image, from, t, hw.now);
    }
    changed, xstart, xend := ScanShort(frame, dst, 2 * i, pixes, changed0, xstart0, xend0, before, pixel, was,
                                       hw.Shows(image, from, hw.now));
  }

  // ----- the four copies -----

  // fb_copy_8_row
  method CopyRow8(frame: array<byte>, dst: nat, hw: Driver, src: int, width: nat,
                  ghost image: int -> byte, ghost pixel: nat -> byte)
    returns (changed: bool, xstart: int, xend: int)
    requires dst + width <= frame.Length && Row8(pixel, image, src)
    modifies frame, hw`now
    ensures hw.now >= old(hw.now)
    ensures Progress(old(frame[..]), frame[..], 4, pixel, dst, width / 4 * 4, changed, xstart, xend,
                     hw.Shows(image, old(hw.now), hw.now))
  {
    ghost var before, from := frame[..], hw.now;
    var wi := width / 4;
    changed, xstart, xend := false, -1, *;
    for i := 0 to wi
      invariant hw.now >= from
      invariant Progress(before, frame[..], 4, pixel, dst, 4 * i, changed, xstart, xend, hw.Shows(image, from, hw.now))
    {
      changed, xstart, xend := ScanWord8(frame, dst, i * 4, hw, src, changed, xstart, xend, before, from, image, pixel);
    }
  }

  // fb_copy_1_row
  method CopyRow1(frame: array<byte>, dst: nat, hw: Driver, src: int, width: nat,
                  ghost image: int -> byte, ghost pixel: nat -> byte)
    returns (changed: bool, xstart: int, xend: int)
    requires dst + width <= frame.Length && Row1(pixel, image, src)
    modifies frame, hw`now
    ensures hw.now >= old(hw.now)
    ensures Progress(old(frame[..]), frame[..], 4, pixel, dst, width / 8 * 8, changed, xstart, xend,
                     hw.Shows(image, old(hw.now), hw.now))
  {
    ghost var before, from := frame[..], hw.now;
    var wi := width / 8;
    changed, xstart, xend := false, -1, *;
    for i := 0 to wi
      invariant hw.now >= from
      invariant Progress(before, frame[..], 4, pixel, dst, 8 * i, changed, xstart, xend, hw.Shows(image, from, hw.now))
    {
      changed, xstart, xend := ScanOctet1(frame, dst, i, hw, src, changed, xstart, xend, before, from, image, pixel);
    }
  }

  // fb_copy_2_row
  method CopyRow2(frame: array<byte>, dst: nat, hw: Driver, src: int, width: nat,
                  ghost image: int -> byte, ghost pixel: nat -> byte)
    returns (changed: bool, xstart: int, xend: int)
    requires dst + width <= frame.Length && Row2(pixel, image, src)
    modifies frame, hw`now
    ensures hw.now >= old(hw.now)
    ensures Progress(old(frame[..]), frame[..], 4, pixel, dst, width / 4 * 4, changed, xstart, xend,
                     hw.Shows(image, old(hw.now), hw.now))
  {
    ghost var before, from := frame[..], hw.now;
    var wi := width / 4;
    changed, xstart, xend := false, -1, *;
    for i := 0 to wi
      invariant hw.now >= from
      invariant Progress(before, frame[..], 4, pixel, dst, 4 * i, changed, xstart, xend, hw.Shows(image, from, hw.now))
    {
      changed, xstart, xend := ScanOctet2(frame, dst, i, hw, src, changed, xstart, xend, before, from, image, pixel);
    }
  }

  // fb_copy_4_row
  method CopyRow4(frame: array<byte>, dst: nat, hw: Driver, src: int, width: nat,
                  ghost image: int -> byte, ghost pixel: nat -> byte)
    returns (changed: bool, xstart: int, xend: int)
    requires dst + width <= frame.Length && Row4(pixel, image, src)
    modifies frame, hw`now
    ensures hw.now >= old(hw.now)
    ensures Progress(old(frame[..]), frame[..], 2, pixel, dst, width / 2 * 2, changed, xstart, xend,
                     hw.Shows(image, old(hw.now), hw.now))
  {
    ghost var before, from := frame[..], hw.now;
    var wi := width / 2;
    changed, xstart, xend := false, -1, *;
    for i := 0 to wi
      invariant hw.now >= from
      invariant Progress(before, frame[..], 2, pixel, dst, 2 * i, changed, xstart, xend, hw.Shows(image, from, hw.now))
    {
      changed, xstart, xend := ScanOctet4(frame, dst, i, hw, src, changed, xstart, xend, before, from, image, pixel);
    }
  }

  // ----- the tables give every row its meaning -----

  lemma OneBitFields(b: byte)
    ensures Lut1Bit(b / 16) == Join32(Field(1, b, 0), Field(1, b, 1), Field(1, b, 2), Field(1, b, 3))
    ensures Lut1Bit(b % 16) == Join32(Field(1, b, 4), Field(1, b, 5), Field(1, b, 6), Field(1, b, 7))
  {
    hide Lut1Bit;
    var h, l := b / 16, b % 16;
    Lut1BitExpands(h);
    Lut1BitExpands(l);
    HalfFields(b, h, l);
  }

  lemma HalfFields(b: byte, h: nat, l: nat)
    requires h < 16 && l < 16 && b == 16 * h + l
    ensures Field(1, b, 0) == h / 8 && Field(1, b, 1) == h / 4 % 2 && Field(1, b, 2) == h / 2 % 2 && Field(1, b, 3) == h % 2
    ensures Field(1, b, 4) == l / 8 && Field(1, b, 5) == l / 4 % 2 && Field(1, b, 6) == l / 2 % 2 && Field(1, b, 7) == l % 2
  {
    HighBits(b, h, l);
    LowBits(b, h, l);
  }

  lemma HighBits(b: nat, h: nat, l: nat)
    requires h < 16 && l < 16 && b == 16 * h + l
    ensures b / 16 == h && b / 32 == h / 2 && b / 64 == h / 4 && b / 128 == h / 8
    ensures h / 8 % 2 == h / 8
  {
  }

  lemma LowBits(b: nat, h: nat, l: nat)
    requires h < 16 && l < 16 && b == 16 * h + l
    ensures b % 2 == l % 2 && b / 2 % 2 == l / 2 % 2 && b / 4 % 2 == l / 4 % 2 && b / 8 % 2 == l / 8
  {
    Div2(b, 8 * h + l / 2, l % 2);
    Div2(8 * h + l / 2, 4 * h + l / 2 / 2, l / 2 % 2);
    Div4(b, 4 * h + l / 4, l % 4);
    Div2(4 * h + l / 4, 2 * h + l / 4 / 2, l / 4 % 2);
    Div8(b, 2 * h + l / 8, l % 8);
    Div2(2 * h + l / 8, h, l / 8);
  }

  lemma Div2(x: nat, q: nat, r: nat)
    requires x == 2 * q + r && r < 2
    ensures x / 2 == q && x % 2 == r
  {
  }

  lemma Div4(x: nat, q: nat, r: nat)
    requires x == 4 * q + r && r < 4
    ensures x / 4 == q
  {
  }

  lemma Div8(x: nat, q: nat, r: nat)
    requires x == 8 * q + r && r < 8
    ensures x / 8 == q
  {
  }

  lemma PixelInOctet(depth: nat, image: int -> byte, src: int, i: nat, k: nat)
    requires depth in {1, 2, 4, 8} && k < 8 / depth
    ensures Pixel(depth, image, src, 8 / depth * i + k) == Field(depth, image(src + i), k)
  {
    hide Field;
    match depth {
      case 1 => assert (8 * i + k) / 8 == i && (8 * i + k) % 8 == k;
      case 2 => assert (4 * i + k) / 4 == i && (4 * i + k) % 4 == k;
      case 4 => assert (2 * i + k) / 2 == i && (2 * i + k) % 2 == k;
      case _ =>
    }
  }

  lemma PixelAt(depth: nat, n: nat, image: int -> byte, src: int, i: nat, k: nat)
    requires depth in {1, 2, 4, 8} && n * depth == 8 && k < n
    ensures Pixel(depth, image, src, n * i + k) == Field(depth, image(src + i), k)
  {
    hide Field, Pixel;
    assert n == 8 / depth;
    PixelInOctet(depth, image, src, i, k);
  }

  // The pixels of an octet of the screen make it up, the first of them most significant.
  lemma PixelsMakeOctets(image: int -> byte, src: int, i: nat)
    ensures var b := image(src + i);
            && b == Pixel(8, image, src, i)
            && b == 0x10 * Pixel(4, image, src, 2 * i) + Pixel(4, image, src, 2 * i + 1)
            && b == 0x40 * Pixel(2, image, src, 4 * i) + 0x10 * Pixel(2, image, src, 4 * i + 1)
                    + 4 * Pixel(2, image, src, 4 * i + 2) + Pixel(2, image, src, 4 * i + 3)
            && b == 0x80 * Pixel(1, image, src, 8 * i) + 0x40 * Pixel(1, image, src, 8 * i + 1)
                    + 0x20 * Pixel(1, image, src, 8 * i + 2) + 0x10 * Pixel(1, image, src, 8 * i + 3)
                    + 8 * Pixel(1, image, src, 8 * i + 4) + 4 * Pixel(1, image, src, 8 * i + 5)
                    + 2 * Pixel(1, image, src, 8 * i + 6) + Pixel(1, image, src, 8 * i + 7)
  {
    hide Field, Pixel;
    FieldsMakeOctet(image(src + i));
    PixelAt(8, 1, image, src, i, 0);
    PixelAt(4, 2, image, src, i, 0);
    PixelAt(4, 2, image, src, i, 1);
    PixelAt(2, 4, image, src, i, 0);
    PixelAt(2, 4, image, src, i, 1);
    PixelAt(2, 4, image, src, i, 2);
    PixelAt(2, 4, image, src, i, 3);
    PixelAt(1, 8, image, src, i, 0);
    PixelAt(1, 8, image, src, i, 1);
    PixelAt(1, 8, image, src, i, 2);
    PixelAt(1, 8, image, src, i, 3);
    PixelAt(1, 8, image, src, i, 4);
    PixelAt(1, 8, image, src, i, 5);
    PixelAt(1, 8, image, src, i, 6);
    PixelAt(1, 8, image, src, i, 7);
  }

  lemma Row1At(image: int -> byte, src: int, i: nat, pixel: nat -> byte)
    requires forall x :: pixel(x) == Pixel(1, image, src, x)
    ensures WordOf(pixel, 8 * i) == Lut1Bit(image(src + i) / 16)
    ensures WordOf(pixel, 8 * i + 4) == Lut1Bit(image(src + i) % 16)
  {
    hide Field, Pixel, Lut1Bit;
    OneBitFields(image(src + i));
    PixelInOctet(1, image, src, i, 0);
    PixelInOctet(1, image, src, i, 1);
    PixelInOctet(1, image, src, i, 2);
    PixelInOctet(1, image, src, i, 3);
    PixelInOctet(1, image, src, i, 4);
    PixelInOctet(1, image, src, i, 5);
    PixelInOctet(1, image, src, i, 6);
    PixelInOctet(1, image, src, i, 7);
  }

  lemma Row2At(image: int -> byte, src: int, i: nat, pixel: nat -> byte)
    requires forall x :: pixel(x) == Pixel(2, image, src, x)
    ensures WordOf(pixel, 4 * i) == Lut2Bit(image(src + i))
  {
    hide Field, Pixel, Lut2Bit;
    Lut2BitExpands(image(src + i));
    PixelInOctet(2, image, src, i, 0);
    PixelInOctet(2, image, src, i, 1);
    PixelInOctet(2, image, src, i, 2);
    PixelInOctet(2, image, src, i, 3);
  }

  lemma Row4At(image: int -> byte, src: int, i: nat, pixel: nat -> byte)
    requires forall x :: pixel(x) == Pixel(4, image, src, x)
    ensures ShortOf(pixel, 2 * i) == Lut4Bit(image(src + i))
  {
    hide Field, Pixel, Lut4Bit;
    Lut4BitExpands(image(src + i));
    PixelInOctet(4, image, src, i, 0);
    PixelInOctet(4, image, src, i, 1);
  }

  lemma Row8At(image: int -> byte, src: int, i: nat, pixel: nat -> byte)
    requires forall x :: pixel(x) == Pixel(8, image, src, x)
    ensures pixel(i) == image(src + i)
  {
    PixelInOctet(8, image, src, i, 0);
  }

  // Whatever the depth, the words and octets of a row spell its pixels.
  lemma RowsSpelled(image: int -> byte, src: int)
    ensures Row1(RowOf(1, image, src), image, src)
    ensures Row2(RowOf(2, image, src), image, src)
    ensures Row4(RowOf(4, image, src), image, src)
    ensures Row8(RowOf(8, image, src), image, src)
  {
    hide Field, Pixel, Lut1Bit, Lut2Bit, Lut4Bit;
    forall i: nat {:trigger SourceOctet(image, src, i)}
      ensures WordOf(RowOf(1, image, src), 8 * i) == Lut1Bit(SourceOctet(image, src, i) / 16)
      ensures WordOf(RowOf(1, image, src), 8 * i + 4) == Lut1Bit(SourceOctet(image, src, i) % 16)
    {
      Row1At(image, src, i, RowOf(1, image, src));
    }
    forall i: nat {:trigger SourceOctet(image, src, i)}
      ensures WordOf(RowOf(2, image, src), 4 * i) == Lut2Bit(SourceOctet(image, src, i))
    {
      Row2At(image, src, i, RowOf(2, image, src));
    }
    forall i: nat {:trigger SourceOctet(image, src, i)}
      ensures ShortOf(RowOf(4, image, src), 2 * i) == Lut4Bit(SourceOctet(image, src, i))
    {
      Row4At(image, src, i, RowOf(4, image, src));
    }
    forall d: nat {:trigger SourceWord(image, src, d)}
      ensures WordOf(RowOf(8, image, src), d) == SourceWord(image, src, d)
    {
      Row8At(image, src, d, RowOf(8, image, src));
      Row8At(image, src, d + 1, RowOf(8, image, src));
      Row8At(image, src, d + 2, RowOf(8, image, src));
      Row8At(image, src, d + 3, RowOf(8, image, src));
    }
  }
}
