// What the daemon sees of the machine through /dev/fb0 and the mapped frame buffer.
module Driver {
  import opened Bytes
  import opened Crc32

  type Palette = p: seq<byte> | |p| == 2048 witness seq(2048, _ => 0)

  // Of the video mode only what the copying of the screen depends on.
  datatype VideoMode = VideoMode(pixelSize: int, rowBytes: int)

  // Indexed-colour modes only.
  predicate Supported(mode: VideoMode) {
    mode.pixelSize in {1, 2, 4, 8}
  }

  class Driver {
    // What the n-th access finds. The screen is drawn on all the while, so nothing relates what
    // one access finds to what the next one does.
    const memory: (nat, int) -> byte
    const palette: nat -> Palette
    var now: nat
    // What the n-th FB_MODE finds, counted from the start of the session.
    const mode: nat -> VideoMode
    var modeReads: nat

    constructor (memory: (nat, int) -> byte, palette: nat -> Palette, mode: nat -> VideoMode)
      ensures this.memory == memory && this.palette == palette && this.mode == mode && now == modeReads == 0
    {
      this.memory, this.palette, this.mode, now, modeReads := memory, palette, mode, 0, 0;
    }

    // The screen memory holds still, showing `image`, during the accesses [from, to).
    ghost predicate Shows(image: int -> byte, from: nat, to: nat) {
      forall t, a | from <= t < to :: memory(t, a) == image(a)
    }

    lemma ShowsParts(image: int -> byte, from: nat, mid: nat, to: nat)
      requires from <= mid <= to && Shows(image, from, to)
      ensures Shows(image, from, mid) && Shows(image, mid, to)
    {
    }

    // FB_MODE
    method GetMode() returns (m: VideoMode)
      modifies this`modeReads
      ensures modeReads == old(modeReads) + 1 && m == mode(old(modeReads))
    {
      m := mode(modeReads);
      modeReads := modeReads + 1;
    }

    method ReadByte(addr: int) returns (b: byte)
      modifies this`now
      ensures now == old(now) + 1 && b == memory(old(now), addr)
    {
      b := memory(now, addr);
      now := now + 1;
    }

    method ReadWord(addr: int) returns (w: uint32)
      modifies this`now
      ensures now == old(now) + 1
      ensures var t := old(now);
              w == Join32(memory(t, addr), memory(t, addr + 1), memory(t, addr + 2), memory(t, addr + 3))
    {
      w := Join32(memory(now, addr), memory(now, addr + 1), memory(now, addr + 2), memory(now, addr + 3));
      now := now + 1;
    }

    // fb_getCLUTFor: the colour table as the video driver has it, in the kernel's buffer.
    method GetClut(fbC: array<byte>)
      requires fbC.Length == 2048
      modifies this`now, fbC
      ensures now == old(now) + 1 && fbC[..] == palette(old(now))
    {
      var p := palette(now);
      forall i | 0 <= i < 2048 {
        fbC[i] := p[i];
      }
      assert fbC[..] == p;
      now := now + 1;
    }

    // FB_CLUT_HASH
    method ClutHash() returns (hash: bv32)
      modifies this`now
      ensures now == old(now) + 1 && hash == Crc(palette(old(now)))
    {
      var fbC := new byte[2048];
      GetClut(fbC);
      assert fbC[..2048] == fbC[..];
      hash := Crc32Buf(fbC, 2048);
    }

    // FB_CLUT_CHUNK
    method ClutChunk(chunk: nat) returns (data: seq<byte>)
      requires chunk < 32
      modifies this`now
      ensures now == old(now) + 1 && data == palette(old(now))[64 * chunk..64 * chunk + 64]
    {
      var fbC := new byte[2048];
      GetClut(fbC);
      data := fbC[64 * chunk..64 * chunk + 64];
    }
  }
}
