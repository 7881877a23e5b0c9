// Two ways for a client to be left with colours that the screen does not have.
module StaleColours {
  import opened Bytes
  import opened Driver
  import opened FrameBuffer
  import opened Client
  import opened Updates
  import Crc32
  import CrcBursts
  import Folds

  // An update of a screen on which nothing has been drawn.
  function Still(frame: seq<byte>, hashBefore: bv32, hash: bv32, coloursBefore: seq<Colour>, colours: seq<Colour>,
                 view: nat -> Palette): Turn {
    Turn(1, frame, frame, false, Rect(0, 0, 0, 0), 4, hashBefore, hash, coloursBefore, colours, view)
  }

  // First `first`, then `later` over and over.
  function Repeated(first: Turn, later: Turn, n: nat): seq<Turn> {
    [first] + seq(n, i => later)
  }

  // One update after the other, the first of them with 33 looks at the colour table.
  function Starts(n: nat): seq<nat> {
    [0] + seq(n, i requires 0 <= i => 33 + i)
  }

  lemma RepeatedSession(first: Turn, later: Turn, n: nat, w: nat, h: nat, palette: nat -> Palette)
    requires 0 < w < 0x1_0000 && 0 < h < 0x1_0000
    requires Proper(first, w, h) && Proper(later, w, h) && Follows(first, later) && Follows(later, later)
    requires !Recoloured(later)
    requires forall k: nat :: first.view(k) == palette(k)
    requires forall t: nat, k: nat | 33 <= t :: later.view(k) == Table(palette, t, k)
    ensures Session(Repeated(first, later, n), w, h)
    ensures Seen(Repeated(first, later, n), Starts(n), palette)
  {
    hide Proper;
    var ts, starts := Repeated(first, later, n), Starts(n);
    forall i, k: nat | 0 <= i < |ts|
      ensures ts[i].view(k) == Table(palette, starts[i], k)
    {
      assert starts[i] == if i == 0 then 0 else 32 + i;
    }
  }

  // The driver's table flickers: the hash is taken of `a`, but `b` is fetched. The daemon remembers
  // the hash of `a`, so it never sends the colours of `a`, however long they stay.
  lemma FlickerStays(c: Client, a: Palette, b: Palette, n: nat)
    requires Fits(c) && Crc32.Crc(a) != 0
    ensures var palette := (t: nat) => if 1 <= t <= 32 then b else a;
            var first := Still(c.pixels, 0, Crc32.Crc(a), c.colours, Colours(b), palette);
            var later := Still(c.pixels, Crc32.Crc(a), Crc32.Crc(a), Colours(b), Colours(b), k => a);
            var ts := Repeated(first, later, n);
            && Session(ts, c.w, c.h) && Seen(ts, Starts(n), palette) && ClientAfter(c, ts).Got?
            && (forall i | 0 <= i <= n :: palette(Starts(n)[i]) == a)
            && ClientAfter(c, ts).client.colours == Colours(b)
            && (Colours(a) != Colours(b) ==> ClientAfter(c, ts).client.colours != Colours(palette(Starts(n)[n])))
  {
    hide ColourAt, Crc32.Crc, RowStart;
    var palette := (t: nat) => if 1 <= t <= 32 then b else a;
    var first := Still(c.pixels, 0, Crc32.Crc(a), c.colours, Colours(b), palette);
    var later := Still(c.pixels, Crc32.Crc(a), Crc32.Crc(a), Colours(b), Colours(b), k => a);
    var ts := Repeated(first, later, n);
    assert first.view(0) == a && forall i | 0 <= i < 256 :: first.view(1 + i / 8) == b;
    RepeatedSession(first, later, n, c.w, c.h, palette);
    ClientHasColours(c, ts);
    assert Recoloured(ts[0]);
  }

  // Two tables with different colours and the same hash.
  lemma TablesCollide() returns (p: Palette, q: Palette)
    ensures Crc32.Crc(p) == Crc32.Crc(q) && Colours(p) != Colours(q)
  {
    hide Crc32.ShiftInOctet;
    var a, b := CrcBursts.LongerBurstsCanHide();
    var rest := seq(2043, i => 0);
    p, q := a + rest, b + rest;
    Folds.FoldAppend(Crc32.ShiftInOctet, 0xffff_ffff, a, rest);
    Folds.FoldAppend(Crc32.ShiftInOctet, 0xffff_ffff, b, rest);
    CrcBursts.NotInjective(Folds.Fold(Crc32.ShiftInOctet, 0xffff_ffff, a), Folds.Fold(Crc32.ShiftInOctet, 0xffff_ffff, b));
    assert Colours(p)[0] == ColourAt(p, 0) != ColourAt(q, 0) == Colours(q)[0];
  }

  // So a change in 33 neighbouring bits may never be shown, although the table holds still during
  // every update.
  lemma CollisionStays(c: Client, hash0: bv32, p: Palette, q: Palette, n: nat)
    requires Fits(c) && Crc32.Crc(p) == Crc32.Crc(q) != hash0
    ensures var palette := (t: nat) => if t <= 32 then p else q;
            var first := Still(c.pixels, hash0, Crc32.Crc(p), c.colours, Colours(p), palette);
            var later := Still(c.pixels, Crc32.Crc(p), Crc32.Crc(p), Colours(p), Colours(p), k => q);
            var ts := Repeated(first, later, n);
            && Session(ts, c.w, c.h) && Seen(ts, Starts(n), palette) && ClientAfter(c, ts).Got?
            && (forall i | 0 <= i <= n :: Steady(palette, Starts(n)[i]))
            && (forall i | 0 < i <= n :: palette(Starts(n)[i]) == q)
            && ClientAfter(c, ts).client.colours == Colours(p)
            && (n > 0 && Colours(p) != Colours(q) ==>
                  ClientAfter(c, ts).client.colours != Colours(palette(Starts(n)[n])))
  {
    hide ColourAt, Crc32.Crc, RowStart;
    var palette := (t: nat) => if t <= 32 then p else q;
    var first := Still(c.pixels, hash0, Crc32.Crc(p), c.colours, Colours(p), palette);
    var later := Still(c.pixels, Crc32.Crc(p), Crc32.Crc(p), Colours(p), Colours(p), k => q);
    var ts := Repeated(first, later, n);
    RepeatedSession(first, later, n, c.w, c.h, palette);
    ClientHasColours(c, ts);
    assert Recoloured(ts[0]);
  }
}
