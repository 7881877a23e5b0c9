// app/frame_buffer.c: the daemon's copy of the screen, kept in step with the hardware.
module FrameBuffer {
  import opened Bytes
  import opened Driver
  import opened RowCopy
  import Crc32

  // A rectangle by its corners, both inclusive.
  datatype Rect = Rect(x1: int, x2: int, y1: int, y2: int) {
    function Width(): int {
      x2 + 1 - x1
    }

    function Height(): int {
      y2 + 1 - y1
    }
  }

  // ----- positions in a frame of width w, row by row -----

  ghost function RowStart(w: nat, r: nat): nat {
    r * w
  }

  ghost predicate OnScreen(rect: Rect, w: nat, h: nat) {
    0 <= rect.x1 <= rect.x2 < w && 0 <= rect.y1 <= rect.y2 < h
  }

  ghost predicate Inside(k: nat, w: nat, rect: Rect)
    requires 0 <= rect.y1
  {
    exists r: nat :: rect.y1 <= r <= rect.y2 && RowStart(w, r) + rect.x1 <= k <= RowStart(w, r) + rect.x2
  }

  lemma NextRow(w: nat, r: nat)
    ensures RowStart(w, r + 1) == RowStart(w, r) + w
  {
  }

  lemma {:induction false} RowFits(w: nat, r: nat, h: nat)
    requires r < h
    ensures RowStart(w, r) + w <= RowStart(w, h)
  {
    NextRow(w, h - 1);
    if r < h - 1 {
      RowFits(w, r, h - 1);
    }
  }

  // Inside means what it says in terms of rows and columns.
  lemma InsideByColumns(w: nat, rect: Rect, r: nat, c: nat)
    requires 0 <= rect.y1 && 0 <= rect.x1 <= rect.x2 < w && c < w
    ensures Inside(RowStart(w, r) + c, w, rect) <==> rect.y1 <= r <= rect.y2 && rect.x1 <= c <= rect.x2
  {
    var k := RowStart(w, r) + c;
    if Inside(k, w, rect) {
      var q: nat :| rect.y1 <= q <= rect.y2 && RowStart(w, q) + rect.x1 <= k <= RowStart(w, q) + rect.x2;
      if q < r {
        RowFits(w, q, r);
      } else if r < q {
        RowFits(w, r, q);
      }
    }
  }

  // Nothing has changed outside the rectangle.
  ghost predicate Framed(before: seq<byte>, now: seq<byte>, w: nat, rect: Rect)
    requires 0 <= rect.y1
  {
    |before| == |now| && forall k: nat | k < |now| && !Inside(k, w, rect) :: now[k] == before[k]
  }

  ghost predicate ChangedAt(before: seq<byte>, now: seq<byte>, w: nat, r: nat, c: nat) {
    c < w && RowStart(w, r) + c < |before| == |now| && before[RowStart(w, r) + c] != now[RowStart(w, r) + c]
  }

  // Every side of the rectangle is held up by a word that changed.
  ghost predicate Propped(before: seq<byte>, now: seq<byte>, w: nat, rect: Rect, unit: nat)
    requires 0 <= rect.y1 <= rect.y2
  {
    && (exists c: nat :: ChangedAt(before, now, w, rect.y1, c))
    && (exists c: nat :: ChangedAt(before, now, w, rect.y2, c))
    && (exists r: nat, c: nat :: rect.x1 <= c < rect.x1 + unit && ChangedAt(before, now, w, r, c))
    && (exists r: nat, c: nat :: rect.x2 - unit < c <= rect.x2 && ChangedAt(before, now, w, r, c))
  }

  ghost predicate Aligned(rect: Rect, unit: nat)
    requires unit > 0
  {
    rect.x1 % unit == 0 && (rect.x2 + 1) % unit == 0
  }

  lemma LeftEdge(x: int, c: int, o: int, unit: nat)
    requires (unit == 2 || unit == 4) && x % unit == 0 && o % unit == 0 && x <= c < x + unit && o <= c
    ensures o <= x
  {
  }

  lemma RightEdge(x: int, c: int, o: int, unit: nat)
    requires (unit == 2 || unit == 4) && (x + 1) % unit == 0 && (o + 1) % unit == 0 && x - unit < c <= x && c <= o
    ensures x <= o
  {
  }

  lemma ChangeIsInside(before: seq<byte>, now: seq<byte>, w: nat, h: nat, other: Rect, r: nat, c: nat)
    requires OnScreen(other, w, h) && Framed(before, now, w, other) && ChangedAt(before, now, w, r, c)
    ensures other.y1 <= r <= other.y2 && other.x1 <= c <= other.x2
  {
    InsideByColumns(w, other, r, c);
  }

  // A rectangle of whole words that is propped up on all sides is within any other that frames
  // the same changes.
  lemma Tightest(before: seq<byte>, now: seq<byte>, w: nat, h: nat, rect: Rect, other: Rect, unit: nat)
    requires unit == 2 || unit == 4
    requires OnScreen(rect, w, h) && Aligned(rect, unit) && Propped(before, now, w, rect, unit)
    requires OnScreen(other, w, h) && Aligned(other, unit) && Framed(before, now, w, other)
    ensures other.x1 <= rect.x1 && rect.x2 <= other.x2 && other.y1 <= rect.y1 && rect.y2 <= other.y2
  {
    hide Framed, ChangedAt, RowStart;
    var top: nat :| ChangedAt(before, now, w, rect.y1, top);
    ChangeIsInside(before, now, w, h, other, rect.y1, top);
    var bottom: nat :| ChangedAt(before, now, w, rect.y2, bottom);
    ChangeIsInside(before, now, w, h, other, rect.y2, bottom);
    var rl: nat, left: nat :| rect.x1 <= left < rect.x1 + unit && ChangedAt(before, now, w, rl, left);
    ChangeIsInside(before, now, w, h, other, rl, left);
    LeftEdge(rect.x1, left, other.x1, unit);
    var rr: nat, right: nat :| rect.x2 - unit < right <= rect.x2 && ChangedAt(before, now, w, rr, right);
    ChangeIsInside(before, now, w, h, other, rr, right);
    RightEdge(rect.x2, right, other.x2, unit);
  }

  // ----- one scan of the screen, as far as row n -----

  // What the scan has found: no change at all, or changes within the rectangle.
  ghost predicate Found(before: seq<byte>, now: seq<byte>, w: nat, n: nat, changed: bool, rect: Rect, unit: nat)
    requires unit > 0
  {
    && |before| == |now|
    && if changed then OnScreen(rect, w, n) && Aligned(rect, unit) && Framed(before, now, w, rect) else now == before
  }

  ghost function Join(changed: bool, rect: Rect, row: nat, xstart: nat, xend: nat): Rect {
    if !changed then Rect(xstart, xend, row, row)
    else Rect(if xstart < rect.x1 then xstart else rect.x1, if xend > rect.x2 then xend else rect.x2, rect.y1, row)
  }

  lemma InsideJoin(k: nat, w: nat, rect: Rect, row: nat, xstart: nat, xend: nat)
    requires 0 <= rect.x1 <= rect.x2 < w && 0 <= rect.y1 <= rect.y2 < row && xstart <= xend
    ensures Inside(k, w, rect) ==> Inside(k, w, Join(true, rect, row, xstart, xend))
  {
  }

  lemma SegmentInside(k: nat, w: nat, changed: bool, rect: Rect, row: nat, xstart: nat, xend: nat)
    requires changed ==> 0 <= rect.x1 <= rect.x2 < w && 0 <= rect.y1 <= rect.y2 < row
    requires RowStart(w, row) + xstart <= k <= RowStart(w, row) + xend
    ensures Inside(k, w, Join(changed, rect, row, xstart, xend))
  {
    var all := Join(changed, rect, row, xstart, xend);
    assert all.y1 <= row <= all.y2 && RowStart(w, row) + all.x1 <= k <= RowStart(w, row) + all.x2;
  }

  // One more row with a change in it.
  lemma FoundMore(before: seq<byte>, now: seq<byte>, next: seq<byte>, w: nat, row: nat, done: nat, changed: bool, rect: Rect,
                  unit: nat, xstart: int, xend: int)
    requires (unit == 2 || unit == 4) && done <= w
    requires Found(before, now, w, row, changed, rect, unit)
    requires Scanned(now, next, RowStart(w, row), done, unit, true, xstart, xend)
    ensures Found(before, next, w, row + 1, true, Join(changed, rect, row, xstart, xend), unit)
  {
    var all := Join(changed, rect, row, xstart, xend);
    forall k: nat | k < |next| && !Inside(k, w, all)
      ensures next[k] == before[k]
    {
      if RowStart(w, row) + xstart <= k <= RowStart(w, row) + xend {
        SegmentInside(k, w, changed, rect, row, xstart, xend);
      } else if changed {
        InsideJoin(k, w, rect, row, xstart, xend);
      }
    }
  }

  lemma StillChanged(before: seq<byte>, now: seq<byte>, next: seq<byte>, w: nat, row: nat, r: nat, c: nat)
    requires ChangedAt(before, now, w, r, c) && r < row && |next| == |now|
    requires forall k: nat | k < |now| && k < RowStart(w, row) :: next[k] == now[k]
    ensures ChangedAt(before, next, w, r, c)
  {
    RowFits(w, r, row);
  }

  // What the scan of one row changed, by column.
  lemma NewlyChanged(before: seq<byte>, now: seq<byte>, next: seq<byte>, w: nat, row: nat, at: nat, unit: nat)
    requires |before| == |now| == |next| && at + unit <= w && RowStart(w, row) + w <= |now|
    requires forall k: nat | RowStart(w, row) <= k < |now| :: now[k] == before[k]
    requires WordDiffers(now, next, RowStart(w, row) + at, unit)
    ensures exists c: nat :: at <= c < at + unit && ChangedAt(before, next, w, row, c)
  {
    var k :| RowStart(w, row) + at <= k < RowStart(w, row) + at + unit && now[k] != next[k];
    assert ChangedAt(before, next, w, row, k - RowStart(w, row));
  }

  lemma ProppedMore(before: seq<byte>, now: seq<byte>, next: seq<byte>, w: nat, row: nat, done: nat, changed: bool, rect: Rect,
                    unit: nat, xstart: int, xend: int)
    requires (unit == 2 || unit == 4) && done <= w && RowStart(w, row) + w <= |now|
    requires Found(before, now, w, row, changed, rect, unit) && (changed ==> Propped(before, now, w, rect, unit))
    requires Scanned(now, next, RowStart(w, row), done, unit, true, xstart, xend)
    requires Tight(now, next, RowStart(w, row), unit, true, xstart, xend)
    ensures Propped(before, next, w, Join(changed, rect, row, xstart, xend), unit)
  {
    forall k: nat | RowStart(w, row) <= k < |now|
      ensures now[k] == before[k]
    {
      if changed && Inside(k, w, rect) {
        var r: nat :| rect.y1 <= r <= rect.y2 && RowStart(w, r) + rect.x1 <= k <= RowStart(w, r) + rect.x2;
        RowFits(w, r, row);
      }
    }
    StartsBefore(done, unit, xstart, xend);
    NewlyChanged(before, now, next, w, row, xstart, unit);
    NewlyChanged(before, now, next, w, row, xend + 1 - unit, unit);
    if changed {
      StillPropped(before, now, next, w, row, rect, unit);
    }
  }

  lemma StillPropped(before: seq<byte>, now: seq<byte>, next: seq<byte>, w: nat, row: nat, rect: Rect, unit: nat)
    requires OnScreen(rect, w, row) && |before| == |now| == |next|
    requires Propped(before, now, w, rect, unit) && Framed(before, now, w, rect)
    requires forall k: nat | k < |now| && k < RowStart(w, row) :: next[k] == now[k]
    ensures Propped(before, next, w, rect, unit)
  {
    hide ChangedAt, Framed;
    var top: nat :| ChangedAt(before, now, w, rect.y1, top);
    StillChanged(before, now, next, w, row, rect.y1, top);
    var bottom: nat :| ChangedAt(before, now, w, rect.y2, bottom);
    StillChanged(before, now, next, w, row, rect.y2, bottom);
    var rl: nat, left: nat :| rect.x1 <= left < rect.x1 + unit && ChangedAt(before, now, w, rl, left);
    ChangeIsInside(before, now, w, row, rect, rl, left);
    StillChanged(before, now, next, w, row, rl, left);
    var rr: nat, right: nat :| rect.x2 - unit < right <= rect.x2 && ChangedAt(before, now, w, rr, right);
    ChangeIsInside(before, now, w, row, rect, rr, right);
    StillChanged(before, now, next, w, row, rr, right);
  }

  // ----- the whole scan -----

  ghost function SourceRow(base: int, pitch: int, r: nat): int {
    base + r * pitch
  }

  lemma FirstRow(w: nat, base: int, pitch: int)
    ensures RowStart(w, 0) == 0 && SourceRow(base, pitch, 0) == base
  {
  }

  lemma NextSourceRow(base: int, pitch: int, r: nat)
    ensures SourceRow(base, pitch, r + 1) == SourceRow(base, pitch, r) + pitch
  {
  }

  // Rows 0..n of the frame show the screen, as far as whole words of them go.
  ghost predicate Displayed(now: seq<byte>, w: nat, n: nat, depth: nat, image: int -> byte, base: int, pitch: int)
    requires depth in {1, 2, 4, 8}
  {
    forall r: nat | r < n :: Shown(now, RowOf(depth, image, SourceRow(base, pitch, r)), RowStart(w, r), Covered(depth, w))
  }

  ghost predicate Scan(before: seq<byte>, now: seq<byte>, w: nat, n: nat, changed: bool, rect: Rect,
                       depth: nat, image: int -> byte, base: int, pitch: int, stable: bool)
    requires depth in {1, 2, 4, 8}
  {
    && Found(before, now, w, n, changed, rect, Unit(depth))
    && (stable && changed ==> Propped(before, now, w, rect, Unit(depth)))
    && (stable ==> Displayed(now, w, n, depth, image, base, pitch))
  }

  // On a screen that held still, the scan reports a change if and only if there was one, and the
  // rectangle is the smallest one of whole words that holds all changes.
  lemma DirtyIsSmallest(before: seq<byte>, now: seq<byte>, w: nat, h: nat, changed: bool, rect: Rect,
                        depth: nat, image: int -> byte, base: int, pitch: int)
    requires depth in {1, 2, 4, 8} && Scan(before, now, w, h, changed, rect, depth, image, base, pitch, true)
    ensures changed <==> before != now
    ensures changed ==> OnScreen(rect, w, h) && Aligned(rect, if depth == 4 then 2 else 4) && Framed(before, now, w, rect)
    ensures changed ==>
              forall other: Rect | OnScreen(other, w, h) && Aligned(other, if depth == 4 then 2 else 4) && Framed(before, now, w, other) ::
                other.x1 <= rect.x1 && rect.x2 <= other.x2 && other.y1 <= rect.y1 && rect.y2 <= other.y2
  {
    hide Displayed, Framed, RowStart;
    if changed {
      var c: nat :| ChangedAt(before, now, w, rect.y1, c);
      forall other: Rect | OnScreen(other, w, h) && Aligned(other, Unit(depth)) && Framed(before, now, w, other)
        ensures other.x1 <= rect.x1 && rect.x2 <= other.x2 && other.y1 <= rect.y1 && rect.y2 <= other.y2
      {
        Tightest(before, now, w, h, rect, other, Unit(depth));
      }
    }
  }

  // A frame that displays the screen has its pixels in all columns that are copied: whole source
  // octets at depth 1 and 4, whole words at depth 2 and 8.
  lemma DisplayedPixel(now: seq<byte>, w: nat, h: nat, depth: nat, image: int -> byte, base: int, pitch: int, r: nat, x: nat)
    requires depth in {1, 2, 4, 8} && Displayed(now, w, h, depth, image, base, pitch)
    requires r < h && x < (if depth == 1 then w / 8 * 8 else if depth == 4 then w / 2 * 2 else w / 4 * 4)
    ensures r * w + x < |now| && now[r * w + x] == Pixel(depth, image, base + r * pitch, x)
  {
    hide Pixel;
    assert RowStart(w, r) == r * w && SourceRow(base, pitch, r) == base + r * pitch;
    var pixel := RowOf(depth, image, SourceRow(base, pitch, r));
    assert Shown(now, pixel, RowStart(w, r), Covered(depth, w));
    assert pixel(x) == Pixel(depth, image, SourceRow(base, pitch, r), x);
  }

  lemma StillShown(now: seq<byte>, next: seq<byte>, pixel: nat -> byte, w: nat, row: nat, r: nat, done: nat)
    requires r < row && done <= w && |now| == |next| && Shown(now, pixel, RowStart(w, r), done)
    requires forall k: nat | k < |now| && k < RowStart(w, row) :: next[k] == now[k]
    ensures Shown(next, pixel, RowStart(w, r), done)
  {
    RowFits(w, r, row);
  }

  lemma DisplayedMore(now: seq<byte>, next: seq<byte>, w: nat, row: nat, depth: nat, image: int -> byte, base: int, pitch: int)
    requires depth in {1, 2, 4, 8} && |now| == |next| && Displayed(now, w, row, depth, image, base, pitch)
    requires forall k: nat | k < |now| && k < RowStart(w, row) :: next[k] == now[k]
    requires Shown(next, RowOf(depth, image, SourceRow(base, pitch, row)), RowStart(w, row), Covered(depth, w))
    ensures Displayed(next, w, row + 1, depth, image, base, pitch)
  {
    hide Shown, RowOf;
    forall r: nat | r < row
      ensures Shown(next, RowOf(depth, image, SourceRow(base, pitch, r)), RowStart(w, r), Covered(depth, w))
    {
      StillShown(now, next, RowOf(depth, image, SourceRow(base, pitch, r)), w, row, r, Covered(depth, w));
    }
  }

  lemma ScanNext(before: seq<byte>, now: seq<byte>, next: seq<byte>, w: nat, row: nat, changed: bool, rect: Rect,
                 depth: nat, image: int -> byte, base: int, pitch: int, was: bool, stable: bool,
                 lineChanged: bool, xstart: int, xend: int)
    requires depth in {1, 2, 4, 8} && RowStart(w, row) + w <= |now|
    requires Scan(before, now, w, row, changed, rect, depth, image, base, pitch, was) && (stable ==> was)
    requires Progress(now, next, Unit(depth), RowOf(depth, image, SourceRow(base, pitch, row)), RowStart(w, row),
                      Covered(depth, w), lineChanged, xstart, xend, stable)
    ensures Scan(before, next, w, row + 1, changed || lineChanged,
                 if lineChanged then Join(changed, rect, row, xstart, xend) else rect, depth, image, base, pitch, stable)
  {
    hide Propped, Framed, Displayed, Shown, RowOf;
    if lineChanged {
      FoundMore(before, now, next, w, row, Covered(depth, w), changed, rect, Unit(depth), xstart, xend);
      if stable {
        ProppedMore(before, now, next, w, row, Covered(depth, w), changed, rect, Unit(depth), xstart, xend);
      }
    }
    if stable {
      DisplayedMore(now, next, w, row, depth, image, base, pitch);
    }
  }

  lemma NothingScanned(before: seq<byte>, w: nat, rect: Rect, depth: nat, image: int -> byte, base: int, pitch: int, stable: bool)
    requires depth in {1, 2, 4, 8}
    ensures Scan(before, before, w, 0, false, rect, depth, image, base, pitch, stable)
  {
  }

  // As long as nothing has changed, the rectangle does not matter.
  lemma NoRect(before: seq<byte>, now: seq<byte>, w: nat, n: nat, rect: Rect, other: Rect, depth: nat, image: int -> byte,
               base: int, pitch: int, stable: bool)
    requires depth in {1, 2, 4, 8} && Scan(before, now, w, n, false, rect, depth, image, base, pitch, stable)
    ensures Scan(before, now, w, n, false, other, depth, image, base, pitch, stable)
  {
  }

  lemma Reported(before: seq<byte>, now: seq<byte>, depth: nat, w: nat, dst: nat, pixel: nat -> byte,
                 changed: bool, xstart: int, xend: int, stable: bool)
    requires depth in {1, 2, 4, 8}
    requires Progress(before, now, Unit(depth), pixel, dst, Covered(depth, w), changed, xstart, xend, stable)
    ensures changed ==> 0 <= xstart <= xend && 0 < xend < w
  {
  }

  // ----- colours -----

  datatype Colour = Colour(red: uint16, green: uint16, blue: uint16)

  // Entry i of a QuickDraw colour table: a value, then red, green and blue.
  function ColourAt(p: Palette, i: nat): Colour
    requires i < 256
  {
    Colour(Join16(p[8 * i + 2], p[8 * i + 3]), Join16(p[8 * i + 4], p[8 * i + 5]), Join16(p[8 * i + 6], p[8 * i + 7]))
  }

  function Colours(p: Palette): seq<Colour> {
    seq(256, i requires 0 <= i < 256 => ColourAt(p, i))
  }

  // A place to read in the frame.
  datatype Cursor = Cursor(offset: int, nextRowOffset: int, increments: int)

  // The cursor at the beginning of the n-th row of a rectangle.
  ghost function CursorAt(rect: Rect, w: nat, n: nat): Cursor
    requires 0 <= rect.y1
  {
    Cursor(RowStart(w, rect.y1 + n) + rect.x1, w, n)
  }

  class FrameBuffer {
    const hw: Driver
    const scrX: nat
    const scrY: nat
    const physed: int              // where the screen memory is mapped
    const frame: array<byte>       // frame_to_send
    var mode: VideoMode
    var lastChanged: bool
    var lastDirty: Rect
    var cursor: Cursor
    var clutChanged: bool
    var clutHash: bv32
    const clut: array<byte>
    const vncClut: array<Colour>

    ghost predicate Valid() {
      && 0 < scrX < 0x1_0000 && 0 < scrY < 0x1_0000
      && frame.Length == RowStart(scrX, scrY) && clut.Length == 2048 && vncClut.Length == 256
      && frame != clut
    }

    // fb_init, once the mode is known and the memory is mapped.
    constructor (hw: Driver, scrX: nat, scrY: nat, physed: int)
      requires 0 < scrX < 0x1_0000 && 0 < scrY < 0x1_0000
      ensures Valid() && this.hw == hw && this.scrX == scrX && this.scrY == scrY && this.physed == physed
      ensures fresh(frame) && fresh(clut) && fresh(vncClut)
      ensures !clutChanged && clutHash == 0
    {
      this.hw, this.scrX, this.scrY, this.physed := hw, scrX, scrY, physed;
      frame := new byte[scrX * scrY];
      clut := new byte[2048];
      vncClut := new Colour[256];
      mode, lastChanged, lastDirty := VideoMode(0, 0), false, Rect(0, 0, 0, 0);
      cursor, clutChanged, clutHash := Cursor(0, 0, 0), false, 0;
      new;
      assert RowStart(scrY, scrX) == RowStart(scrX, scrY);
    }

    // The colour table comes in 32 chunks, each of them as the driver has it at the time.
    method FetchClut()
      requires Valid()
      modifies hw`now, clut
      ensures hw.now == old(hw.now) + 32
      ensures forall c | 0 <= c < 32 :: clut[64 * c..64 * c + 64] == hw.palette(old(hw.now) + c)[64 * c..64 * c + 64]
    {
      var t := hw.now;
      for i := 0 to 32
        invariant hw.now == t + i
        invariant forall c | 0 <= c < i :: clut[64 * c..64 * c + 64] == hw.palette(t + c)[64 * c..64 * c + 64]
      {
        ghost var before := clut[..];
        var data := hw.ClutChunk(i);
        forall k | 0 <= k < 64 {
          clut[64 * i + k] := data[k];
        }
        assert clut[64 * i..64 * i + 64] == data;
        forall c | 0 <= c < i
          ensures clut[64 * c..64 * c + 64] == hw.palette(t + c)[64 * c..64 * c + 64]
        {
          assert clut[64 * c..64 * c + 64] == before[64 * c..64 * c + 64];
        }
      }
    }

    lemma EntryInChunk(i: nat, p: Palette)
      requires Valid() && i < 256
      requires var c := i / 8; clut[64 * c..64 * c + 64] == p[64 * c..64 * c + 64]
      ensures Colour(Join16(clut[8 * i + 2], clut[8 * i + 3]), Join16(clut[8 * i + 4], clut[8 * i + 5]),
                     Join16(clut[8 * i + 6], clut[8 * i + 7])) == ColourAt(p, i)
    {
      var c := i / 8;
      forall k | 64 * c <= k < 64 * c + 64
        ensures clut[k] == p[k]
      {
        assert clut[k] == clut[64 * c..64 * c + 64][k - 64 * c];
        assert p[k] == p[64 * c..64 * c + 64][k - 64 * c];
      }
    }

    // The client's colours, from the QuickDraw ones fetched since time t.
    method FillVncClut(ghost t: nat)
      requires Valid()
      requires forall c | 0 <= c < 32 :: clut[64 * c..64 * c + 64] == hw.palette(t + c)[64 * c..64 * c + 64]
      modifies vncClut
      ensures forall i | 0 <= i < 256 :: vncClut[i] == ColourAt(hw.palette(t + i / 8), i)
    {
      hide ColourAt;
      for i := 0 to 256
        invariant forall k | 0 <= k < i :: vncClut[k] == ColourAt(hw.palette(t + k / 8), k)
      {
        EntryInChunk(i, hw.palette(t + i / 8));
        vncClut[i] := Colour(Join16(clut[8 * i + 2], clut[8 * i + 3]), Join16(clut[8 * i + 4], clut[8 * i + 5]),
                             Join16(clut[8 * i + 6], clut[8 * i + 7]));
      }
    }

    // fb_update_clut: fetch the colour table if its hash is not the one of the last time.
    method UpdateClut()
      requires Valid()
      modifies this`clutHash, this`clutChanged, hw`now, clut, vncClut
      ensures hw.now > old(hw.now)
      ensures clutHash == Crc32.Crc(hw.palette(old(hw.now)))
      ensures clutChanged == (old(clutChanged) || clutHash != old(clutHash))
      ensures !clutChanged ==> vncClut[..] == old(vncClut[..])
      ensures clutChanged ==> hw.now == old(hw.now) + 33
      ensures clutChanged ==> forall i | 0 <= i < 256 :: vncClut[i] == ColourAt(hw.palette(old(hw.now) + 1 + i / 8), i)
    {
      hide ColourAt, Crc32.Crc;
      var t := hw.now;
      var hash := hw.ClutHash();
      if clutHash != hash {
        clutHash := hash;
        clutChanged := true;
      }
      if !clutChanged {
        return;
      }
      FetchClut();
      FillVncClut(t + 1);
    }

    // One of the fb_copy_n_row functions, by depth. Only indexed-colour modes are supported.
    method CopyRow(dst: nat, src: int, ghost image: int -> byte) returns (ok: bool, changed: bool, xstart: int, xend: int)
      requires Valid() && dst + scrX <= frame.Length
      modifies frame, hw`now
      ensures hw.now >= old(hw.now)
      ensures ok == (mode.pixelSize in {1, 2, 4, 8})
      ensures !ok ==> frame[..] == old(frame[..])
      ensures ok ==>
                Progress(old(frame[..]), frame[..], Unit(mode.pixelSize), RowOf(mode.pixelSize, image, src), dst,
                         Covered(mode.pixelSize, scrX), changed, xstart, xend, hw.Shows(image, old(hw.now), hw.now))
    {
      hide Progress, RowOf;
      RowsSpelled(image, src);
      ok, changed, xstart, xend := true, false, *, *;
      if mode.pixelSize == 1 {
        changed, xstart, xend := CopyRow1(frame, dst, hw, src, scrX, image, RowOf(1, image, src));
      } else if mode.pixelSize == 2 {
        changed, xstart, xend := CopyRow2(frame, dst, hw, src, scrX, image, RowOf(2, image, src));
      } else if mode.pixelSize == 4 {
        changed, xstart, xend := CopyRow4(frame, dst, hw, src, scrX, image, RowOf(4, image, src));
      } else if mode.pixelSize == 8 {
        changed, xstart, xend := CopyRow8(frame, dst, hw, src, scrX, image, RowOf(8, image, src));
      } else {
        ok := false;
      }
    }

    // Row i of the scan.
    method ScanRow(i: nat, dst: nat, src: int, ghost before: seq<byte>, ghost changed: bool, ghost rect: Rect,
                   ghost from: nat, ghost image: int -> byte)
      returns (ok: bool, lineChanged: bool, xstart: int, xend: int)
      requires Valid() && i < scrY && from <= hw.now
      requires dst == RowStart(scrX, i) && dst + scrX <= frame.Length && src == SourceRow(physed, mode.rowBytes, i)
      requires if i == 0 then frame[..] == before && !changed
               else mode.pixelSize in {1, 2, 4, 8} && Scan(before, frame[..], scrX, i, changed, rect, mode.pixelSize, image,
                                                           physed, mode.rowBytes, hw.Shows(image, from, hw.now))
      modifies frame, hw`now
      ensures hw.now >= from
      ensures ok == (mode.pixelSize in {1, 2, 4, 8})
      ensures !ok ==> frame[..] == old(frame[..])
      ensures ok && lineChanged ==> 0 < xend < scrX && 0 <= xstart <= xend
      ensures ok ==>
                Scan(before, frame[..], scrX, i + 1, changed || lineChanged,
                     if lineChanged then Join(changed, rect, i, xstart, xend) else rect, mode.pixelSize, image,
                     physed, mode.rowBytes, hw.Shows(image, from, hw.now))
    {
      hide Scan, Scanned, Progress, RowOf, Covered;
      ghost var now, t := frame[..], hw.now;
      ok, lineChanged, xstart, xend := CopyRow(dst, src, image);
      if ok {
        ghost var depth, was, stable := mode.pixelSize, hw.Shows(image, from, t), hw.Shows(image, from, hw.now);
        if i == 0 {
          NothingScanned(before, scrX, rect, depth, image, physed, mode.rowBytes, was);
        }
        if stable {
          hw.ShowsParts(image, from, t, hw.now);
        }
        ProgressKnowing(now, frame[..], Unit(depth), RowOf(depth, image, src), dst, Covered(depth, scrX),
                        lineChanged, xstart, xend,
                        hw.Shows(image, t, hw.now), stable);
        Reported(now, frame[..], depth, scrX, dst, RowOf(depth, image, src), lineChanged, xstart, xend, stable);
        ScanNext(before, now, frame[..], scrX, i, changed, rect, depth, image, physed, mode.rowBytes, was, stable,
                 lineChanged, xstart, xend);
      }
    }

    // The scan of fb_update: copy the screen in, row by row, and widen the dirty rectangle to fit.
    method CopyScreen(ghost image: int -> byte) returns (ok: bool)
      requires Valid()
      modifies this`lastChanged, this`lastDirty, frame, hw`now
      ensures hw.now >= old(hw.now)
      ensures ok == (mode.pixelSize in {1, 2, 4, 8})
      ensures !ok ==> frame[..] == old(frame[..]) && lastDirty == old(lastDirty) && lastChanged == old(lastChanged)
      ensures ok ==>
                Scan(old(frame[..]), frame[..], scrX, scrY, lastChanged, lastDirty, mode.pixelSize, image, physed, mode.rowBytes,
                     hw.Shows(image, old(hw.now), hw.now))
      ensures ok && !lastChanged ==> lastDirty == Rect(0, 0, 0, 0)
    {
      hide Scan, SourceRow, RowStart;
      FirstRow(scrX, physed, mode.rowBytes);
      ghost var before, from := frame[..], hw.now;
      var changed := false;
      var lowY, highY, lowX, highX := 0xFFFF_FFFF, 0, 0xFFFF_FFFF, 0;
      var src, dst := physed, 0;
      for i := 0 to scrY
        invariant hw.now >= from && dst == RowStart(scrX, i) && src == SourceRow(physed, mode.rowBytes, i)
        invariant if changed then 0 <= lowY <= highY < i && 0 <= lowX <= highX < scrX
                  else lowY == lowX == 0xFFFF_FFFF && highY == highX == 0
        invariant if i == 0 then frame[..] == before && !changed
                  else mode.pixelSize in {1, 2, 4, 8} &&
                       Scan(before, frame[..], scrX, i, changed, Rect(lowX, highX, lowY, highY), mode.pixelSize, image,
                            physed, mode.rowBytes, hw.Shows(image, from, hw.now))
        invariant lastDirty == old(lastDirty) && lastChanged == old(lastChanged)
      {
        RowFits(scrX, i, scrY);
        NextRow(scrX, i);
        NextSourceRow(physed, mode.rowBytes, i);
        var supported, lineChanged, xstart, xend :=
          ScanRow(i, dst, src, before, changed, Rect(lowX, highX, lowY, highY), from, image);
        if !supported {
          return false;
        }
        changed := changed || lineChanged;
        if lineChanged && i < lowY {
          lowY := i;
        }
        if lineChanged && i > highY {
          highY := i;
        }
        if lineChanged && xstart < lowX {
          lowX := xstart;
        }
        if lineChanged && xend > highX {
          highX := xend;
        }
        dst := dst + scrX;
        src := src + mode.rowBytes;
      }
      ok := true;
      lastChanged := changed;
      if changed {
        lastDirty := Rect(lowX, highX, lowY, highY);
      } else {
        lastDirty := Rect(0, 0, 0, 0);
        NoRect(before, frame[..], scrX, scrY, Rect(lowX, highX, lowY, highY), lastDirty, mode.pixelSize, image, physed,
               mode.rowBytes, hw.Shows(image, from, hw.now));
      }
    }

    // fb_update. The result is false for an unsupported depth.
    method Update(ghost image: int -> byte) returns (ok: bool, ghost scanned: nat)
      requires Valid()
      modifies this`mode, this`clutHash, this`clutChanged, this`lastChanged, this`lastDirty, hw`now, hw`modeReads, clut, vncClut, frame
      ensures hw.modeReads == old(hw.modeReads) + 1 && mode == hw.mode(old(hw.modeReads))
      ensures clutHash == Crc32.Crc(hw.palette(old(hw.now)))
      ensures clutChanged == (old(clutChanged) || clutHash != old(clutHash))
      ensures !clutChanged ==> vncClut[..] == old(vncClut[..])
      ensures clutChanged ==> forall i | 0 <= i < 256 :: vncClut[i] == ColourAt(hw.palette(old(hw.now) + 1 + i / 8), i)
      ensures clutChanged ==> scanned == old(hw.now) + 33
      ensures old(hw.now) < scanned <= hw.now
      ensures ok == Supported(mode)
      ensures !ok ==> frame[..] == old(frame[..])
      ensures ok ==>
                Scan(old(frame[..]), frame[..], scrX, scrY, lastChanged, lastDirty, mode.pixelSize, image, physed,
                     mode.rowBytes, hw.Shows(image, scanned, hw.now))
      ensures ok && !lastChanged ==> lastDirty == Rect(0, 0, 0, 0)
    {
      hide Scan, ColourAt, Crc32.Crc;
      mode := hw.GetMode();
      UpdateClut();
      scanned := hw.now;
      ok := CopyScreen(image);
    }

    // ----- the dirty cursor -----

    method ResetDirtyCursor()
      requires 0 <= lastDirty.y1
      modifies this`cursor
      ensures cursor == CursorAt(lastDirty, scrX, 0)
    {
      var offset := lastDirty.y1 * scrX;
      offset := offset + lastDirty.x1;
      cursor := Cursor(offset, scrX, 0);
    }

    method AdvanceDirtyCursor(ghost n: nat)
      requires 0 <= lastDirty.y1 && cursor == CursorAt(lastDirty, scrX, n)
      modifies this`cursor
      ensures cursor == CursorAt(lastDirty, scrX, n + 1)
    {
      NextRow(scrX, lastDirty.y1 + n);
      cursor := cursor.(offset := cursor.offset + cursor.nextRowOffset, increments := cursor.increments + 1);
    }

    function SizeAtDirtyCursor(): int
      reads this`lastDirty
    {
      lastDirty.Width()
    }

    predicate MoreDirty()
      reads this`lastDirty, this`cursor
    {
      cursor.increments < lastDirty.Height()
    }
  }
}
