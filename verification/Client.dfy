// The other end: a client that reads the server's messages off the stream (sections 7.6.1, 7.6.2
// and 7.7.1 of RFC 6143), and the octets that the daemon means to send it.
module Client {
  import opened Bytes
  import opened Folds
  import opened FrameBuffer

  datatype Client = Client(w: nat, h: nat, pixels: seq<byte>, colours: seq<Colour>)

  ghost predicate Fits(c: Client) {
    0 < c.w < 0x1_0000 && 0 < c.h < 0x1_0000 && |c.pixels| == RowStart(c.w, c.h) && |c.colours| == 256
  }

  // The client after a message and what is left of the stream, unless the message is malformed or
  // breaks off.
  datatype Outcome = Got(client: Client, rest: seq<byte>) | Stuck

  // ----- reading -----

  function ReadColours(s: seq<byte>, n: nat): (colours: seq<Colour>)
    requires 6 * n <= |s|
    ensures |colours| == n
  {
    if n == 0 then [] else [Colour(At16(s, 0), At16(s, 2), At16(s, 4))] + ReadColours(s[6..], n - 1)
  }

  // Row by row, h rows of w pixels replace what was at x, y.
  ghost function Paint(pixels: seq<byte>, width: nat, x: nat, y: nat, w: nat, h: nat, body: seq<byte>): (r: seq<byte>)
    requires x + w <= width && RowStart(width, y + h) <= |pixels| && |body| == RowStart(w, h)
    ensures |r| == |pixels|
    decreases h
  {
    if h == 0 then pixels
    else
      NextRow(w, h - 1);
      RowFits(width, y, y + h);
      var at := RowStart(width, y) + x;
      Paint(pixels[..at] + body[..w] + pixels[at + w..], width, x, y + 1, w, h - 1, body[w..])
  }

  // n rectangles, each in raw encoding.
  ghost function ReceiveRects(c: Client, n: nat, s: seq<byte>): (r: Outcome)
    requires Fits(c)
    ensures r.Got? ==> Fits(r.client) && r.client.w == c.w && r.client.h == c.h && |r.rest| <= |s|
    decreases n
  {
    if n == 0 then Got(c, s)
    else if |s| < 12 then Stuck
    else
      var x, y, w, h := At16(s, 0), At16(s, 2), At16(s, 4), At16(s, 6);
      var size := RowStart(w, h);
      if At32(s, 8) != 0 || x + w > c.w || y + h > c.h || |s| < 12 + size then Stuck
      else
        RowsFit(c.w, y + h, c.h);
        ReceiveRects(c.(pixels := Paint(c.pixels, c.w, x, y, w, h, s[12..12 + size])), n - 1, s[12 + size..])
  }

  lemma RowsFit(w: nat, r: nat, h: nat)
    requires r <= h
    ensures RowStart(w, r) <= RowStart(w, h)
  {
    if r < h {
      RowFits(w, r, h);
    }
  }

  ghost function Receive(c: Client, s: seq<byte>): (r: Outcome)
    requires Fits(c) && s != []
    ensures r.Got? ==> Fits(r.client) && r.client.w == c.w && r.client.h == c.h && |r.rest| < |s|
  {
    match s[0]
    case 0 => if |s| < 4 then Stuck else ReceiveRects(c, At16(s, 2), s[4..])
    case 1 =>
      if |s| < 6 then Stuck
      else
        var first, n := At16(s, 2), At16(s, 4);
        if first + n > 256 || |s| < 6 + 6 * n then Stuck
        else Got(c.(colours := c.colours[..first] + ReadColours(s[6..], n) + c.colours[first + n..]), s[6 + 6 * n..])
    case _ => Stuck
  }

  // All the messages of a stream.
  ghost function ReceiveAll(c: Client, s: seq<byte>): (r: Outcome)
    requires Fits(c)
    ensures r.Got? ==> Fits(r.client) && r.client.w == c.w && r.client.h == c.h && r.rest == []
    decreases |s|
  {
    if s == [] then Got(c, [])
    else
      var r := Receive(c, s);
      if r.Got? then ReceiveAll(r.client, r.rest) else Stuck
  }

  // ----- reading goes on where it stopped -----

  lemma {:induction false} ReadColoursAppend(s: seq<byte>, more: seq<byte>, n: nat)
    requires 6 * n <= |s|
    ensures ReadColours(s + more, n) == ReadColours(s, n)
  {
    if n > 0 {
      assert (s + more)[6..] == s[6..] + more;
      ReadColoursAppend(s[6..], more, n - 1);
    }
  }

  lemma SameHeader(s: seq<byte>, more: seq<byte>)
    requires |s| >= 12
    ensures At16(s + more, 0) == At16(s, 0) && At16(s + more, 2) == At16(s, 2) && At16(s + more, 4) == At16(s, 4)
    ensures At16(s + more, 6) == At16(s, 6) && At32(s + more, 8) == At32(s, 8)
  {
  }

  lemma {:induction false} ReceiveRectsAppend(c: Client, n: nat, s: seq<byte>, more: seq<byte>)
    requires Fits(c) && ReceiveRects(c, n, s).Got?
    ensures ReceiveRects(c, n, s + more) == Got(ReceiveRects(c, n, s).client, ReceiveRects(c, n, s).rest + more)
    decreases n
  {
    hide Paint, RowStart, At16, At32;
    if n > 0 {
      SameHeader(s, more);
      var x, y, w, h := At16(s, 0), At16(s, 2), At16(s, 4), At16(s, 6);
      var size := RowStart(w, h);
      RowsFit(c.w, y + h, c.h);
      assert (s + more)[12..12 + size] == s[12..12 + size];
      assert (s + more)[12 + size..] == s[12 + size..] + more;
      ReceiveRectsAppend(c.(pixels := Paint(c.pixels, c.w, x, y, w, h, s[12..12 + size])), n - 1, s[12 + size..], more);
    }
  }

  lemma ReceiveAppend(c: Client, s: seq<byte>, more: seq<byte>)
    requires Fits(c) && s != [] && Receive(c, s).Got?
    ensures Receive(c, s + more) == Got(Receive(c, s).client, Receive(c, s).rest + more)
  {
    hide ReceiveRects, ReadColours;
    if s[0] == 0 {
      assert (s + more)[4..] == s[4..] + more;
      ReceiveRectsAppend(c, At16(s, 2), s[4..], more);
    } else {
      var n := At16(s, 4);
      assert (s + more)[6..] == s[6..] + more;
      ReadColoursAppend(s[6..], more, n);
      assert (s + more)[6 + 6 * n..] == s[6 + 6 * n..] + more;
    }
  }

  lemma {:induction false} ReceiveAllAppend(c: Client, s: seq<byte>, more: seq<byte>)
    requires Fits(c) && ReceiveAll(c, s).Got?
    ensures ReceiveAll(c, s + more) == ReceiveAll(ReceiveAll(c, s).client, more)
    decreases |s|
  {
    if s == [] {
      assert s + more == more;
    } else {
      var r := Receive(c, s);
      ReceiveAppend(c, s, more);
      ReceiveAllAppend(r.client, r.rest, more);
    }
  }

  // ----- what the daemon means to send -----

  function ColourBytes(c: Colour): seq<byte> {
    Put16(c.red) + Put16(c.green) + Put16(c.blue)
  }

  // SetColourMapEntries for the whole map.
  function ColourMapBytes(colours: seq<Colour>): seq<byte> {
    [1, 0] + Put16(0) + Put16(256) + Concat(ColourBytes, colours)
  }

  // FramebufferUpdate with a single raw rectangle, up to its pixels.
  function UpdateHeader(x: uint16, y: uint16, w: uint16, h: uint16): seq<byte> {
    [0, 0] + Put16(1) + Put16(x) + Put16(y) + Put16(w) + Put16(h) + Put32(0)
  }

  // The pixels of h rows of w at x, y.
  ghost function Body(frame: seq<byte>, width: nat, x: nat, y: nat, w: nat, h: nat): (b: seq<byte>)
    requires x + w <= width && RowStart(width, y + h) <= |frame|
    ensures |b| == RowStart(w, h)
    decreases h
  {
    if h == 0 then []
    else
      NextRow(w, h - 1);
      RowFits(width, y, y + h);
      var at := RowStart(width, y) + x;
      frame[at..at + w] + Body(frame, width, x, y + 1, w, h - 1)
  }

  // ----- the client gets what was meant -----

  lemma ColourFields(c: Colour, rest: seq<byte>)
    ensures var s := ColourBytes(c) + rest;
            |s| == 6 + |rest| && Colour(At16(s, 0), At16(s, 2), At16(s, 4)) == c && s[6..] == rest
  {
    JoinPut16(c.red);
    JoinPut16(c.green);
    JoinPut16(c.blue);
  }

  lemma {:induction false} ReadWritten(colours: seq<Colour>, more: seq<byte>)
    ensures |Concat(ColourBytes, colours)| == 6 * |colours|
    ensures ReadColours(Concat(ColourBytes, colours) + more, |colours|) == colours
  {
    hide ColourBytes, At16;
    if colours != [] {
      var rest := Concat(ColourBytes, colours[1..]) + more;
      ColourFields(colours[0], rest);
      assert Concat(ColourBytes, colours) + more == ColourBytes(colours[0]) + rest;
      ColourFields(colours[0], []);
      assert ColourBytes(colours[0]) + [] == ColourBytes(colours[0]);
      ReadWritten(colours[1..], more);
    }
  }

  lemma ReceiveColourMap(c: Client, colours: seq<Colour>, more: seq<byte>)
    requires Fits(c) && |colours| == 256
    ensures Receive(c, ColourMapBytes(colours) + more) == Got(c.(colours := colours), more)
  {
    var s := ColourMapBytes(colours) + more;
    var list := Concat(ColourBytes, colours);
    ReadWritten(colours, more);
    assert s == [1, 0, 0, 0, 1, 0] + (list + more);
    assert s[6..] == list + more;
    assert s[6 + 6 * 256..] == more;
  }

  lemma ReceiveUpdate(c: Client, x: uint16, y: uint16, w: uint16, h: uint16, body: seq<byte>, more: seq<byte>)
    requires Fits(c) && x + w <= c.w && y + h <= c.h && |body| == RowStart(w, h) && RowStart(c.w, y + h) <= |c.pixels|
    ensures Receive(c, UpdateHeader(x, y, w, h) + body + more) ==
            Got(c.(pixels := Paint(c.pixels, c.w, x, y, w, h, body)), more)
  {
    hide RowStart, Paint;
    var s := UpdateHeader(x, y, w, h) + body + more;
    HeaderFields(x, y, w, h, body + more);
    assert UpdateHeader(x, y, w, h) + body + more == UpdateHeader(x, y, w, h) + (body + more);
    OneRect(c, x, y, w, h, body, more, s[4..]);
  }

  lemma OneRect(c: Client, x: uint16, y: uint16, w: uint16, h: uint16, body: seq<byte>, more: seq<byte>, t: seq<byte>)
    requires Fits(c) && x + w <= c.w && y + h <= c.h && |body| == RowStart(w, h) && RowStart(c.w, y + h) <= |c.pixels|
    requires |t| == 12 + |body + more| && t[12..] == body + more
    requires At16(t, 0) == x && At16(t, 2) == y && At16(t, 4) == w && At16(t, 6) == h && At32(t, 8) == 0
    ensures ReceiveRects(c, 1, t) == Got(c.(pixels := Paint(c.pixels, c.w, x, y, w, h, body)), more)
  {
    hide RowStart, Paint;
    assert t[12..12 + |body|] == t[12..][..|body|] == body;
    assert t[12 + |body|..] == t[12..][|body|..] == more;
    var painted := c.(pixels := Paint(c.pixels, c.w, x, y, w, h, body));
    assert ReceiveRects(painted, 0, more) == Got(painted, more);
  }

  lemma HeaderIs(x: uint16, y: uint16, w: uint16, h: uint16)
    ensures UpdateHeader(x, y, w, h) ==
            [0, 0, 0, 1, x / 0x100, x % 0x100, y / 0x100, y % 0x100, w / 0x100, w % 0x100, h / 0x100, h % 0x100, 0, 0, 0, 0]
  {
  }

  lemma HeaderFields(x: uint16, y: uint16, w: uint16, h: uint16, rest: seq<byte>)
    ensures var s := UpdateHeader(x, y, w, h) + rest;
            && |s| == 16 + |rest| && s[0] == 0 && At16(s, 2) == 1 && s[16..] == rest
            && var t := s[4..];
               |t| == 12 + |rest| && At16(t, 0) == x && At16(t, 2) == y && At16(t, 4) == w && At16(t, 6) == h
               && At32(t, 8) == 0 && t[12..] == rest
  {
    hide UpdateHeader;
    HeaderIs(x, y, w, h);
    var head := UpdateHeader(x, y, w, h);
    var s := head + rest;
    assert s[0] == 0 && s[2] == 0 && s[3] == 1 && s[16..] == rest;
    var t := s[4..];
    assert t[0] == x / 0x100 && t[1] == x % 0x100 && t[2] == y / 0x100 && t[3] == y % 0x100;
    assert t[4] == w / 0x100 && t[5] == w % 0x100 && t[6] == h / 0x100 && t[7] == h % 0x100;
    assert t[8] == t[9] == t[10] == t[11] == 0 && t[12..] == rest;
  }

  lemma FirstRowOrBelow(k: nat, width: nat, x: nat, y: nat, w: nat, h: nat)
    requires Inside(k, width, Rect(x, x + w - 1, y, y + h - 1))
    ensures h > 0
    ensures Inside(k, width, Rect(x, x + w - 1, y + 1, y + 1 + (h - 1) - 1))
            || RowStart(width, y) + x <= k < RowStart(width, y) + x + w
  {
  }

  // Painting the rows of a new frame into an old one gives the new one, if that is where they differ.
  lemma {:induction false} PaintBody(old': seq<byte>, new': seq<byte>, width: nat, x: nat, y: nat, w: nat, h: nat)
    requires 0 < w && x + w <= width && RowStart(width, y + h) <= |old'| == |new'|
    requires forall k: nat | k < |new'| && !Inside(k, width, Rect(x, x + w - 1, y, y + h - 1)) :: old'[k] == new'[k]
    ensures Paint(old', width, x, y, w, h, Body(new', width, x, y, w, h)) == new'
    decreases h
  {
    hide RowStart, Inside;
    if h == 0 {
      forall k: nat | k < |new'|
        ensures old'[k] == new'[k]
      {
        if Inside(k, width, Rect(x, x + w - 1, y, y + h - 1)) {
          FirstRowOrBelow(k, width, x, y, w, h);
        }
      }
    } else {
      NextRow(w, h - 1);
      RowFits(width, y, y + h);
      var at := RowStart(width, y) + x;
      var body := Body(new', width, x, y, w, h);
      assert body[..w] == new'[at..at + w] && body[w..] == Body(new', width, x, y + 1, w, h - 1);
      var next := old'[..at] + body[..w] + old'[at + w..];
      forall k: nat | k < |new'| && !Inside(k, width, Rect(x, x + w - 1, y + 1, y + 1 + (h - 1) - 1))
        ensures next[k] == new'[k]
      {
        if Inside(k, width, Rect(x, x + w - 1, y, y + h - 1)) {
          FirstRowOrBelow(k, width, x, y, w, h);
        }
      }
      PaintBody(next, new', width, x, y + 1, w, h - 1);
    }
  }

  lemma {:induction false} InSomeRow(w: nat, h: nat, k: nat)
    requires 0 < w && k < RowStart(w, h)
    ensures Inside(k, w, Rect(0, w - 1, 0, h - 1))
  {
    if h > 0 {
      NextRow(w, h - 1);
      if k < RowStart(w, h - 1) {
        InSomeRow(w, h - 1, k);
        var r: nat :| 0 <= r <= h - 2 && RowStart(w, r) <= k <= RowStart(w, r) + (w - 1);
        assert 0 <= r <= h - 1 && RowStart(w, r) + 0 <= k <= RowStart(w, r) + (w - 1);
      } else {
        assert RowStart(w, h - 1) + 0 <= k <= RowStart(w, h - 1) + (w - 1);
      }
    }
  }

  // The rows of the whole frame, one after the other, are the frame as it lies in memory.
  lemma {:induction false} WholeBody(frame: seq<byte>, w: nat, y: nat, h: nat)
    requires |frame| == RowStart(w, y + h)
    ensures RowStart(w, y) <= |frame| && Body(frame, w, 0, y, w, h) == frame[RowStart(w, y)..]
    decreases h
  {
    if h > 0 {
      RowFits(w, y, y + h);
      NextRow(w, y);
      WholeBody(frame, w, y + 1, h - 1);
    }
  }
}
