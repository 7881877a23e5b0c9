// Whole sessions of framebuffer updates: what the daemon sends in answer to each request, and what
// a client that reads it all ends up with.
module Updates {
  import opened Bytes
  import opened Driver
  import opened FrameBuffer
  import opened Client
  import Crc32
  import CrcBursts
  import RowCopy

  // One update request and what the daemon made of it. `view(k)` is the driver's colour table as
  // the k-th access since the request came in finds it.
  datatype Turn = Turn(incremental: byte, before: seq<byte>, after: seq<byte>, changed: bool, dirty: Rect, unit: nat,
                       hashBefore: bv32, hash: bv32, coloursBefore: seq<Colour>, colours: seq<Colour>, view: nat -> Palette)

  ghost predicate Proper(t: Turn, w: nat, h: nat) {
    && (t.unit == 2 || t.unit == 4)
    && |t.before| == |t.after| == RowStart(w, h) && |t.coloursBefore| == |t.colours| == 256
    && Found(t.before, t.after, w, h, t.changed, t.dirty, t.unit)
    && (!t.changed ==> t.dirty == Rect(0, 0, 0, 0))
    && t.hash == Crc32.Crc(t.view(0))
    && if Recoloured(t) then forall i | 0 <= i < 256 :: t.colours[i] == ColourAt(t.view(1 + i / 8), i)
       else t.colours == t.coloursBefore
  }

  lemma IsProper(t: Turn, w: nat, h: nat, depth: nat, image: int -> byte, base: int, pitch: int, stable: bool)
    requires depth in {1, 2, 4, 8} && t.unit == RowCopy.Unit(depth)
    requires |t.before| == RowStart(w, h) && |t.coloursBefore| == |t.colours| == 256
    requires Scan(t.before, t.after, w, h, t.changed, t.dirty, depth, image, base, pitch, stable)
    requires !t.changed ==> t.dirty == Rect(0, 0, 0, 0)
    requires t.hash == Crc32.Crc(t.view(0))
    requires if Recoloured(t) then forall i | 0 <= i < 256 :: t.colours[i] == ColourAt(t.view(1 + i / 8), i)
             else t.colours == t.coloursBefore
    ensures Proper(t, w, h)
  {
    hide Framed, Crc32.Crc, ColourAt;
  }

  predicate Recoloured(t: Turn) {
    t.hash != t.hashBefore
  }

  // Whether just the dirty rectangle is sent: not if the client wants it all, and not if it is
  // more than half the screen both ways.
  predicate Partial(t: Turn, w: nat, h: nat) {
    t.incremental != 0 && !(t.dirty.Height() > h / 2 && t.dirty.Width() > w / 2)
  }

  function SentRect(t: Turn, w: nat, h: nat): Rect {
    if Partial(t, w, h) then t.dirty else Rect(0, w - 1, 0, h - 1)
  }

  lemma SentRectFits(t: Turn, w: nat, h: nat)
    requires Proper(t, w, h) && 0 < w && 0 < h
    ensures OnScreen(t.dirty, w, h) && OnScreen(SentRect(t, w, h), w, h)
  {
  }

  // What is sent of an incremental update is half the screen at most, in rows or in columns; the
  // whole is sent instead only if the changes span more than a quarter of it.
  lemma HalfOrAll(t: Turn, w: nat, h: nat)
    requires Proper(t, w, h) && 0 < w && 0 < h && t.incremental != 0
    ensures var rect := SentRect(t, w, h);
            || (rect == t.dirty && (2 * rect.Height() <= h || 2 * rect.Width() <= w))
            || (rect == Rect(0, w - 1, 0, h - 1) && 2 * t.dirty.Height() > h && 2 * t.dirty.Width() > w)
  {
  }

  ghost function UpdateBytes(frame: seq<byte>, w: nat, h: nat, rect: Rect): seq<byte>
    requires 0 < w < 0x1_0000 && 0 < h < 0x1_0000 && |frame| == RowStart(w, h) && OnScreen(rect, w, h)
  {
    RowsFit(w, rect.y2 + 1, h);
    UpdateHeader(rect.x1, rect.y1, rect.Width(), rect.Height())
      + Body(frame, w, rect.x1, rect.y1, rect.Width(), rect.Height())
  }

  // The answer to a request.
  ghost function Sent(t: Turn, w: nat, h: nat): seq<byte>
    requires 0 < w < 0x1_0000 && 0 < h < 0x1_0000 && Proper(t, w, h)
  {
    SentRectFits(t, w, h);
    (if Recoloured(t) then ColourMapBytes(t.colours) else []) + UpdateBytes(t.after, w, h, SentRect(t, w, h))
  }

  // ----- one turn -----

  lemma ReceiveRect(c: Client, before: seq<byte>, after: seq<byte>, rect: Rect)
    requires Fits(c) && |before| == |after| == |c.pixels| && OnScreen(rect, c.w, c.h)
    requires c.pixels == before && Framed(before, after, c.w, rect)
    ensures ReceiveAll(c, UpdateBytes(after, c.w, c.h, rect)) == Got(c.(pixels := after), [])
  {
    hide RowStart, Paint, Body, UpdateHeader, Receive;
    var x, y, w, h := rect.x1, rect.y1, rect.Width(), rect.Height();
    RowsFit(c.w, rect.y2 + 1, c.h);
    var body := Body(after, c.w, x, y, w, h);
    var s := UpdateBytes(after, c.w, c.h, rect);
    assert rect == Rect(x, x + w - 1, y, y + h - 1);
    PaintBody(before, after, c.w, x, y, w, h);
    ReceiveUpdate(c, x, y, w, h, body, []);
    assert s == UpdateHeader(x, y, w, h) + body + [];
    HeaderIs(x, y, w, h);
  }

  lemma ReceiveWhole(c: Client, after: seq<byte>)
    requires Fits(c) && |after| == |c.pixels|
    ensures ReceiveAll(c, UpdateBytes(after, c.w, c.h, Rect(0, c.w - 1, 0, c.h - 1))) == Got(c.(pixels := after), [])
  {
    var rect := Rect(0, c.w - 1, 0, c.h - 1);
    forall k: nat | k < |after|
      ensures Inside(k, c.w, rect)
    {
      InSomeRow(c.w, c.h, k);
    }
    ReceiveRect(c, c.pixels, after, rect);
  }

  lemma ReceiveUpdateOf(c: Client, t: Turn)
    requires Fits(c) && Proper(t, c.w, c.h)
    requires c.pixels == t.before || !Partial(t, c.w, c.h)
    ensures OnScreen(SentRect(t, c.w, c.h), c.w, c.h)
    ensures ReceiveAll(c, UpdateBytes(t.after, c.w, c.h, SentRect(t, c.w, c.h))) == Got(c.(pixels := t.after), [])
  {
    SentRectFits(t, c.w, c.h);
    if Partial(t, c.w, c.h) {
      ReceiveRect(c, t.before, t.after, t.dirty);
    } else {
      ReceiveWhole(c, t.after);
    }
  }

  // An update that the client cannot make sense of it can at least take in.
  lemma ReceiveAny(c: Client, frame: seq<byte>, rect: Rect)
    requires Fits(c) && |frame| == |c.pixels| && OnScreen(rect, c.w, c.h)
    ensures ReceiveAll(c, UpdateBytes(frame, c.w, c.h, rect)).Got?
    ensures ReceiveAll(c, UpdateBytes(frame, c.w, c.h, rect)).client.colours == c.colours
  {
    hide RowStart, Paint, Body, UpdateHeader, Receive;
    var x, y, w, h := rect.x1, rect.y1, rect.Width(), rect.Height();
    RowsFit(c.w, rect.y2 + 1, c.h);
    var body := Body(frame, c.w, x, y, w, h);
    ReceiveUpdate(c, x, y, w, h, body, []);
    assert UpdateBytes(frame, c.w, c.h, rect) == UpdateHeader(x, y, w, h) + body + [];
    HeaderIs(x, y, w, h);
  }

  function ColoursAfter(t: Turn, colours: seq<Colour>): seq<Colour> {
    if Recoloured(t) then t.colours else colours
  }

  // A client that had the frame before, or is sent all of it, has the frame after; its colours are
  // the daemon's whenever they are sent.
  lemma TurnMirrored(c: Client, t: Turn)
    requires Fits(c) && Proper(t, c.w, c.h)
    ensures ReceiveAll(c, Sent(t, c.w, c.h)).Got?
    ensures var c' := ReceiveAll(c, Sent(t, c.w, c.h)).client;
            && (c.pixels == t.before || !Partial(t, c.w, c.h) ==> c'.pixels == t.after)
            && c'.colours == ColoursAfter(t, c.colours)
  {
    hide Receive, UpdateBytes, ColourMapBytes, Found, Partial;
    SentRectFits(t, c.w, c.h);
    var rect := SentRect(t, c.w, c.h);
    var colourMap := if Recoloured(t) then ColourMapBytes(t.colours) else [];
    var update := UpdateBytes(t.after, c.w, c.h, rect);
    var mid := c.(colours := ColoursAfter(t, c.colours));
    if Recoloured(t) {
      ReceiveColourMapAlone(c, t.colours);
    } else {
      assert [] + update == update;
    }
    assert ReceiveAll(c, colourMap) == Got(mid, []);
    ReceiveAllAppend(c, colourMap, update);
    ReceiveAny(mid, t.after, rect);
    if c.pixels == t.before || !Partial(t, c.w, c.h) {
      ReceiveUpdateOf(mid, t);
    }
  }

  lemma ReceiveColourMapAlone(c: Client, colours: seq<Colour>)
    requires Fits(c) && |colours| == 256
    ensures ReceiveAll(c, ColourMapBytes(colours)) == Got(c.(colours := colours), [])
  {
    hide Receive;
    ReceiveColourMap(c, colours, []);
    assert ColourMapBytes(colours) + [] == ColourMapBytes(colours);
  }

  // ----- what a client has seen in the middle of an answer -----

  // No message ends before its end.
  lemma NoShorterMessage(c: Client, m: seq<byte>, n: nat)
    requires Fits(c) && m != [] && Receive(c, m).Got? && Receive(c, m).rest == [] && 0 < n < |m|
    ensures ReceiveAll(c, m[..n]) == Stuck
  {
    hide Receive;
    assert m[..n] + m[n..] == m;
    if Receive(c, m[..n]).Got? {
      ReceiveAppend(c, m[..n], m[n..]);
    }
  }

  lemma UpdateIsOne(c: Client, frame: seq<byte>, rect: Rect)
    requires Fits(c) && |frame| == |c.pixels| && OnScreen(rect, c.w, c.h)
    ensures var m := UpdateBytes(frame, c.w, c.h, rect);
            m != [] && Receive(c, m).Got? && Receive(c, m).rest == []
  {
    hide RowStart, Paint, Body, UpdateHeader, Receive;
    var x, y, w, h := rect.x1, rect.y1, rect.Width(), rect.Height();
    RowsFit(c.w, rect.y2 + 1, c.h);
    var body := Body(frame, c.w, x, y, w, h);
    ReceiveUpdate(c, x, y, w, h, body, []);
    assert UpdateBytes(frame, c.w, c.h, rect) == UpdateHeader(x, y, w, h) + body + [];
    HeaderIs(x, y, w, h);
  }

  lemma ColourMapIsOne(c: Client, colours: seq<Colour>)
    requires Fits(c) && |colours| == 256
    ensures ColourMapBytes(colours) != []
    ensures Receive(c, ColourMapBytes(colours)) == Got(c.(colours := colours), [])
  {
    hide Receive;
    ReceiveColourMap(c, colours, []);
    assert ColourMapBytes(colours) + [] == ColourMapBytes(colours);
  }

  // The only places in front of the end of two messages, `a` possibly missing, at which a client is
  // not in the middle of one.
  lemma BetweenMessages(c: Client, a: seq<byte>, mid: Client, b: seq<byte>, n: nat)
    requires Fits(c) && Fits(mid) && (if a == [] then mid == c else Receive(c, a) == Got(mid, []))
    requires b != [] && Receive(mid, b).Got? && Receive(mid, b).rest == []
    requires n < |a + b| && ReceiveAll(c, (a + b)[..n]).Got?
    ensures ReceiveAll(c, (a + b)[..n]).client in {c, mid}
  {
    hide Receive;
    assert ReceiveAll(c, a) == Got(mid, []);
    if n < |a| {
      assert (a + b)[..n] == a[..n];
      if n > 0 {
        NoShorterMessage(c, a, n);
      }
    } else {
      var m := n - |a|;
      assert (a + b)[..n] == a + b[..m];
      ReceiveAllAppend(c, a, b[..m]);
      if m > 0 {
        NoShorterMessage(mid, b, m);
      }
    }
  }

  // Before the end of an answer the client still has the old picture. The colours, if they are
  // sent, it may have already.
  lemma TurnPrefix(c: Client, t: Turn, n: nat)
    requires Fits(c) && Proper(t, c.w, c.h) && n < |Sent(t, c.w, c.h)|
    requires ReceiveAll(c, Sent(t, c.w, c.h)[..n]).Got?
    ensures var d := ReceiveAll(c, Sent(t, c.w, c.h)[..n]).client;
            d == c || (Recoloured(t) && d == c.(colours := t.colours))
  {
    hide Receive, ReceiveAll, UpdateBytes, ColourMapBytes, Found, Partial;
    SentRectFits(t, c.w, c.h);
    var colourMap := if Recoloured(t) then ColourMapBytes(t.colours) else [];
    var mid := c.(colours := ColoursAfter(t, c.colours));
    if Recoloured(t) {
      ColourMapIsOne(c, t.colours);
    }
    UpdateIsOne(mid, t.after, SentRect(t, c.w, c.h));
    BetweenMessages(c, colourMap, mid, UpdateBytes(t.after, c.w, c.h, SentRect(t, c.w, c.h)), n);
  }

  // ----- whole sessions -----

  // Each turn starts where the one before it ended.
  ghost predicate Session(ts: seq<Turn>, w: nat, h: nat) {
    && 0 < w < 0x1_0000 && 0 < h < 0x1_0000
    && (forall i | 0 <= i < |ts| :: Proper(ts[i], w, h))
    && (forall i | 0 < i < |ts| :: Follows(ts[i - 1], ts[i]))
  }

  ghost predicate Follows(s: Turn, t: Turn) {
    t.before == s.after && t.hashBefore == s.hash && t.coloursBefore == s.colours
  }

  ghost function Output(ts: seq<Turn>, w: nat, h: nat): seq<byte>
    requires Session(ts, w, h)
  {
    if ts == [] then [] else Output(ts[..|ts| - 1], w, h) + Sent(ts[|ts| - 1], w, h)
  }

  lemma EmptySession(w: nat, h: nat)
    requires 0 < w < 0x1_0000 && 0 < h < 0x1_0000
    ensures Session([], w, h) && Output([], w, h) == []
  {
  }

  lemma SessionSnoc(ts: seq<Turn>, t: Turn, w: nat, h: nat)
    requires Session(ts, w, h) && Proper(t, w, h) && (ts == [] || Follows(ts[|ts| - 1], t))
    ensures Session(ts + [t], w, h) && Output(ts + [t], w, h) == Output(ts, w, h) + Sent(t, w, h)
  {
    hide Proper, Sent;
    assert (ts + [t])[..|ts|] == ts;
  }

  ghost function ClientAfter(c: Client, ts: seq<Turn>): Outcome
    requires Fits(c) && Session(ts, c.w, c.h)
  {
    ReceiveAll(c, Output(ts, c.w, c.h))
  }

  lemma {:induction false} LastTurn(c: Client, ts: seq<Turn>)
    requires Fits(c) && Session(ts, c.w, c.h) && ts != []
    requires ClientAfter(c, ts[..|ts| - 1]).Got?
    ensures ClientAfter(c, ts) == ReceiveAll(ClientAfter(c, ts[..|ts| - 1]).client, Sent(ts[|ts| - 1], c.w, c.h))
  {
    ReceiveAllAppend(c, Output(ts[..|ts| - 1], c.w, c.h), Sent(ts[|ts| - 1], c.w, c.h));
  }

  // Once a client has been sent a whole frame, it has the daemon's frame after every later update,
  // whatever the requests, the depths and the goings-on in the screen memory.
  lemma {:induction false} ClientMirrors(c: Client, ts: seq<Turn>)
    requires Fits(c) && Session(ts, c.w, c.h)
    ensures ClientAfter(c, ts).Got?
    ensures (exists i | 0 <= i < |ts| :: !Partial(ts[i], c.w, c.h)) ==> ClientAfter(c, ts).client.pixels == ts[|ts| - 1].after
  {
    hide ReceiveAll, Sent, Proper, Partial;
    if ts == [] {
      NothingReceived(c);
    } else {
      var init, last := ts[..|ts| - 1], ts[|ts| - 1];
      ClientMirrors(c, init);
      LastTurn(c, ts);
      TurnMirrored(ClientAfter(c, init).client, last);
      if i :| 0 <= i < |ts| && !Partial(ts[i], c.w, c.h) && i < |init| {
        assert !Partial(init[i], c.w, c.h);
        assert Follows(ts[|ts| - 2], last);
      }
    }
  }

  // A client that has read any number of whole messages has the picture after some number of
  // updates, and the colours after them or, if they are new, already those of the next.
  lemma {:induction false} SessionPrefix(c: Client, ts: seq<Turn>, n: nat) returns (k: nat)
    requires Fits(c) && Session(ts, c.w, c.h) && n <= |Output(ts, c.w, c.h)|
    requires ReceiveAll(c, Output(ts, c.w, c.h)[..n]).Got?
    ensures k <= |ts| && Session(ts[..k], c.w, c.h) && ClientAfter(c, ts[..k]).Got?
    ensures n == |Output(ts, c.w, c.h)| ==> k == |ts|
    ensures var d, e := ReceiveAll(c, Output(ts, c.w, c.h)[..n]).client, ClientAfter(c, ts[..k]).client;
            && d.pixels == e.pixels
            && (d.colours == e.colours || (k < |ts| && Recoloured(ts[k]) && d.colours == ts[k].colours))
    decreases |ts|
  {
    hide ReceiveAll, Sent, Proper, Partial;
    var all := Output(ts, c.w, c.h);
    k := |ts|;
    assert ts[..|ts|] == ts && all[..|all|] == all;
    if n < |all| {
      var init, last := ts[..|ts| - 1], ts[|ts| - 1];
      var before := Output(init, c.w, c.h);
      if n <= |before| {
        assert all[..n] == before[..n];
        k := SessionPrefix(c, init, n);
        assert init[..k] == ts[..k];
      } else {
        k := |ts| - 1;
        ClientMirrors(c, init);
        assert all[..n] == before + Sent(last, c.w, c.h)[..n - |before|];
        ReceiveAllAppend(c, before, Sent(last, c.w, c.h)[..n - |before|]);
        TurnPrefix(ClientAfter(c, init).client, last, n - |before|);
      }
    }
  }

  lemma NothingReceived(c: Client)
    requires Fits(c)
    ensures ReceiveAll(c, []) == Got(c, [])
  {
  }

  // ----- colours over whole sessions -----

  // How many times a turn looks at the driver's colour table.
  function Looks(t: Turn): nat {
    if Recoloured(t) then 33 else 1
  }

  // The driver's table k accesses after `start`.
  function Table(palette: nat -> Palette, start: nat, k: nat): Palette {
    palette(start + k)
  }

  // The turns saw the one table that the driver had as time went by, each from its own start.
  ghost predicate Seen(ts: seq<Turn>, starts: seq<nat>, palette: nat -> Palette) {
    && |starts| == |ts|
    && (forall i | 0 < i < |ts| :: starts[i - 1] + Looks(ts[i - 1]) <= starts[i])
    && (forall i, k: nat | 0 <= i < |ts| :: ts[i].view(k) == Table(palette, starts[i], k))
  }

  lemma SeenSnoc(ts: seq<Turn>, starts: seq<nat>, palette: nat -> Palette, t: Turn, start: nat)
    requires Seen(ts, starts, palette)
    requires ts != [] ==> starts[|ts| - 1] + Looks(ts[|ts| - 1]) <= start
    requires forall k: nat :: t.view(k) == Table(palette, start, k)
    ensures Seen(ts + [t], starts + [start], palette)
  {
    hide Table, Looks;
  }

  // The table was the same throughout a turn that fetched it.
  ghost predicate Steady(palette: nat -> Palette, start: nat) {
    forall k: nat | k <= 32 :: Table(palette, start, k) == palette(start)
  }

  // Turn j is the last one that sent colours.
  ghost predicate LastRecoloured(ts: seq<Turn>, j: nat) {
    j < |ts| && Recoloured(ts[j]) && forall k | j < k < |ts| :: !Recoloured(ts[k])
  }

  // The client's colours are the daemon's, from the first time they are sent.
  lemma {:induction false} ClientHasColours(c: Client, ts: seq<Turn>)
    requires Fits(c) && Session(ts, c.w, c.h) && ts != []
    ensures ClientAfter(c, ts).Got?
    ensures ClientAfter(c, ts).client.colours ==
            if exists i | 0 <= i < |ts| :: Recoloured(ts[i]) then ts[|ts| - 1].colours else c.colours
  {
    hide ReceiveAll, Sent, Partial, Found, ColourAt, Crc32.Crc;
    var init, last := ts[..|ts| - 1], ts[|ts| - 1];
    ClientMirrors(c, init);
    LastTurn(c, ts);
    TurnMirrored(ClientAfter(c, init).client, last);
    if init == [] {
      NothingReceived(c);
    } else {
      ClientHasColours(c, init);
      assert Follows(ts[|ts| - 2], last);
      assert forall i | 0 <= i < |init| :: init[i] == ts[i];
    }
  }

  lemma {:induction false} FindRecoloured(ts: seq<Turn>, i: nat) returns (j: nat)
    requires i < |ts| && Recoloured(ts[i])
    ensures LastRecoloured(ts, j)
    decreases |ts| - i
  {
    j := i;
    if k :| i < k < |ts| && Recoloured(ts[k]) {
      j := FindRecoloured(ts, k);
    }
  }

  // What was sent last is still the daemon's, and the hash is still the one of that time.
  lemma {:induction false} SinceRecoloured(ts: seq<Turn>, w: nat, h: nat, j: nat)
    requires Session(ts, w, h) && LastRecoloured(ts, j)
    ensures ts[|ts| - 1].colours == ts[j].colours && ts[|ts| - 1].hash == ts[j].hash
    decreases |ts|
  {
    hide Found, ColourAt;
    var init := ts[..|ts| - 1];
    if j < |init| {
      SinceRecoloured(init, w, h, j);
      assert Follows(ts[|ts| - 2], ts[|ts| - 1]);
    }
  }

  // The client shows the driver's present colours if and only if every entry was, at its time of
  // being fetched, the last time that any were, what it is now. The tables of both times have the
  // same hash.
  lemma ClientColours(c: Client, ts: seq<Turn>, starts: seq<nat>, palette: nat -> Palette, j: nat)
    requires Fits(c) && Session(ts, c.w, c.h) && Seen(ts, starts, palette) && LastRecoloured(ts, j)
    ensures ClientAfter(c, ts).Got?
    ensures var present := palette(starts[|ts| - 1]);
            && (ClientAfter(c, ts).client.colours == Colours(present) <==>
                  forall i | 0 <= i < 256 :: ColourAt(Table(palette, starts[j], 1 + i / 8), i) == ColourAt(present, i))
            && Crc32.Crc(palette(starts[j])) == Crc32.Crc(present)
  {
    hide ReceiveAll, Sent, Found, Crc32.Crc, ColourAt, Output;
    var last := |ts| - 1;
    ClientHasColours(c, ts);
    SinceRecoloured(ts, c.w, c.h, j);
    assert ts[j].view(0) == Table(palette, starts[j], 0) && ts[last].view(0) == Table(palette, starts[last], 0);
    forall i | 0 <= i < 256
      ensures ts[j].colours[i] == ColourAt(Table(palette, starts[j], 1 + i / 8), i)
    {
      assert ts[j].view(1 + i / 8) == Table(palette, starts[j], 1 + i / 8);
    }
    SameColours(ts[j].colours, palette(starts[last]));
  }

  lemma SameColours(colours: seq<Colour>, p: Palette)
    requires |colours| == 256
    ensures colours == Colours(p) <==> forall i | 0 <= i < 256 :: colours[i] == ColourAt(p, i)
  {
    hide ColourAt;
    if colours == Colours(p) {
      forall i | 0 <= i < 256
        ensures colours[i] == ColourAt(p, i)
      {
        assert Colours(p)[i] == ColourAt(p, i);
      }
    }
  }

  // So it does if the table held still while it was fetched and has since changed within 32
  // neighbouring bits only.
  lemma ClientShowsSmallChanges(c: Client, ts: seq<Turn>, starts: seq<nat>, palette: nat -> Palette, j: nat)
    requires Fits(c) && Session(ts, c.w, c.h) && Seen(ts, starts, palette) && LastRecoloured(ts, j)
    requires Steady(palette, starts[j]) && CrcBursts.Near(palette(starts[j]), palette(starts[|ts| - 1]))
    ensures ClientAfter(c, ts).Got?
    ensures ClientAfter(c, ts).client.colours == Colours(palette(starts[|ts| - 1]))
  {
    hide ReceiveAll, Output, Session, Table, ColourAt, CrcBursts.Near, Crc32.Crc;
    var before, present := palette(starts[j]), palette(starts[|ts| - 1]);
    ClientColours(c, ts, starts, palette, j);
    CrcBursts.NearDetected(before, present);
    forall i | 0 <= i < 256
      ensures ColourAt(Table(palette, starts[j], 1 + i / 8), i) == ColourAt(present, i)
    {
      assert Table(palette, starts[j], 1 + i / 8) == palette(starts[j]);
    }
  }

  // The hash of the last time starts out as 0: the first table is sent unless that is its hash.
  lemma FirstTableIsSent(ts: seq<Turn>, w: nat, h: nat, starts: seq<nat>, palette: nat -> Palette) returns (j: nat)
    requires Session(ts, w, h) && Seen(ts, starts, palette) && ts != []
    requires ts[0].hashBefore == 0 && Crc32.Crc(palette(starts[0])) != 0
    ensures LastRecoloured(ts, j)
  {
    hide Found, Crc32.Crc, ColourAt;
    assert ts[0].view(0) == Table(palette, starts[0], 0);
    j := FindRecoloured(ts, 0);
  }
}
