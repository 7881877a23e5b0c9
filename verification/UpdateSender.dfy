// app/session.c, lines 472-559: answering a FramebufferUpdateRequest.
module UpdateSender {
  import opened Bytes
  import opened Folds
  import opened Driver
  import opened FrameBuffer
  import opened Client
  import opened Updates
  import Crc32
  import CrcBursts
  import RowCopy

  class UpdateSender {
    const fb: FrameBuffer
    // Any picture at all, to compare the screen with.
    ghost const image: int -> byte
    var out: seq<byte>   // everything sent so far
    // The updates so far, when each of them began, and when the last scan of the screen did.
    ghost var turns: seq<Turn>
    ghost var starts: seq<nat>
    ghost var scanned: nat

    ghost function Repr(): set<object> {
      {this, fb, fb.hw, fb.clut, fb.vncClut, fb.frame}
    }

    // What has been sent is what the updates so far called for.
    ghost predicate Sound()
      reads this
    {
      && Session(turns, fb.scrX, fb.scrY) && out == Output(turns, fb.scrX, fb.scrY)
      && |starts| == |turns| && Seen(turns, starts, fb.hw.palette)
      && (turns != [] ==> turns[0].hashBefore == 0)
      && (forall i: nat | i < |turns| :: Supported(fb.hw.mode(i)))
    }

    // And the next update can follow.
    ghost predicate Ready()
      reads Repr()
    {
      && fb.Valid() && Sound() && !fb.clutChanged && fb.hw.modeReads == |turns|
      && if turns == [] then fb.clutHash == 0
         else
           && Last().after == fb.frame[..] && Last().hash == fb.clutHash && Last().colours == fb.vncClut[..]
           && starts[|turns| - 1] + Looks(Last()) <= scanned <= fb.hw.now
           && (fb.hw.Shows(image, scanned, fb.hw.now) ==> Shown(fb.frame[..]))
    }

    // Time `t` is over, before which updates had begun at `was`; all others have begun since.
    ghost predicate Since(t: nat, was: seq<nat>)
      reads this`starts, fb.hw`now
    {
      t <= fb.hw.now && was <= starts && forall i | |was| <= i < |starts| :: t <= starts[i]
    }

    lemma StillSince(t: nat, was: seq<nat>, t': nat, was': seq<nat>)
      requires t <= t' && was <= was' && (forall i | |was| <= i < |was'| :: t <= was'[i])
      requires Since(t', was')
      ensures Since(t, was)
    {
    }

    ghost function Last(): Turn
      requires turns != []
      reads this
    {
      turns[|turns| - 1]
    }

    // A frame shows the picture, as far as the last update would copy it.
    ghost predicate Shown(frame: seq<byte>)
      requires turns != [] && Supported(fb.hw.mode(|turns| - 1))
      reads this
    {
      var mode := fb.hw.mode(|turns| - 1);
      Displayed(frame, fb.scrX, fb.scrY, mode.pixelSize, image, fb.physed, mode.rowBytes)
    }

    constructor (fb: FrameBuffer, ghost image: int -> byte)
      requires fb.Valid() && !fb.clutChanged && fb.clutHash == 0 && fb.hw.modeReads == 0
      ensures this.fb == fb && this.image == image && out == [] && turns == []
      ensures Ready()
    {
      this.fb, this.image, out, turns, starts, scanned := fb, image, [], [], [], 0;
      new;
      EmptySession(fb.scrX, fb.scrY);
    }

    method Send(data: seq<byte>)
      modifies this`out
      ensures out == old(out) + data
    {
      out := out + data;
    }

    // vnc_upd_send_colourmap
    method SendColourMap()
      requires fb.Valid()
      modifies this`out, fb`clutChanged
      ensures !fb.clutChanged
      ensures out == old(out) + if old(fb.clutChanged) then ColourMapBytes(fb.vncClut[..]) else []
    {
      if fb.clutChanged {
        Send([1, 0] + Put16(0) + Put16(256));
        Send(Concat(ColourBytes, fb.vncClut[..]));
        fb.clutChanged := false;
        assert out == old(out) + ColourMapBytes(fb.vncClut[..]);
      }
    }

    // vnc_upd_send_hdr_raw
    method SendHeader(incremental: byte) returns (incremental': byte)
      requires fb.Valid() && OnScreen(fb.lastDirty, fb.scrX, fb.scrY)
      modifies this`out
      ensures var big := fb.lastDirty.Height() > fb.scrY / 2 && fb.lastDirty.Width() > fb.scrX / 2;
              incremental' == if fb.clutChanged || big then 0 else incremental
      ensures var rect := if incremental' != 0 then fb.lastDirty else Rect(0, fb.scrX - 1, 0, fb.scrY - 1);
              out == old(out) + UpdateHeader(rect.x1, rect.y1, rect.Width(), rect.Height())
    {
      var x, y, w, h := 0, 0, fb.scrX, fb.scrY;
      incremental' := incremental;
      if fb.clutChanged {
        incremental' := 0;
      }
      if fb.lastDirty.Height() > h / 2 && fb.lastDirty.Width() > w / 2 {
        incremental' := 0;
      }
      if incremental' != 0 {
        y, h := fb.lastDirty.y1, fb.lastDirty.Height();
        x, w := fb.lastDirty.x1, fb.lastDirty.Width();
      }
      Send(UpdateHeader(x, y, w, h));
    }

    // vnc_send_body_raw
    method SendBody(incremental: byte)
      requires fb.Valid() && OnScreen(fb.lastDirty, fb.scrX, fb.scrY)
      modifies this`out, fb`cursor
      ensures var rect := if incremental != 0 then fb.lastDirty else Rect(0, fb.scrX - 1, 0, fb.scrY - 1);
              && RowStart(fb.scrX, rect.y1 + rect.Height()) <= fb.frame.Length
              && out == old(out) + Body(fb.frame[..], fb.scrX, rect.x1, rect.y1, rect.Width(), rect.Height())
    {
      RowsFit(fb.scrX, fb.lastDirty.y2 + 1, fb.scrY);
      if incremental == 0 {
        Send(fb.frame[..]);
        WholeBody(fb.frame[..], fb.scrX, 0, fb.scrY);
      } else {
        SendDirty();
      }
    }

    // The rows that the dirty cursor passes over.
    method SendDirty()
      requires fb.Valid() && OnScreen(fb.lastDirty, fb.scrX, fb.scrY)
      requires RowStart(fb.scrX, fb.lastDirty.y1 + fb.lastDirty.Height()) <= fb.frame.Length
      modifies this`out, fb`cursor
      ensures var r := fb.lastDirty;
              out == old(out) + Body(fb.frame[..], fb.scrX, r.x1, r.y1, r.Width(), r.Height())
    {
      hide RowStart, Body;
      ghost var r, frame := fb.lastDirty, fb.frame[..];
      ghost var all := Body(frame, fb.scrX, r.x1, r.y1, r.Width(), r.Height());
      fb.ResetDirtyCursor();
      while fb.MoreDirty()
        invariant 0 <= fb.cursor.increments <= r.Height() && fb.cursor == CursorAt(r, fb.scrX, fb.cursor.increments)
        invariant old(out) + all ==
                  out + Body(frame, fb.scrX, r.x1, r.y1 + fb.cursor.increments, r.Width(), r.Height() - fb.cursor.increments)
        decreases r.Height() - fb.cursor.increments
      {
        ghost var n := fb.cursor.increments;
        BodySplit(frame, fb.scrX, r.x1, r.y1 + n, r.Width(), r.Height() - n, out);
        Send(fb.frame[fb.cursor.offset..fb.cursor.offset + fb.SizeAtDirtyCursor()]);
        fb.AdvanceDirtyCursor(n);
      }
      BodyDone(frame, fb.scrX, r.x1, r.y1 + r.Height(), r.Width(), out);
    }

    lemma BodyDone(frame: seq<byte>, width: nat, x: nat, y: nat, w: nat, sent: seq<byte>)
      requires x + w <= width && RowStart(width, y) <= |frame|
      ensures sent + Body(frame, width, x, y, w, 0) == sent
    {
    }

    lemma BodySplit(frame: seq<byte>, width: nat, x: nat, y: nat, w: nat, h: nat, sent: seq<byte>)
      requires 0 < h && x + w <= width && RowStart(width, y + h) <= |frame|
      ensures RowStart(width, y) + x + w <= |frame|
      ensures var at := RowStart(width, y) + x;
              sent + Body(frame, width, x, y, w, h) == sent + frame[at..at + w] + Body(frame, width, x, y + 1, w, h - 1)
    {
      RowFits(width, y, y + h);
    }

    // The three parts of an answer.
    method SendAnswer(incremental: byte, ghost turn: Turn) returns (incremental': byte)
      requires fb.Valid() && Proper(turn, fb.scrX, fb.scrY) && turn.incremental == incremental
      requires turn.after == fb.frame[..] && turn.dirty == fb.lastDirty && turn.colours == fb.vncClut[..]
      requires fb.clutChanged == Recoloured(turn)
      modifies this`out, fb`clutChanged, fb`cursor
      ensures !fb.clutChanged && out == old(out) + Sent(turn, fb.scrX, fb.scrY)
      ensures incremental' == if Partial(turn, fb.scrX, fb.scrY) then incremental else 0
    {
      hide Proper, Body, UpdateHeader, ColourMapBytes, RowStart, OnScreen;
      SentRectFits(turn, fb.scrX, fb.scrY);
      SendColourMap();
      incremental' := SendHeader(incremental);
      SendBody(incremental');
      ghost var rect := SentRect(turn, fb.scrX, fb.scrY);
      Assembled(old(out), if Recoloured(turn) then ColourMapBytes(turn.colours) else [],
                UpdateHeader(rect.x1, rect.y1, rect.Width(), rect.Height()),
                Body(fb.frame[..], fb.scrX, rect.x1, rect.y1, rect.Width(), rect.Height()));
    }

    lemma Assembled(a: seq<byte>, b: seq<byte>, c: seq<byte>, d: seq<byte>)
      ensures a + b + c + d == a + (b + (c + d))
    {
    }

    // vnc_evt_update_request: bring the frame up to date and send what the client needs of it.
    // The result is false if the session ends with an error.
    method UpdateAndAnswer(incremental: byte)
      returns (ok: bool, incremental': byte, ghost turn: Turn, ghost began: nat)
      requires fb.Valid() && !fb.clutChanged
      modifies this`out, fb, fb.hw, fb.clut, fb.vncClut, fb.frame
      ensures fb.hw.modeReads == old(fb.hw.modeReads) + 1
      ensures ok == Supported(fb.hw.mode(old(fb.hw.modeReads)))
      ensures turn.incremental == incremental && turn.before == old(fb.frame[..]) && turn.after == fb.frame[..]
      ensures turn.hashBefore == old(fb.clutHash) && turn.hash == fb.clutHash
      ensures turn.coloursBefore == old(fb.vncClut[..]) && turn.colours == fb.vncClut[..]
      ensures forall k :: turn.view(k) == Table(fb.hw.palette, old(fb.hw.now), k)
      ensures old(fb.hw.now) + Looks(turn) <= began <= fb.hw.now
      ensures ok ==> Proper(turn, fb.scrX, fb.scrY) && out == old(out) + Sent(turn, fb.scrX, fb.scrY) && !fb.clutChanged
      ensures !ok ==> out == old(out)
      ensures incremental' == if ok && !Partial(turn, fb.scrX, fb.scrY) then 0 else incremental
      ensures ok ==>
                var mode := fb.hw.mode(old(fb.hw.modeReads));
                Scan(turn.before, turn.after, fb.scrX, fb.scrY, turn.changed, turn.dirty, mode.pixelSize, image, fb.physed,
                     mode.rowBytes, fb.hw.Shows(image, began, fb.hw.now))
    {
      hide Crc32.Crc, ColourAt, RowStart, Scan, Proper, Sent, Partial;
      ghost var t, before, hash0, colours0 := fb.hw.now, fb.frame[..], fb.clutHash, fb.vncClut[..];
      ok, began := fb.Update(image);
      incremental' := incremental;
      turn := Turn(incremental, before, fb.frame[..], fb.lastChanged, fb.lastDirty,
                   if ok then RowCopy.Unit(fb.mode.pixelSize) else 4,
                   hash0, fb.clutHash, colours0, fb.vncClut[..], (k: nat) => Table(fb.hw.palette, t, k));
      if !ok {
        return;
      }
      IsProper(turn, fb.scrX, fb.scrY, fb.mode.pixelSize, image, fb.physed, fb.mode.rowBytes,
               fb.hw.Shows(image, began, fb.hw.now));
      incremental' := SendAnswer(incremental, turn);
    }

    // The same, as the next update of the session.
    method EvtUpdateRequest(incremental: byte) returns (ok: bool, incremental': byte)
      requires Ready()
      modifies Repr()
      ensures Sound() && (ok ==> Ready())
      ensures ok == Supported(fb.hw.mode(|old(turns)|))
      ensures !ok ==> turns == old(turns) && starts == old(starts) && out == old(out)
      ensures ok ==> |turns| == |old(turns)| + 1 && turns[..|old(turns)|] == old(turns)
      ensures ok ==> Last().incremental == incremental && Last().before == old(fb.frame[..])
      ensures ok ==> starts == old(starts) + [old(fb.hw.now)] && old(fb.hw.now) < scanned <= fb.hw.now
      ensures Since(old(fb.hw.now), old(starts))
      ensures incremental' == if ok && !Partial(Last(), fb.scrX, fb.scrY) then 0 else incremental
      // The update itself, on a screen that showed the picture meanwhile.
      ensures ok ==>
                var mode := fb.hw.mode(|turns| - 1);
                Scan(Last().before, Last().after, fb.scrX, fb.scrY, Last().changed, Last().dirty, mode.pixelSize, image,
                     fb.physed, mode.rowBytes, fb.hw.Shows(image, scanned, fb.hw.now))
    {
      hide Scan, Proper, Sent, Partial, Session, Output, Seen, RowStart, ColourAt;
      ghost var start, turn, began := fb.hw.now, *, *;
      ok, incremental', turn, began := UpdateAndAnswer(incremental);
      if ok {
        SessionSnoc(turns, turn, fb.scrX, fb.scrY);
        SeenSnoc(turns, starts, fb.hw.palette, turn, start);
        ScanShows(turn, fb.scrX, fb.scrY, fb.hw.mode(|turns|), image, fb.physed, fb.hw.Shows(image, began, fb.hw.now));
        turns, starts, scanned := turns + [turn], starts + [start], began;
      }
    }

    lemma ScanShows(t: Turn, w: nat, h: nat, mode: VideoMode, image: int -> byte, base: int, stable: bool)
      requires Supported(mode)
      requires Scan(t.before, t.after, w, h, t.changed, t.dirty, mode.pixelSize, image, base, mode.rowBytes, stable)
      ensures stable ==> Displayed(t.after, w, h, mode.pixelSize, image, base, mode.rowBytes)
    {
    }

    // A client that has read everything, and was sent a whole frame at some time, has the daemon's
    // frame. If the screen has shown the picture since the last scan began, so does the client.
    lemma ClientMirrors(c: Client)
      requires Ready() && Fits(c) && c.w == fb.scrX && c.h == fb.scrY
      requires exists i | 0 <= i < |turns| :: !Partial(turns[i], c.w, c.h)
      ensures ReceiveAll(c, out).Got? && ReceiveAll(c, out).client.pixels == fb.frame[..]
      ensures fb.hw.Shows(image, scanned, fb.hw.now) ==> Shown(ReceiveAll(c, out).client.pixels)
    {
      hide Session, Output, ReceiveAll, Partial, Displayed;
      Updates.ClientMirrors(c, turns);
    }

    // The colours come first: a client that has read any number of whole messages has the picture
    // after k updates, and the colours after them or, if those are new, already the ones of the next
    // update. It never has a picture without its colours.
    lemma ColoursFirst(c: Client, n: nat) returns (k: nat)
      requires Sound() && Fits(c) && c.w == fb.scrX && c.h == fb.scrY
      requires n <= |out| && ReceiveAll(c, out[..n]).Got?
      ensures k <= |turns| && (n == |out| ==> k == |turns|)
      ensures var d := ReceiveAll(c, out[..n]).client;
              && (k == 0 ==> d.pixels == c.pixels)
              && ((exists i | 0 <= i < k :: !Partial(turns[i], c.w, c.h)) ==> d.pixels == turns[k - 1].after)
              && (|| (k < |turns| && turns[k].hash != turns[k].hashBefore && d.colours == turns[k].colours)
                  || d.colours == if exists i | 0 <= i < k :: turns[i].hash != turns[i].hashBefore
                                  then turns[k - 1].colours else c.colours)
    {
      hide ReceiveAll, Partial, Proper, Seen, Sent;
      k := SessionPrefix(c, turns, n);
      Updates.ClientMirrors(c, turns[..k]);
      if k == 0 {
        NothingReceived(c);
      } else {
        ClientHasColours(c, turns[..k]);
      }
      assert forall i | 0 <= i < k :: turns[..k][i] == turns[i];
    }

    // Its colours are the driver's present ones exactly if what was fetched last still holds.
    lemma ClientColours(c: Client, j: nat)
      requires Sound() && Fits(c) && c.w == fb.scrX && c.h == fb.scrY && LastRecoloured(turns, j)
      ensures ReceiveAll(c, out).Got?
      ensures var present := fb.hw.palette(starts[|turns| - 1]);
              ReceiveAll(c, out).client.colours == Colours(present) <==>
                forall i | 0 <= i < 256 :: ColourAt(Table(fb.hw.palette, starts[j], 1 + i / 8), i) == ColourAt(present, i)
      ensures Steady(fb.hw.palette, starts[j]) &&
              CrcBursts.Near(fb.hw.palette(starts[j]), fb.hw.palette(starts[|turns| - 1])) ==>
                ReceiveAll(c, out).client.colours == Colours(fb.hw.palette(starts[|turns| - 1]))
    {
      hide Session, Output, ReceiveAll, ColourAt, Steady, CrcBursts.Near, Crc32.Crc;
      Updates.ClientColours(c, turns, starts, fb.hw.palette, j);
      if Steady(fb.hw.palette, starts[j]) && CrcBursts.Near(fb.hw.palette(starts[j]), fb.hw.palette(starts[|turns| - 1])) {
        ClientShowsSmallChanges(c, turns, starts, fb.hw.palette, j);
      }
    }

    // A session of update requests, up to the first that ends in an error.
    method ServeUpdates(requests: seq<byte>, ghost c: Client) returns (ok: bool)
      requires Ready() && Fits(c) && c.w == fb.scrX && c.h == fb.scrY
      modifies Repr()
      ensures Sound() && (ok ==> Ready())
      ensures ok <==> forall n: nat | |old(turns)| <= n < |old(turns)| + |requests| :: Supported(fb.hw.mode(n))
      ensures |old(turns)| <= |turns| <= |old(turns)| + |requests| && turns[..|old(turns)|] == old(turns)
      ensures forall i | |old(turns)| <= i < |turns| :: turns[i].incremental == requests[i - |old(turns)|]
      ensures ok ==> |turns| == |old(turns)| + |requests|
      ensures Since(old(fb.hw.now), old(starts))
      ensures ok && (exists i | 0 <= i < |turns| :: !Partial(turns[i], c.w, c.h)) ==>
                && ReceiveAll(c, out).Got? && ReceiveAll(c, out).client.pixels == fb.frame[..]
                && (fb.hw.Shows(image, scanned, fb.hw.now) ==> Shown(ReceiveAll(c, out).client.pixels))
    {
      hide Session, Output, Seen, Scan, Partial, ReceiveAll, Displayed, RowStart;
      ok := true;
      var i: nat := 0;
      while i < |requests|
        invariant i <= |requests| && |turns| == |old(turns)| + i && ok
        invariant Ready() && Since(old(fb.hw.now), old(starts))
        invariant turns[..|old(turns)|] == old(turns)
        invariant forall n: nat | |old(turns)| <= n < |turns| :: Supported(fb.hw.mode(n))
        invariant forall k | |old(turns)| <= k < |turns| :: turns[k].incremental == requests[k - |old(turns)|]
      {
        ghost var was := turns;
        var incremental;
        ok, incremental := EvtUpdateRequest(requests[i]);
        if !ok {
          return;
        }
        assert forall k | 0 <= k < |was| :: turns[k] == turns[..|was|][k] == was[k];
        i := i + 1;
      }
      if exists i | 0 <= i < |turns| :: !Partial(turns[i], c.w, c.h) {
        ClientMirrors(c);
      }
    }
  }
}
