// The whole way: from the octets that a client writes, cut up by the socket as it may be, to the text
// on the Macintosh and the picture on the client's screen.
module Remote {
  import opened Bytes
  import opened Client
  import opened Folds
  import opened Keyboard
  import opened Typing
  import opened UpdateSender
  import opened Updates
  import Driver
  import Kchr
  import KeyLedger
  import Messages
  import MessageReader
  import Wire

  // The handler calls that the client's messages should lead to.
  function Calls(ps: seq<Wire.SendablePacket>): seq<Messages.Event> {
    Concat(Wire.EventsOf, ps)
  }

  // A session that has served these messages, and is ready for more.
  ghost predicate HasServed(r: MessageReader.MessageReader, ps: seq<Wire.SendablePacket>)
    reads r, r.message, r.updates.Repr(), r.keyboard
    reads r.keyboard.kchr.modifiers, r.keyboard.kchr.entries, r.keyboard.kchr.deads
  {
    r.Valid() && !r.failed && r.events == Calls(ps)
  }

  // The screen at the other end is of the same size.
  ghost predicate Matches(c: Client, r: MessageReader.MessageReader) {
    Fits(c) && c.w == r.updates.fb.scrX && c.h == r.updates.fb.scrY
  }

  // However the socket cuts up what a client wrote, the daemon serves it, if it can be served and the
  // screen is in a supported depth at each update request.
  method Serve(r: MessageReader.MessageReader, chunks: seq<seq<byte>>, ghost ps: seq<Wire.SendablePacket>)
    requires HasServed(r, []) && r.dst == 0
    requires forall c | c in chunks :: 0 < |c| <= 256
    requires MessageReader.Stream(chunks) == Concat(Wire.Encode, ps)
    requires forall i | 0 <= i < |ps| :: Wire.Served(ps[i])
    requires Wire.Supports(r.supported, 0, |Messages.Requests(Calls(ps))|)
    modifies r`events, r`failed, r`dst, r.message, r.recvBuf, r.updates.Repr(), r.keyboard
    ensures HasServed(r, ps) && r.updates.Since(old(r.updates.fb.hw.now), old(r.updates.starts))
  {
    hide MessageReader.MessageReader.UpToDate, Wire.Served, Wire.Encode, Wire.EventsOf, Messages.Feed, Messages.Requests;
    Wire.NothingYet();
    Wire.FeedMessages(r.Now(), ps);
    assert [] + Calls(ps) == Calls(ps);
    r.ReadAndHandleMessages(chunks);
  }

  // Of the keys in these messages the text comes out as it was typed, less what the layout does not
  // have, if the modifiers that the client holds do not get in the way. If it has let go of all keys
  // by then, nothing is held.
  lemma TextArrives(r: MessageReader.MessageReader, ps: seq<Wire.SendablePacket>, l: Kchr.Layout, script: seq<Act>)
    requires HasServed(r, ps) && WellFormed(l) && r.keyboard.kchr.Now() == Kchr.Inverse(l)
    requires MessageReader.Keys(Calls(ps)) == Events(script)
    requires Kchr.Whole(Kchr.Inverse(l)) && Playable(l, Kchr.Inverse(l), r.keyboard.macroman, script, NONE)
    ensures var end := Replay(l, Desk(NONE, Nothing, []), r.keyboard.injected);
            && end.typed == Text(l, r.keyboard.macroman, script) && end.waiting == Nothing
            && ((forall k: uint32 :: !KeyLedger.IsPressed(Events(script), k)) ==> end.held == NONE)
  {
    hide Kchr.Inverse, Kchr.Whole, Playable, Text, Events, Replay, KeyLedger.Injected, KeyLedger.IsPressed,
         UpdateSender.Sound, UpdateSender.Ready;
    var macroman := r.keyboard.macroman;
    var held := TypesText(l, macroman, script, NONE, []);
    assert [] + Text(l, macroman, script) == Text(l, macroman, script);
    if forall k: uint32 :: !KeyLedger.IsPressed(Events(script), k) {
      NothingHeldAtEnd(l, macroman, Events(script), Desk(NONE, Nothing, []));
    }
  }

  // Once a client has asked for a whole frame and reads all that it is sent, it has the daemon's frame,
  // and shows what has been on the screen since the last scan of it began.
  lemma ScreenArrives(r: MessageReader.MessageReader, ps: seq<Wire.SendablePacket>, c: Client)
    requires HasServed(r, ps) && Matches(c, r) && 0 in Messages.Requests(Calls(ps))
    ensures r.updates.Ready() && ReceiveAll(c, r.updates.out).Got?
    ensures ReceiveAll(c, r.updates.out).client.pixels == r.updates.fb.frame[..]
    ensures r.updates.turns != [] && Driver.Supported(r.updates.fb.hw.mode(|r.updates.turns| - 1))
    ensures r.updates.fb.hw.Shows(r.updates.image, r.updates.scanned, r.updates.fb.hw.now) ==>
              r.updates.Shown(ReceiveAll(c, r.updates.out).client.pixels)
  {
    hide Messages.Requests, ReceiveAll, Calls;
    var turns := r.updates.turns;
    var i :| 0 <= i < |Messages.Requests(Calls(ps))| && Messages.Requests(Calls(ps))[i] == 0;
    assert MessageReader.Answered(turns)[i] == turns[i].incremental;
    assert !Partial(turns[i], c.w, c.h);
    r.updates.ClientMirrors(c);
  }
}
