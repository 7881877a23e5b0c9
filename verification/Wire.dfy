// What a client writes (sections 7.5.1 to 7.5.6 of RFC 6143) and what the parser makes of it.
module Wire {
  import opened Bytes
  import opened Folds
  import Messages

  datatype Message =
    | SetPixelFormat(format: Messages.PixelFormat)
    | SetEncodings(codes: seq<uint32>)
    | UpdateRequest(incremental: byte, rect: Messages.Rect)
    | Key(down: byte, key: uint32)
    | Pointer(mask: byte, x: uint16, y: uint16)
    | CutText(text: seq<byte>)

  // A message with the octets the client happened to put in its padding.
  datatype Packet = Packet(message: Message, padding: seq<byte>)

  predicate Sendable(p: Packet) {
    && |p.padding| == 6
    && (p.message.SetEncodings? ==> |p.message.codes| < 0x1_0000)
    && (p.message.CutText? ==> |p.message.text| < 0x1_0000_0000)
  }

  type SendablePacket = p: Packet | Sendable(p) witness Packet(Pointer(0, 0, 0), [0, 0, 0, 0, 0, 0])

  function EncodeFormat(f: Messages.PixelFormat): seq<byte> {
    [f.bitsPerPixel, f.depth, f.bigEndian, f.trueColour] + Put16(f.redMax) + Put16(f.greenMax) + Put16(f.blueMax)
      + [f.redShift, f.greenShift, f.blueShift]
  }

  function EncodeRect(r: Messages.Rect): seq<byte> {
    Put16(r.x) + Put16(r.y) + Put16(r.w) + Put16(r.h)
  }

  // Everything up to the variable part of a message.
  function EncodeFixed(p: SendablePacket): seq<byte> {
    match p.message
    case SetPixelFormat(f) => [0] + p.padding[..3] + EncodeFormat(f) + p.padding[3..]
    case SetEncodings(codes) => [2, p.padding[0]] + Put16(|codes|)
    case UpdateRequest(incremental, rect) => [3, incremental] + EncodeRect(rect)
    case Key(down, key) => [4, down] + p.padding[..2] + Put32(key)
    case Pointer(mask, x, y) => [5, mask] + Put16(x) + Put16(y)
    case CutText(text) => [6] + p.padding[..3] + Put32(|text|)
  }

  function Variable(m: Message): seq<byte> {
    match m
    case SetEncodings(codes) => Concat(Put32, codes)
    case CutText(text) => text
    case _ => []
  }

  function Encode(p: SendablePacket): seq<byte> {
    EncodeFixed(p) + Variable(p.message)
  }

  function FixedEvent(m: Message): Messages.Event
    requires m.SetEncodings? ==> |m.codes| < 0x1_0000
    requires m.CutText? ==> |m.text| < 0x1_0000_0000
  {
    match m
    case SetPixelFormat(f) => Messages.SetPixelFormat(f)
    case SetEncodings(codes) => Messages.EncodingCount(|codes|)
    case UpdateRequest(incremental, rect) => Messages.UpdateRequest(incremental, rect)
    case Key(down, key) => Messages.Key(down, key)
    case Pointer(mask, x, y) => Messages.Pointer(mask, x, y)
    case CutText(text) => Messages.CutText(|text|)
  }

  function EncodingEvent(code: uint32): seq<Messages.Event> {
    [Messages.Encoding(code)]
  }

  // What follows the first handler call of a message.
  function LaterEvents(p: SendablePacket): seq<Messages.Event> {
    if p.message.SetEncodings? then Concat(EncodingEvent, p.message.codes) else []
  }

  // The handler calls that one message should lead to.
  function EventsOf(p: SendablePacket): seq<Messages.Event> {
    [FixedEvent(p.message)] + LaterEvents(p)
  }

  // ----- decode inverts encode -----

  lemma FeedThen(start: Messages.Progress, a: seq<byte>, mid: Messages.Progress, b: seq<byte>, end: Messages.Progress)
    requires Messages.Feed(start, a) == mid && Messages.Feed(mid, b) == end
    ensures Messages.Feed(start, a + b) == end
  {
    Messages.FeedAppend(start, a, b);
  }

  lemma FixedIsWhole(p: SendablePacket)
    ensures Messages.IsWhole(EncodeFixed(p)) && Messages.Dispatched(EncodeFixed(p)) == FixedEvent(p.message)
  {
  }

  lemma FeedCode(p: Messages.Progress, left: nat, code: uint32)
    requires p.state == Messages.Encodings(left, [])
    ensures Messages.Feed(p, Put32(code)) ==
            p.(state := Messages.AfterEncoding(left), events := p.events + EncodingEvent(code))
  {
    JoinPut32(code);
    assert [] + Put32(code) == Put32(code);
    Messages.FeedEncoding(p, left, [], Put32(code));
  }

  // The parser in the middle of `codes`, i of them read.
  ghost function AmongCodes(p: Messages.Progress, codes: seq<uint32>, i: nat): Messages.Progress
    requires i <= |codes|
  {
    p.(state := if i == |codes| then Messages.Idle else Messages.Encodings(|codes| - i, []),
       events := p.events + Concat(EncodingEvent, codes[..i]))
  }

  lemma FeedNextCode(p: Messages.Progress, codes: seq<uint32>, i: nat)
    requires i < |codes|
    ensures Messages.Feed(AmongCodes(p, codes, i), Put32(codes[i])) == AmongCodes(p, codes, i + 1)
  {
    var read := Concat(EncodingEvent, codes[..i]);
    FeedCode(AmongCodes(p, codes, i), |codes| - i, codes[i]);
    assert codes[..i] + [codes[i]] == codes[..i + 1];
    ConcatSnoc(EncodingEvent, codes[..i], codes[i]);
    assert p.events + read + EncodingEvent(codes[i]) == p.events + (read + EncodingEvent(codes[i]));
  }

  lemma FeedAmongCodes(p: Messages.Progress, codes: seq<uint32>, states: seq<Messages.Progress>)
    requires |states| == |codes| + 1
    requires forall i | 0 <= i <= |codes| :: states[i] == AmongCodes(p, codes, i)
    ensures Messages.Feed(states[0], Concat(Put32, codes)) == states[|codes|]
  {
    forall i | 0 <= i < |codes|
      ensures Fold(Messages.Step, states[i], Put32(codes[i])) == states[i + 1]
    {
      FeedNextCode(p, codes, i);
    }
    FoldRun(Messages.Step, Put32, states, codes);
  }

  lemma CodesEnds(p: Messages.Progress, codes: seq<uint32>)
    requires codes != [] && p.state == Messages.Encodings(|codes|, [])
    ensures AmongCodes(p, codes, 0) == p
    ensures AmongCodes(p, codes, |codes|) == p.(state := Messages.Idle, events := p.events + Concat(EncodingEvent, codes))
  {
    assert codes[..0] == [] && codes[..|codes|] == codes && p.events + [] == p.events;
  }

  lemma FeedCodes(p: Messages.Progress, codes: seq<uint32>)
    requires codes != [] && p.state == Messages.Encodings(|codes|, [])
    ensures Messages.Feed(p, Concat(Put32, codes)) ==
            p.(state := Messages.Idle, events := p.events + Concat(EncodingEvent, codes))
  {
    var states := seq(|codes| + 1, i requires 0 <= i <= |codes| => AmongCodes(p, codes, i));
    CodesEnds(p, codes);
    FeedAmongCodes(p, codes, states);
  }

  // Messages the daemon takes in completely and survives.
  predicate Served(p: SendablePacket) {
    && (p.message.SetPixelFormat? ==> Messages.Servable(p.message.format))
    && (p.message.CutText? ==> p.message.text == [])
  }

  lemma FeedVariable(mid: Messages.Progress, p: SendablePacket)
    requires Served(p)
    requires mid.state == if p.message.SetEncodings? && p.message.codes != [] then Messages.Encodings(|p.message.codes|, [])
                          else Messages.Idle
    ensures Messages.Feed(mid, Variable(p.message)) ==
            mid.(state := Messages.Idle, events := mid.events + LaterEvents(p))
  {
    if p.message.SetEncodings? && p.message.codes != [] {
      FeedCodes(mid, p.message.codes);
    } else {
      assert Variable(p.message) == [] && mid.events + [] == mid.events;
      Messages.FeedNothing(mid);
    }
  }

  lemma FeedMessage(start: Messages.Progress, p: SendablePacket)
    requires start.state == Messages.Idle && Served(p)
    requires p.message.UpdateRequest? ==> start.supported(|Messages.Requests(start.events)|)
    ensures Messages.Feed(start, Encode(p)) == start.(events := start.events + EventsOf(p))
  {
    hide EncodeFixed, Variable, Messages.Dispatched, Messages.Requests;
    var e := FixedEvent(p.message);
    var mid := Messages.Handle(start, e);
    FixedIsWhole(p);
    assert [] + EncodeFixed(p) == EncodeFixed(p);
    Messages.FeedWhole(start, [], EncodeFixed(p));
    FeedVariable(mid, p);
    FeedThen(start, EncodeFixed(p), mid, Variable(p.message),
             start.(events := mid.events + LaterEvents(p)));
    assert mid.events + LaterEvents(p) == start.events + EventsOf(p);
  }

  function Resting(events: seq<Messages.Event>, supported: nat -> bool): Messages.Progress {
    Messages.Progress(Messages.Idle, events, supported)
  }

  lemma {:induction false} NoRequests(codes: seq<uint32>)
    ensures Messages.Requests(Concat(EncodingEvent, codes)) == []
  {
    if codes != [] {
      NoRequests(codes[1..]);
      RequestsAppend(EncodingEvent(codes[0]), Concat(EncodingEvent, codes[1..]));
      Messages.RequestsSnoc([], Messages.Encoding(codes[0]));
      assert [] + EncodingEvent(codes[0]) == EncodingEvent(codes[0]);
    }
  }

  lemma {:induction false} RequestsAppend(a: seq<Messages.Event>, b: seq<Messages.Event>)
    ensures Messages.Requests(a + b) == Messages.Requests(a) + Messages.Requests(b)
  {
    if b == [] {
      assert a + b == a;
    } else {
      var init, last := b[..|b| - 1], b[|b| - 1];
      RequestsAppend(a, init);
      Messages.RequestsSnoc(a + init, last);
      assert a + init + [last] == a + b;
    }
  }

  // A message is at most one update request.
  lemma RequestsOf(p: SendablePacket)
    ensures Messages.Requests(EventsOf(p)) == if p.message.UpdateRequest? then [p.message.incremental] else []
  {
    var e := FixedEvent(p.message);
    Messages.RequestsSnoc([], e);
    assert [] + [e] == [e];
    if p.message.SetEncodings? {
      NoRequests(p.message.codes);
      RequestsAppend([e], LaterEvents(p));
    } else {
      assert EventsOf(p) == [e];
    }
  }

  // The machine is in a depth the daemon supports at each of the next n update requests.
  ghost predicate Supports(supported: nat -> bool, from: nat, n: nat) {
    forall k: nat | from <= k < from + n :: supported(k)
  }

  // Any list of such messages leads to exactly its own handler calls and leaves the parser idle.
  lemma {:induction false} FeedMessages(start: Messages.Progress, ps: seq<SendablePacket>)
    requires start.state == Messages.Idle
    requires forall i | 0 <= i < |ps| :: Served(ps[i])
    requires Supports(start.supported, |Messages.Requests(start.events)|, |Messages.Requests(Concat(EventsOf, ps))|)
    ensures Messages.Feed(start, Concat(Encode, ps)) == start.(events := start.events + Concat(EventsOf, ps))
    decreases ps
  {
    hide Encode, EventsOf, Messages.Requests, Served, Messages.Feed;
    if ps == [] {
      Messages.FeedNothing(start);
      assert start.events + [] == start.events;
    } else {
      var next := start.(events := start.events + EventsOf(ps[0]));
      RequestsOf(ps[0]);
      RequestsAppend(EventsOf(ps[0]), Concat(EventsOf, ps[1..]));
      RequestsAppend(start.events, EventsOf(ps[0]));
      FeedMessage(start, ps[0]);
      forall i | 0 <= i < |ps[1..]|
        ensures Served(ps[1..][i])
      {
        assert ps[1..][i] == ps[i + 1];
      }
      FeedMessages(next, ps[1..]);
      FeedThen(start, Encode(ps[0]), next, Concat(Encode, ps[1..]), next.(events := next.events + Concat(EventsOf, ps[1..])));
      assert next.events + Concat(EventsOf, ps[1..]) == start.events + Concat(EventsOf, ps);
    }
  }

  // ----- and does so for no other lists -----

  function TextLength(m: Message): nat {
    if m.CutText? then |m.text| else 0
  }

  function TextLengths(ps: seq<SendablePacket>): nat {
    if ps == [] then 0 else TextLength(ps[0].message) + TextLengths(ps[1..])
  }

  lemma {:induction false} CodesCost(codes: seq<uint32>)
    ensures |Concat(Put32, codes)| == 4 * |codes| == Messages.TotalCost(Concat(EncodingEvent, codes))
  {
    if codes != [] {
      CodesCost(codes[1..]);
      Messages.TotalCostAppend(EncodingEvent(codes[0]), Concat(EncodingEvent, codes[1..]));
      Messages.TotalCostSnoc([], Messages.Encoding(codes[0]));
      assert [] + EncodingEvent(codes[0]) == EncodingEvent(codes[0]);
    }
  }

  lemma FixedCost(p: SendablePacket)
    ensures |EncodeFixed(p)| == Messages.Cost(FixedEvent(p.message))
  {
  }

  lemma EventsCost(e: Messages.Event, codes: seq<uint32>)
    ensures Messages.TotalCost([e] + Concat(EncodingEvent, codes)) == Messages.Cost(e) + 4 * |codes|
    ensures Messages.TotalCost([e]) == Messages.Cost(e)
  {
    Messages.TotalCostSnoc([], e);
    assert [] + [e] == [e];
    CodesCost(codes);
    Messages.TotalCostAppend([e], Concat(EncodingEvent, codes));
  }

  // A message is as long as its handler calls account for, plus any cut text.
  lemma MessageCost(p: SendablePacket)
    ensures |Encode(p)| == Messages.TotalCost(EventsOf(p)) + TextLength(p.message)
  {
    FixedCost(p);
    if p.message.SetEncodings? {
      CodesCost(p.message.codes);
      EventsCost(FixedEvent(p.message), p.message.codes);
    } else {
      EventsCost(FixedEvent(p.message), []);
      assert EventsOf(p) == [FixedEvent(p.message)];
    }
  }

  lemma {:induction false} MessagesCost(ps: seq<SendablePacket>)
    ensures |Concat(Encode, ps)| == Messages.TotalCost(Concat(EventsOf, ps)) + TextLengths(ps)
  {
    if ps != [] {
      MessageCost(ps[0]);
      MessagesCost(ps[1..]);
      Messages.TotalCostAppend(EventsOf(ps[0]), Concat(EventsOf, ps[1..]));
    }
  }

  lemma {:induction false} NoTextAnywhere(ps: seq<SendablePacket>, i: nat)
    requires i < |ps| && TextLengths(ps) == 0
    ensures TextLength(ps[i].message) == 0
  {
    if i > 0 {
      NoTextAnywhere(ps[1..], i - 1);
    }
  }

  lemma {:induction false} FixedEventIsIn(ps: seq<SendablePacket>, i: nat)
    requires i < |ps|
    ensures FixedEvent(ps[i].message) in Concat(EventsOf, ps)
  {
    if i == 0 {
      assert FixedEvent(ps[0].message) == EventsOf(ps[0])[0];
    } else {
      FixedEventIsIn(ps[1..], i - 1);
    }
  }

  // The daemon recovers what a client sent if and only if it was asked for servable pixel formats
  // only, every cut text was empty, as the octets of a cut text are parsed as messages, and the
  // screen was in a supported depth at every update request.
  lemma RoundTripExactly(supported: nat -> bool, ps: seq<SendablePacket>)
    ensures Messages.Feed(Resting([], supported), Concat(Encode, ps)) == Resting(Concat(EventsOf, ps), supported)
            <==> (forall i | 0 <= i < |ps| :: Served(ps[i])) &&
                 Supports(supported, 0, |Messages.Requests(Concat(EventsOf, ps))|)
  {
    hide Encode, EventsOf, Messages.Requests, Messages.Feed, Messages.TotalCost, TextLengths;
    var start, all := Resting([], supported), Concat(EventsOf, ps);
    NothingYet();
    if (forall i | 0 <= i < |ps| :: Served(ps[i])) && Supports(supported, 0, |Messages.Requests(all)|) {
      FeedMessages(start, ps);
      assert [] + all == all;
    }
    if Messages.Feed(start, Concat(Encode, ps)) == Resting(all, supported) {
      Messages.FeedConserves(start, Concat(Encode, ps));
      MessagesCost(ps);
      forall i | 0 <= i < |ps|
        ensures Served(ps[i])
      {
        NoTextAnywhere(ps, i);
        FixedEventIsIn(ps, i);
      }
    }
  }

  lemma NothingYet()
    ensures Messages.Requests([]) == [] && Messages.TotalCost([]) == 0
  {
  }

  // ----- the handler calls determine the messages -----

  lemma {:induction false} CodesDetermined(a: seq<uint32>, b: seq<uint32>)
    requires |a| == |b| && Concat(EncodingEvent, a) == Concat(EncodingEvent, b)
    ensures a == b
  {
    if a != [] {
      assert EncodingEvent(a[0])[0] == Concat(EncodingEvent, a)[0];
      assert EncodingEvent(b[0])[0] == Concat(EncodingEvent, b)[0];
      assert Concat(EncodingEvent, a)[1..] == Concat(EncodingEvent, a[1..]);
      assert Concat(EncodingEvent, b)[1..] == Concat(EncodingEvent, b[1..]);
      CodesDetermined(a[1..], b[1..]);
      assert a == [a[0]] + a[1..] && b == [b[0]] + b[1..];
    }
  }

  lemma {:induction false} CodeEvents(codes: seq<uint32>)
    ensures |Concat(EncodingEvent, codes)| == |codes|
  {
    if codes != [] {
      CodeEvents(codes[1..]);
    }
  }

  lemma FirstMessageDetermined(p: SendablePacket, q: SendablePacket, s: seq<Messages.Event>, t: seq<Messages.Event>)
    requires Served(p) && Served(q) && EventsOf(p) + s == EventsOf(q) + t
    ensures p.message == q.message && s == t
  {
    var e, f := FixedEvent(p.message), FixedEvent(q.message);
    assert e == (EventsOf(p) + s)[0] && f == (EventsOf(q) + t)[0];
    assert LaterEvents(p) + s == (EventsOf(p) + s)[1..];
    assert LaterEvents(q) + t == (EventsOf(q) + t)[1..];
    if p.message.SetEncodings? {
      var n := |p.message.codes|;
      CodeEvents(p.message.codes);
      CodeEvents(q.message.codes);
      assert LaterEvents(p) == (LaterEvents(p) + s)[..n] && LaterEvents(q) == (LaterEvents(q) + t)[..n];
      assert s == (LaterEvents(p) + s)[n..] && t == (LaterEvents(q) + t)[n..];
      CodesDetermined(p.message.codes, q.message.codes);
    } else {
      assert [] + s == s && [] + t == t;
    }
  }

  lemma MessagesHaveEvents(ps: seq<SendablePacket>)
    ensures ps != [] ==> Concat(EventsOf, ps) != []
  {
    if ps != [] {
      FixedEventIsIn(ps, 0);
    }
  }

  // Two lists of messages with the same handler calls differ in their padding at most.
  lemma {:induction false} EventsDetermineMessages(ps: seq<SendablePacket>, qs: seq<SendablePacket>)
    requires forall i | 0 <= i < |ps| :: Served(ps[i])
    requires forall i | 0 <= i < |qs| :: Served(qs[i])
    requires Concat(EventsOf, ps) == Concat(EventsOf, qs)
    ensures |ps| == |qs| && forall i | 0 <= i < |ps| :: ps[i].message == qs[i].message
    decreases ps
  {
    if ps == [] {
      MessagesHaveEvents(qs);
    } else if qs == [] {
      MessagesHaveEvents(ps);
    } else {
      FirstMessageDetermined(ps[0], qs[0], Concat(EventsOf, ps[1..]), Concat(EventsOf, qs[1..]));
      EventsDetermineMessages(ps[1..], qs[1..]);
      forall i | 0 <= i < |ps|
        ensures ps[i].message == qs[i].message
      {
        if i > 0 {
          assert ps[i] == ps[1..][i - 1] && qs[i] == qs[1..][i - 1];
        }
      }
    }
  }
}
