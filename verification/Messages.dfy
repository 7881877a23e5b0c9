// Client-to-server messages: what they look like on the wire (sections 7.5.1 to 7.5.6 of
// RFC 6143), which handler calls they should lead to, and a parser that takes one octet at a time.
module Messages {
  import opened Bytes
  import opened Folds

  datatype Rect = Rect(x: uint16, y: uint16, w: uint16, h: uint16)

  datatype PixelFormat = PixelFormat(bitsPerPixel: byte, depth: byte, bigEndian: byte, trueColour: byte,
                                     redMax: uint16, greenMax: uint16, blueMax: uint16,
                                     redShift: byte, greenShift: byte, blueShift: byte)

  // The only pixel formats the daemon can serve.
  predicate Servable(f: PixelFormat) {
    f.trueColour == 0 && f.depth == 8
  }

  // One call of a message handler, with the fields it can see.
  datatype Event =
    | SetPixelFormat(format: PixelFormat)
    | EncodingCount(count: uint16)
    | Encoding(code: uint32)
    | UpdateRequest(incremental: byte, rect: Rect)
    | Key(down: byte, key: uint32)
    | Pointer(mask: byte, x: uint16, y: uint16)
    | CutText(length: uint32)

  // ----- the parser, one octet at a time -----

  // `Partial(got)`: the first octets of a message, none of them when the parser is idle.
  // `Encodings(left, got)`: `left` encodings are still due, `got` is the start of the next one.
  datatype State =
    | Partial(got: seq<byte>)
    | Encodings(left: nat, got: seq<byte>)
    | Failed

  // `supported(n)`: the n-th update request finds a depth that the daemon supports. What the screen
  // is like when a request comes in is up to the machine; an update of any other depth is an error.
  datatype Progress = Progress(state: State, events: seq<Event>, supported: nat -> bool)

  const Idle := Partial([])

  // The length of a message of this type up to any variable part; 0 for an illegal type.
  function Size(kind: byte): nat {
    match kind
    case 0 => 20
    case 2 => 4
    case 3 => 10
    case 4 => 8
    case 5 => 6
    case 6 => 8
    case _ => 0
  }

  function FormatAt(m: seq<byte>, i: nat): PixelFormat
    requires i + 13 <= |m|
  {
    PixelFormat(m[i], m[i + 1], m[i + 2], m[i + 3], At16(m, i + 4), At16(m, i + 6), At16(m, i + 8),
                m[i + 10], m[i + 11], m[i + 12])
  }

  ghost predicate IsWhole(m: seq<byte>) {
    m != [] && |m| == Size(m[0])
  }

  // The handler call for a message, or for the header of SetEncodings.
  function Dispatched(m: seq<byte>): Event
    requires IsWhole(m)
  {
    match m[0]
    case 0 => SetPixelFormat(FormatAt(m, 4))
    case 2 => EncodingCount(At16(m, 2))
    case 3 => UpdateRequest(m[1], Rect(At16(m, 2), At16(m, 4), At16(m, 6), At16(m, 8)))
    case 4 => Key(m[1], At32(m, 4))
    case 5 => Pointer(m[1], At16(m, 2), At16(m, 4))
    case _ => CutText(At32(m, 4))
  }

  // The `incremental` octets of the update requests among the calls.
  function Requests(events: seq<Event>): seq<byte> {
    if events == [] then []
    else
      var e := events[|events| - 1];
      Requests(events[..|events| - 1]) + if e.UpdateRequest? then [e.incremental] else []
  }

  // Whether the session goes on after a call.
  function Survives(p: Progress, e: Event): bool {
    match e
    case SetPixelFormat(f) => Servable(f)
    case UpdateRequest(_, _) => p.supported(|Requests(p.events)|)
    case _ => true
  }

  // Where the parser goes after it.
  function After(p: Progress, e: Event): State {
    if !Survives(p, e) then Failed
    else if e.EncodingCount? && e.count != 0 then Encodings(e.count, [])
    else Idle
  }

  function Handle(p: Progress, e: Event): Progress {
    p.(state := After(p, e), events := p.events + [e])
  }

  function AfterEncoding(left: nat): State {
    if left <= 1 then Idle else Encodings(left - 1, [])
  }

  function Step(p: Progress, b: byte): Progress {
    match p.state
    case Failed => p
    case Partial(got) =>
      var m := got + [b];
      if Size(m[0]) == 0 then p.(state := Failed)
      else if |m| != Size(m[0]) then p.(state := Partial(m))
      else Handle(p, Dispatched(m))
    case Encodings(left, got) =>
      var m := got + [b];
      if |m| != 4 then p.(state := Encodings(left, m))
      else p.(state := AfterEncoding(left), events := p.events + [Encoding(At32(m, 0))])
  }

  function Feed(p: Progress, input: seq<byte>): Progress {
    Fold(Step, p, input)
  }

  // ----- several octets at once -----

  lemma FeedNothing(p: Progress)
    ensures Feed(p, []) == p
  {
  }

  lemma FeedAppend(p: Progress, a: seq<byte>, b: seq<byte>)
    ensures Feed(p, a + b) == Feed(Feed(p, a), b)
  {
    FoldAppend(Step, p, a, b);
  }

  lemma FeedOne(p: Progress, b: byte)
    ensures Feed(p, [b]) == Step(p, b)
  {
    FoldSnoc(Step, p, [], b);
    assert [] + [b] == [b];
  }

  lemma {:induction false} FeedFailed(p: Progress, input: seq<byte>)
    requires p.state.Failed?
    ensures Feed(p, input) == p
  {
    if input != [] {
      FeedFailed(p, input[1..]);
    }
  }

  // Octets that do not complete a message are kept.
  lemma {:induction false} FeedPart(p: Progress, got: seq<byte>, more: seq<byte>)
    requires p.state == Partial(got)
    requires got + more != [] ==> |got| + |more| < Size((got + more)[0])
    ensures Feed(p, more) == p.(state := Partial(got + more))
    decreases more
  {
    if more == [] {
      assert got + more == got;
    } else {
      var m := got + [more[0]];
      assert m + more[1..] == got + more;
      FeedPart(p.(state := Partial(m)), m, more[1..]);
    }
  }

  // The octet that completes a message makes the parser dispatch it.
  lemma FeedWhole(p: Progress, got: seq<byte>, more: seq<byte>)
    requires p.state == Partial(got)
    requires more != [] && IsWhole(got + more)
    ensures Feed(p, more) == Handle(p, Dispatched(got + more))
  {
    var n := |more| - 1;
    var early := got + more[..n];
    FeedPart(p, got, more[..n]);
    FeedAppend(p, more[..n], [more[n]]);
    FeedOne(p.(state := Partial(early)), more[n]);
    assert more[..n] + [more[n]] == more;
    assert early + [more[n]] == got + more;
  }

  lemma {:induction false} FeedEncodingPart(p: Progress, left: nat, got: seq<byte>, more: seq<byte>)
    requires p.state == Encodings(left, got) && |got| + |more| < 4
    ensures Feed(p, more) == p.(state := Encodings(left, got + more))
    decreases more
  {
    if more == [] {
      assert got + more == got;
    } else {
      assert got + [more[0]] + more[1..] == got + more;
      FeedEncodingPart(p.(state := Encodings(left, got + [more[0]])), left, got + [more[0]], more[1..]);
    }
  }

  lemma FeedEncoding(p: Progress, left: nat, got: seq<byte>, more: seq<byte>)
    requires p.state == Encodings(left, got) && more != [] && |got| + |more| == 4
    ensures Feed(p, more) == p.(state := AfterEncoding(left), events := p.events + [Encoding(At32(got + more, 0))])
  {
    var n := |more| - 1;
    FeedEncodingPart(p, left, got, more[..n]);
    FeedAppend(p, more[..n], [more[n]]);
    FeedOne(p.(state := Encodings(left, got + more[..n])), more[n]);
    assert more[..n] + [more[n]] == more;
    assert got + more[..n] + [more[n]] == got + more;
  }

  // ----- what ends a session, by the octets -----

  lemma FeedIdle(p: Progress, m: seq<byte>)
    requires p.state == Idle && IsWhole(m)
    ensures Feed(p, m) == Handle(p, Dispatched(m))
  {
    assert [] + m == m;
    FeedWhole(p, [], m);
  }

  // A session survives a SetPixelFormat exactly if octet 7, the true-colour flag, is 0, and octet 5,
  // the depth, is 8.
  lemma PixelFormatSurvived(p: Progress, m: seq<byte>)
    requires p.state == Idle && |m| == 20 && m[0] == 0
    ensures Feed(p, m).state.Failed? <==> !(m[7] == 0 && m[5] == 8)
  {
    FeedIdle(p, m);
  }

  // A client with this format takes each octet of a picture for one pixel, and looks it up in its
  // colour map.
  predicate OneOctetPixels(f: PixelFormat) {
    f.trueColour == 0 && f.bitsPerPixel == 8
  }

  // Such a client is what the daemon sends its pictures for. Of the formats it lets pass these are
  // exactly the ones with 8 in octet 4.
  lemma SurvivedPixels(p: Progress, m: seq<byte>)
    requires p.state == Idle && |m| == 20 && m[0] == 0 && !Feed(p, m).state.Failed?
    ensures OneOctetPixels(FormatAt(m, 4)) <==> m[4] == 8
  {
    PixelFormatSurvived(p, m);
  }

  // A format with depth 8 in 32 bits per pixel passes, too.
  lemma WidePixelsSurvive(p: Progress) returns (m: seq<byte>)
    requires p.state == Idle
    ensures m == [0, 0, 0, 0, 32, 8, 1, 0, 0, 0, 0, 0, 0, 0, 0, 0, 0, 0, 0, 0]
    ensures !Feed(p, m).state.Failed? && !OneOctetPixels(FormatAt(m, 4))
  {
    hide *;
    m := [0, 0, 0, 0, 32, 8, 1, 0, 0, 0, 0, 0, 0, 0, 0, 0, 0, 0, 0, 0];
    PixelFormatSurvived(p, m);
    SurvivedPixels(p, m);
  }

  // The first octet of a message ends the session exactly if it is none of these types.
  lemma IllegalTypes(p: Progress, b: byte)
    requires p.state == Idle
    ensures Feed(p, [b]).state.Failed? <==> b !in {0, 2, 3, 4, 5, 6}
  {
    FeedOne(p, b);
  }

  // ----- conservation: every octet is part of a handler call or still in the parser -----

  // The octets of the stream that a handler call accounts for.
  function Cost(e: Event): nat {
    match e
    case SetPixelFormat(_) => 20
    case EncodingCount(_) => 4
    case Encoding(_) => 4
    case UpdateRequest(_, _) => 10
    case Key(_, _) => 8
    case Pointer(_, _, _) => 6
    case CutText(_) => 8
  }

  function TotalCost(events: seq<Event>): nat {
    if events == [] then 0 else TotalCost(events[..|events| - 1]) + Cost(events[|events| - 1])
  }

  lemma TotalCostSnoc(events: seq<Event>, e: Event)
    ensures TotalCost(events + [e]) == TotalCost(events) + Cost(e)
  {
    assert (events + [e])[..|events|] == events;
  }

  lemma {:induction false} TotalCostAppend(a: seq<Event>, b: seq<Event>)
    ensures TotalCost(a + b) == TotalCost(a) + TotalCost(b)
  {
    if b == [] {
      assert a + b == a;
    } else {
      var init, last := b[..|b| - 1], b[|b| - 1];
      TotalCostAppend(a, init);
      TotalCostSnoc(a + init, last);
      assert a + init + [last] == a + b;
    }
  }

  function Held(s: State): seq<byte> {
    match s
    case Partial(got) => got
    case Encodings(_, got) => got
    case Failed => []
  }

  lemma RequestsSnoc(events: seq<Event>, e: Event)
    ensures Requests(events + [e]) == Requests(events) + if e.UpdateRequest? then [e.incremental] else []
  {
    assert (events + [e])[..|events|] == events;
  }

  // What the parser is sure of while it has not failed.
  ghost predicate Sound(p: Progress) {
    && (p.state.Partial? && p.state.got != [] ==> |p.state.got| < Size(p.state.got[0]))
    && (p.state.Encodings? ==> |p.state.got| < 4)
    && (forall e | e in p.events && e.SetPixelFormat? :: Servable(e.format))
    && (forall n: nat | n < |Requests(p.events)| :: p.supported(n))
  }

  lemma DispatchCost(m: seq<byte>)
    requires IsWhole(m)
    ensures Cost(Dispatched(m)) == |m|
  {
  }

  lemma HandleSound(p: Progress, e: Event)
    requires Sound(p) && !Handle(p, e).state.Failed?
    ensures Held(After(p, e)) == [] && Sound(Handle(p, e))
  {
    hide Requests;
    RequestsSnoc(p.events, e);
  }

  lemma EncodingCost(code: uint32)
    ensures Cost(Encoding(code)) == 4
  {
  }

  lemma StepConserves(p: Progress, b: byte)
    requires !Step(p, b).state.Failed? && Sound(p)
    ensures Sound(Step(p, b))
    ensures TotalCost(Step(p, b).events) + |Held(Step(p, b).state)| == TotalCost(p.events) + |Held(p.state)| + 1
  {
    hide Dispatched, Cost, Requests, TotalCost;
    match p.state
    case Partial(got) =>
      var m := got + [b];
      if IsWhole(m) {
        DispatchCost(m);
        HandleSound(p, Dispatched(m));
        TotalCostSnoc(p.events, Dispatched(m));
      }
    case Encodings(left, got) =>
      var m := got + [b];
      if |m| == 4 {
        RequestsSnoc(p.events, Encoding(At32(m, 0)));
        TotalCostSnoc(p.events, Encoding(At32(m, 0)));
        EncodingCost(At32(m, 0));
      }
  }

  lemma {:induction false} FeedConserves(p: Progress, input: seq<byte>)
    requires !Feed(p, input).state.Failed? && Sound(p)
    ensures Sound(Feed(p, input))
    ensures TotalCost(Feed(p, input).events) + |Held(Feed(p, input).state)| ==
            TotalCost(p.events) + |Held(p.state)| + |input|
    decreases input
  {
    if input == [] {
      FeedNothing(p);
    } else {
      FeedAppend(p, [input[0]], input[1..]);
      FeedOne(p, input[0]);
      assert [input[0]] + input[1..] == input;
      var next := Step(p, input[0]);
      if next.state.Failed? {
        FeedFailed(next, input[1..]);
      }
      StepConserves(p, input[0]);
      FeedConserves(next, input[1..]);
    }
  }
}
