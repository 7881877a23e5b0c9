// app/session.c, lines 200-344: messages reassembled from whatever pieces the socket delivers.
module MessageReader {
  import opened Bytes
  import opened Folds
  import opened Driver
  import opened Keyboard
  import Kchr
  import KeyLedger
  import opened Messages
  import opened UpdateSender
  import Updates

  // `n` octets of the union hold a message under way: at least its type, and not yet all of it.
  // Past the header of SetEncodings the count field says how many encodings are left.
  ghost predicate UnderWay(m: seq<byte>, n: nat)
    requires |m| == 20
  {
    n == 0 || if m[0] == 2 && n >= 4 then n < 8 && At16(m, 2) > 0 else n < Size(m[0])
  }

  ghost function StateOf(m: seq<byte>, n: nat): State
    requires |m| == 20 && UnderWay(m, n)
  {
    if n == 0 then Idle
    else if m[0] == 2 && n >= 4 then Encodings(At16(m, 2), m[4..n])
    else Partial(m[..n])
  }

  // What the union holds beyond the write pointer, left over from earlier messages, is never seen.
  lemma NoStaleOctets(m: seq<byte>, m': seq<byte>, n: nat)
    requires |m| == |m'| == 20 && UnderWay(m, n)
    requires n <= 20 && m[..n] == m'[..n]
    ensures UnderWay(m', n) && StateOf(m', n) == StateOf(m, n)
  {
    assert forall i | 0 <= i < n :: m[i] == m[..n][i] == m'[..n][i] == m'[i];
    assert n >= 4 ==> m[4..n] == m[..n][4..] == m'[4..n];
  }

  lemma FeedNext(start: Progress, input: seq<byte>, p: nat, q: nat)
    requires p <= q <= |input|
    ensures Feed(start, input[..q]) == Feed(Feed(start, input[..p]), input[p..q])
  {
    FeedAppend(start, input[..p], input[p..q]);
    assert input[..p] + input[p..q] == input[..q];
  }

  lemma FeedPointer(start: Progress, m: seq<byte>)
    requires start.state == Idle && IsWhole(m) && m[0] == 5
    ensures Feed(start, m) == start.(events := start.events + [Dispatched(m)])
  {
    assert [] + m == m;
    FeedWhole(start, [], m);
  }

  lemma FeedRequest(start: Progress, m: seq<byte>)
    requires start.state == Idle && IsWhole(m) && m[0] == 3
    ensures Feed(start, m) ==
            start.(state := if start.supported(|Requests(start.events)|) then Idle else Failed,
                   events := start.events + [Dispatched(m)])
  {
    assert [] + m == m;
    FeedWhole(start, [], m);
  }

  // The `incremental` octets of the requests that were answered.
  function Answered(turns: seq<Updates.Turn>): seq<byte> {
    seq(|turns|, i requires 0 <= i < |turns| => turns[i].incremental)
  }

  lemma AnsweredSnoc(turns: seq<Updates.Turn>, more: seq<Updates.Turn>)
    requires |more| == |turns| + 1 && more[..|turns|] == turns
    ensures Answered(more) == Answered(turns) + [more[|turns|].incremental]
  {
    assert forall i | 0 <= i < |turns| :: more[i] == more[..|turns|][i];
  }

  // The key events among the calls.
  function Keys(events: seq<Event>): seq<KeyEvent> {
    if events == [] then []
    else
      var e := events[|events| - 1];
      Keys(events[..|events| - 1]) + if e.Key? then [e] else []
  }

  lemma KeysSnoc(events: seq<Event>, e: Event)
    ensures Keys(events + [e]) == Keys(events) + if e.Key? then [e] else []
  {
    assert (events + [e])[..|events|] == events;
  }

  lemma NoRequest(events: seq<Event>, e: Event)
    requires !e.UpdateRequest?
    ensures Requests(events + [e]) == Requests(events)
    ensures !e.Key? ==> Keys(events + [e]) == Keys(events)
  {
    RequestsSnoc(events, e);
    KeysSnoc(events, e);
  }

  // `n` octets were kept and `more` have come; `size` is how many the parser waits for.
  ghost predicate Fragment(was: seq<byte>, n: nat, more: seq<byte>, m: seq<byte>, size: nat)
    requires |was| == 20 && n <= 20
  {
    && UnderWay(was, n) && more != [] && m == was[..n] + more && |m| <= size <= 20
    && size == if m[0] == 2 && n >= 4 then 8 else Size(m[0])
  }

  lemma FeedIllegal(p: Progress, was: seq<byte>, b: byte)
    requires |was| == 20 && UnderWay(was, 0) && p.state == StateOf(was, 0) && Size(b) == 0
    ensures Feed(p, [b]) == p.(state := Failed)
  {
    FeedOne(p, b);
  }

  lemma FeedFragment(p: Progress, was: seq<byte>, n: nat, more: seq<byte>, m: seq<byte>, size: nat)
    requires |was| == 20 && n <= 20 && Fragment(was, n, more, m, size) && |m| == size && p.state == StateOf(was, n)
    requires m[0] != 2 || n < 4
    ensures IsWhole(m) && Feed(p, more) == Handle(p, Dispatched(m))
    ensures m[0] == 2 ==> |m| == 4 && Dispatched(m) == EncodingCount(At16(m, 2))
  {
    hide Feed, Handle;
    FeedWhole(p, was[..n], more);
  }

  lemma FeedEncodingFragment(p: Progress, was: seq<byte>, n: nat, more: seq<byte>, m: seq<byte>, size: nat)
    requires |was| == 20 && n <= 20 && Fragment(was, n, more, m, size) && |m| == size && p.state == StateOf(was, n)
    requires m[0] == 2 && n >= 4
    ensures |m| == 8 && At16(m, 2) > 0
    ensures Feed(p, more) == p.(state := AfterEncoding(At16(m, 2)), events := p.events + [Encoding(At32(m, 4))])
  {
    hide Feed;
    assert m[4..] == was[4..n] + more;
    FeedEncoding(p, At16(was, 2), was[4..n], more);
  }

  lemma KeepFragment(p: Progress, was: seq<byte>, n: nat, more: seq<byte>, m: seq<byte>, size: nat, now: seq<byte>)
    requires |was| == |now| == 20 && n <= 20 && Fragment(was, n, more, m, size) && |m| < size && m == now[..|m|]
    requires p.state == StateOf(was, n)
    ensures UnderWay(now, |m|) && Feed(p, more) == p.(state := StateOf(now, |m|))
  {
    hide Feed;
    assert now[0] == m[0] && (|m| >= 4 ==> now[2] == m[2] && now[3] == m[3]);
    if m[0] == 2 && n >= 4 {
      assert now[4..|m|] == m[4..] == was[4..n] + more;
      FeedEncodingPart(p, At16(was, 2), was[4..n], more);
    } else {
      FeedPart(p, was[..n], more);
    }
  }

  function Octets(c: seq<byte>): seq<byte> {
    c
  }

  // The stream that the chunks make up.
  function Stream(chunks: seq<seq<byte>>): seq<byte> {
    Concat(Octets, chunks)
  }

  lemma StreamSnoc(chunks: seq<seq<byte>>, chunk: seq<byte>)
    ensures Stream(chunks + [chunk]) == Stream(chunks) + chunk
  {
    ConcatAppend(Octets, chunks, [chunk]);
    assert [chunk][1..] == [];
    assert Stream([chunk]) == chunk + Concat(Octets, [chunk][1..]);
  }

  // Chunks can be fed one after the other, or their octets one by one.
  lemma ChunkByChunk(start: Progress, chunks: seq<seq<byte>>)
    ensures Fold(Feed, start, chunks) == Feed(start, Stream(chunks))
  {
    FoldConcat(Feed, Step, Octets, start, chunks);
  }

  ghost predicate Apart(updates: UpdateSender, keyboard: Keyboard) {
    var k := keyboard.kchr;
    keyboard !in updates.Repr() && k.modifiers !in updates.Repr() && k.entries !in updates.Repr() && k.deads !in updates.Repr()
  }

  class MessageReader {
    const message: array<byte>   // messageInProgress, a union of all the message structs
    const recvBuf: array<byte>
    var dst: nat                 // msg_dst, as an offset into the union
    var failed: bool             // the session has ended with an error
    var events: seq<Event>       // the handler calls made

    const updates: UpdateSender  // the handler of update requests
    const keyboard: Keyboard     // and of key events
    // Which update requests find a depth that is supported.
    ghost const supported: nat -> bool

    ghost predicate Shape() {
      && message.Length == 20 && recvBuf.Length == 256 && message != recvBuf
      && Outside(message) && Outside(recvBuf)
    }

    ghost predicate Outside(buf: array<byte>) {
      buf !in updates.Repr() && buf != keyboard.kchr.modifiers
    }

    // Every update request has been answered, except one that ended the session, and the codes of
    // every key event have been injected.
    ghost predicate UpToDate()
      reads this`events, this`failed, updates.Repr(), keyboard
      reads keyboard.kchr.modifiers, keyboard.kchr.entries, keyboard.kchr.deads
    {
      && this !in updates.Repr() && Apart(updates, keyboard)
      && Kchr.Whole(keyboard.kchr.Now())
      && keyboard.injected == KeyLedger.Injected(keyboard.kchr.Now(), keyboard.macroman, Keys(events))
      && updates.Sound() && Answered(updates.turns) <= Requests(events)
      && (!failed ==> updates.Ready() && Answered(updates.turns) == Requests(events))
      && (forall n: nat :: supported(n) == Supported(updates.fb.hw.mode(n)))
    }

    ghost predicate Valid()
      reads this, message, updates.Repr(), keyboard
      reads keyboard.kchr.modifiers, keyboard.kchr.entries, keyboard.kchr.deads
    {
      && Shape()
      && (!failed ==> UnderWay(message[..], dst))
      && UpToDate()
    }

    ghost function Now(): Progress
      requires Shape() && (!failed ==> UnderWay(message[..], dst))
      reads this, message
    {
      Progress(if failed then Failed else StateOf(message[..], dst), events, supported)
    }

    constructor (updates: UpdateSender, keyboard: Keyboard, ghost supported: nat -> bool)
      requires updates.Ready() && updates.turns == []
      requires forall n: nat :: supported(n) == Supported(updates.fb.hw.mode(n))
      requires Kchr.Whole(keyboard.kchr.Now()) && keyboard.injected == []
      requires Apart(updates, keyboard)
      ensures Valid() && fresh(message) && fresh(recvBuf)
      ensures this.updates == updates && this.keyboard == keyboard && this.supported == supported
      ensures Now() == Progress(Idle, [], supported)
    {
      this.updates, this.keyboard, this.supported := updates, keyboard, supported;
      message, recvBuf := new byte[20], new byte[256];
      dst, failed, events := 0, false, [];
    }

    // ----- handlers: `evt` points at the first octet of a message -----

    method EvtPointer(evt: array<byte>, at: nat, ghost m: seq<byte>)
      requires at + 6 <= evt.Length && m == evt[at..at + 6] && IsWhole(m) && m[0] == 5
      requires UpToDate()
      modifies this`events
      ensures UpToDate()
      ensures events == old(events) + [Dispatched(m)]
    {
      hide UpdateSender.Sound, UpdateSender.Ready, Requests, Answered, Kchr.Whole, KeyLedger.Injected, Keys;
      var e := Pointer(evt[at + 1], Join16(evt[at + 2], evt[at + 3]), Join16(evt[at + 4], evt[at + 5]));
      NoRequest(events, e);
      events := events + [e];
    }

    // The answer may overwrite the request's incremental flag in place; an unsupported depth ends
    // the session.
    method EvtUpdateRequest(evt: array<byte>, at: nat, ghost m: seq<byte>)
      requires at + 10 <= evt.Length && m == evt[at..at + 10] && IsWhole(m) && m[0] == 3
      requires Outside(evt) && !failed && UpToDate()
      modifies this`events, this`failed, evt, updates.Repr()
      ensures UpToDate()
      ensures events == old(events) + [Dispatched(m)]
      ensures failed == !supported(|Requests(old(events))|)
      ensures updates.Since(old(updates.fb.hw.now), old(updates.starts))
      ensures forall i | 0 <= i < evt.Length && i != at + 1 :: evt[i] == old(evt[i])
    {
      hide UpdateSender.Sound, UpdateSender.Ready, Requests, Answered, Supported, Kchr.Whole, KeyLedger.Injected, Keys;
      ghost var turns := updates.turns;
      var e := UpdateRequest(evt[at + 1], Rect(Join16(evt[at + 2], evt[at + 3]), Join16(evt[at + 4], evt[at + 5]),
                                               Join16(evt[at + 6], evt[at + 7]), Join16(evt[at + 8], evt[at + 9])));
      RequestsSnoc(events, e);
      NoKey(events, e);
      AnsweredLength(turns);
      var ok, incremental := updates.EvtUpdateRequest(evt[at + 1]);
      if ok {
        AnsweredSnoc(turns, updates.turns);
        evt[at + 1] := incremental;
      }
      events, failed := events + [e], !ok;
    }

    lemma NoKey(events: seq<Event>, e: Event)
      requires !e.Key?
      ensures Keys(events + [e]) == Keys(events)
    {
      KeysSnoc(events, e);
    }

    lemma AnsweredLength(turns: seq<Updates.Turn>)
      ensures |Answered(turns)| == |turns|
    {
    }

    method EvtKey(ghost m: seq<byte>)
      requires message.Length == 20 && m == message[..8] && IsWhole(m) && m[0] == 4
      requires UpToDate()
      modifies this`events, keyboard
      ensures UpToDate()
      ensures events == old(events) + [Dispatched(m)]
    {
      hide UpdateSender.Sound, UpdateSender.Ready, Requests, Answered, Kchr.Whole, KeyLedger.Injected, Stroke, Keys;
      var e := Key(message[1], Join32(message[4], message[5], message[6], message[7]));
      NoRequest(events, e);
      KeysSnoc(events, e);
      KeyLedger.InjectedSnoc(keyboard.kchr.Now(), keyboard.macroman, Keys(events), e);
      keyboard.EvtKeyAraw(e);
      events := events + [e];
    }

    method EvtCutText(ghost m: seq<byte>)
      requires message.Length == 20 && m == message[..8] && IsWhole(m) && m[0] == 6
      requires UpToDate()
      modifies this`events
      ensures UpToDate()
      ensures events == old(events) + [Dispatched(m)]
    {
      hide UpdateSender.Sound, UpdateSender.Ready, Requests, Answered, Kchr.Whole, KeyLedger.Injected, Keys;
      var e := CutText(Join32(message[4], message[5], message[6], message[7]));
      NoRequest(events, e);
      events := events + [e];
    }

    method EvtSetPixelFormat(ghost m: seq<byte>)
      requires message.Length == 20 && m == message[..] && IsWhole(m) && m[0] == 0
      requires !failed && UpToDate()
      modifies this`events, this`failed
      ensures UpToDate()
      ensures events == old(events) + [Dispatched(m)] && failed == !Servable(FormatAt(m, 4))
    {
      hide UpdateSender.Sound, UpdateSender.Ready, Requests, Answered, Kchr.Whole, KeyLedger.Injected, Keys;
      var trueColour, depth := message[7], message[5];
      var e := SetPixelFormat(
        PixelFormat(message[4], depth, message[6], trueColour, Join16(message[8], message[9]), Join16(message[10], message[11]),
                    Join16(message[12], message[13]), message[14], message[15], message[16]));
      NoRequest(events, e);
      events := events + [e];
      failed := trueColour != 0 || depth != 8;
    }

    // The count of encodings is kept, and counted down, in the union itself.
    method EvtEncodingFragment(bytesRead: nat, ghost m: seq<byte>)
      requires message.Length == 20 && Outside(message) && (bytesRead == 4 || bytesRead == 8)
      requires |m| == bytesRead && m == message[..bytesRead] && m[0] == 2 && (bytesRead == 8 ==> At16(m, 2) > 0)
      requires UpToDate()
      modifies this`events, this`dst, message
      ensures UpToDate()
      ensures message[0] == 2 && UnderWay(message[..], dst)
      ensures forall i | 4 <= i < 20 :: message[i] == old(message[i])
      ensures bytesRead == 4 ==>
                && events == old(events) + [EncodingCount(At16(m, 2))]
                && StateOf(message[..], dst) == if At16(m, 2) == 0 then Idle else Encodings(At16(m, 2), [])
      ensures bytesRead == 8 ==>
                && events == old(events) + [Encoding(At32(m, 4))]
                && StateOf(message[..], dst) == AfterEncoding(At16(m, 2))
    {
      hide UpdateSender.Sound, UpdateSender.Ready, Requests, Answered, Kchr.Whole, KeyLedger.Injected, Keys;
      var count := Join16(message[2], message[3]);
      if bytesRead == 8 {
        var e := Encoding(Join32(message[4], message[5], message[6], message[7]));
        NoRequest(events, e);
        events := events + [e];
        count := count - 1;
        message[2], message[3] := count / 0x100, count % 0x100;
      } else {
        NoRequest(events, EncodingCount(count));
        events := events + [EncodingCount(count)];
      }
      if count != 0 {
        dst := 4;
      } else {
        dst := 0;
      }
    }

    // How much of SetEncodings to read before the next handler call.
    function EncodingFragSize(bytesRead: nat): nat
      requires message.Length == 20
      reads this, message
    {
      if bytesRead >= 4 && Join16(message[2], message[3]) != 0 then 8 else 4
    }

    method Memcpy(src: array<byte>, p: nat, k: nat)
      requires src != message && p + k <= src.Length && dst + k <= message.Length
      modifies this`dst, message
      ensures dst == old(dst) + k
      ensures forall i | 0 <= i < old(dst) :: message[i] == old(message[i])
      ensures message[..dst] == old(message[..dst]) + src[p..p + k]
    {
      ghost var kept := message[..dst];
      forall i | 0 <= i < k {
        message[dst + i] := src[p + i];
      }
      dst := dst + k;
      assert forall i | 0 <= i < |kept| :: message[i] == kept[i];
      assert forall i | |kept| <= i < dst :: message[i] == src[p + (i - |kept|)];
    }

    // Calls the handler of the complete message in the union, unless it is SetEncodings.
    method DispatchFixed(ghost m: seq<byte>)
      requires Shape() && IsWhole(m) && |m| <= 20 && m[0] != 2 && m == message[..|m|]
      requires !failed && UpToDate()
      modifies this`events, this`failed, this`dst, message, updates.Repr(), keyboard
      ensures Valid()
      ensures Now() == Handle(Progress(Idle, old(events), supported), Dispatched(m))
      ensures updates.Since(old(updates.fb.hw.now), old(updates.starts))
    {
      hide UpToDate, Requests;
      match message[0] {
        case 0 => EvtSetPixelFormat(m);
        case 3 => EvtUpdateRequest(message, 0, m);
        case 4 => EvtKey(m);
        case 5 => EvtPointer(message, 0, m);
        case _ => EvtCutText(m);
      }
      // Prepare to receive the next message.
      dst := 0;
    }

    method IllegalMessage()
      requires UpToDate()
      modifies this`failed
      ensures failed && UpToDate()
    {
      hide UpdateSender.Sound, UpdateSender.Ready, Requests, Answered, Kchr.Whole, KeyLedger.Injected, Keys;
      failed := true;
    }

    // The first half of a pass: copy octets into the union, up to the next handler call.
    // A size of 0 stands for an illegal message.
    method TakeFragment(src: array<byte>, p: nat, len: nat) returns (p': nat, msgSize: nat)
      requires Shape() && UnderWay(message[..], dst) && src != message
      requires 0 < len && p + len <= src.Length
      modifies this`dst, message
      ensures p < p' <= p + len
      ensures dst <= 20 && old(dst) <= 20
      ensures msgSize == 0 ==> old(dst) == 0 && p' == p + 1 && Size(src[p]) == 0
      ensures msgSize != 0 ==>
                && Fragment(old(message[..]), old(dst), src[p..p'], message[..dst], msgSize)
                && (dst < msgSize ==> p' == p + len)
    {
      hide StateOf;
      ghost var was := message[..dst];
      p' := p;
      var n := len;
      if dst == 0 {
        message[0] := src[p'];
        p', n, dst := p' + 1, n - 1, 1;
      }
      assert message[..dst] == was + src[p..p'];
      var bytesRead := dst;
      msgSize := if message[0] == 2 then EncodingFragSize(bytesRead) else Size(message[0]);
      if bytesRead < msgSize {
        var bytesToCopy := if msgSize - bytesRead > n then n else msgSize - bytesRead;
        Memcpy(src, p', bytesToCopy);
        assert src[p..p'] + src[p'..p' + bytesToCopy] == src[p..p' + bytesToCopy];
        p' := p' + bytesToCopy;
      }
    }

    // One pass of the loop over fragments: it always takes at least one octet.
    method ReadFragment(src: array<byte>, p: nat, len: nat) returns (p': nat)
      requires src != message && Outside(src) && 0 < len && p + len <= src.Length
      requires Valid() && !failed
      modifies this`events, this`failed, this`dst, message, updates.Repr(), keyboard
      ensures Valid()
      ensures p < p' <= p + len
      ensures Now() == Feed(old(Now()), src[p..p'])
      ensures updates.Since(old(updates.fb.hw.now), old(updates.starts))
    {
      hide UpToDate, Requests, Dispatched, Feed, StateOf, UnderWay, Size;
      ghost var before, was, n := Now(), message[..], dst;
      var msgSize;
      p', msgSize := TakeFragment(src, p, len);
      ghost var more, m := src[p..p'], message[..dst];
      if msgSize == 0 {
        IllegalMessage();
        assert more == [src[p]];
        FeedIllegal(before, was, src[p]);
      } else if dst < msgSize {
        // Wait for the rest.
        KeepFragment(before, was, n, more, m, msgSize, message[..]);
      } else if message[0] == 2 {
        if n < 4 {
          FeedFragment(before, was, n, more, m, msgSize);
        } else {
          FeedEncodingFragment(before, was, n, more, m, msgSize);
        }
        EvtEncodingFragment(dst, m);
      } else {
        FeedFragment(before, was, n, more, m, msgSize);
        DispatchFixed(m);
      }
    }

    // Whole pointer events and update requests are handled where they lie, without copying.
    method HandleWholeMessages(src: array<byte>, len: nat) returns (p: nat)
      requires src != message && Outside(src) && len <= src.Length
      requires Valid() && !failed && dst == 0
      modifies this`events, this`failed, src, updates.Repr()
      ensures Valid() && p <= len
      ensures src[p..len] == old(src[p..len])
      ensures Now() == Feed(old(Now()), old(src[..p]))
      ensures updates.Since(old(updates.fb.hw.now), old(updates.starts))
    {
      hide Step, Feed, UpToDate, Requests, Dispatched, Handle, After, Survives;
      p := 0;
      ghost var start, input := Now(), src[..len];
      FeedNothing(start);
      assert input[..0] == [];
      while !failed
        invariant p <= len && forall i | p <= i < len :: src[i] == input[i]
        invariant Valid() && Now() == Feed(start, input[..p])
        invariant updates.Since(old(updates.fb.hw.now), old(updates.starts))
        decreases len - p, failed
      {
        if len - p >= 6 && src[p] == 5 {
          assert src[p..p + 6] == input[p..p + 6];
          FeedNext(start, input, p, p + 6);
          FeedPointer(Now(), input[p..p + 6]);
          EvtPointer(src, p, input[p..p + 6]);
          p := p + 6;
        } else if len - p >= 10 && src[p] == 3 {
          assert src[p..p + 10] == input[p..p + 10];
          FeedNext(start, input, p, p + 10);
          FeedRequest(Now(), input[p..p + 10]);
          ghost var t, was := updates.fb.hw.now, updates.starts;
          EvtUpdateRequest(src, p, input[p..p + 10]);
          updates.StillSince(old(updates.fb.hw.now), old(updates.starts), t, was);
          p := p + 10;
        } else {
          break;
        }
      }
      assert input[..p] == old(src[..p]);
      assert src[p..len] == input[p..] == old(src[p..len]);
    }

    // vnc_handleMessageFragments
    method HandleMessageFragments(src: array<byte>, len: nat)
      requires src != message && Outside(src) && len <= src.Length
      requires Valid() && !failed
      modifies this`events, this`failed, this`dst, message, src, updates.Repr(), keyboard
      ensures Valid()
      ensures Now() == Feed(old(Now()), old(src[..len]))
      ensures updates.Since(old(updates.fb.hw.now), old(updates.starts))
    {
      hide Step, StateOf, UnderWay, UpToDate;
      ghost var start, input := Now(), src[..len];
      var p := 0;
      if dst == 0 {
        p := HandleWholeMessages(src, len);
        assert old(src[..p]) == input[..p] && old(src[p..len]) == input[p..];
      }
      while p < len && !failed
        invariant Valid() && p <= len && src[p..len] == input[p..]
        invariant Now() == Feed(start, input[..p])
        invariant updates.Since(old(updates.fb.hw.now), old(updates.starts))
        decreases len - p
      {
        var p0 := p;
        ghost var t, was := updates.fb.hw.now, updates.starts;
        p := ReadFragment(src, p, len - p);
        updates.StillSince(old(updates.fb.hw.now), old(updates.starts), t, was);
        assert src[p0..p] == src[p0..len][..p - p0] == input[p0..p];
        assert src[p..len] == src[p0..len][p - p0..] == input[p..];
        FeedNext(start, input, p0, p);
      }
      FeedNext(start, input, p, len);
      assert input[..len] == input;
      if failed {
        FeedFailed(Now(), input[p..]);
      }
    }

    // The session loop, over what successive calls of recv deliver. It ends with the first error.
    method ReadAndHandleMessages(chunks: seq<seq<byte>>)
      requires Valid() && !failed
      requires forall c | c in chunks :: 0 < |c| <= recvBuf.Length
      modifies this`events, this`failed, this`dst, message, recvBuf, updates.Repr(), keyboard
      ensures Valid()
      ensures Now() == Feed(old(Now()), Stream(chunks))
      ensures updates.Since(old(updates.fb.hw.now), old(updates.starts))
    {
      hide Step, StateOf, UnderWay, UpToDate;
      ghost var start := Now();
      var i := 0;
      while i < |chunks| && !failed
        invariant Valid() && i <= |chunks|
        invariant Now() == Feed(start, Stream(chunks[..i]))
        invariant updates.Since(old(updates.fb.hw.now), old(updates.starts))
      {
        var chunk := chunks[i];
        forall k | 0 <= k < |chunk| {
          recvBuf[k] := chunk[k];
        }
        assert recvBuf[..|chunk|] == chunk;
        StreamSnoc(chunks[..i], chunk);
        assert chunks[..i] + [chunk] == chunks[..i + 1];
        FeedAppend(start, Stream(chunks[..i]), chunk);
        ghost var t, was := updates.fb.hw.now, updates.starts;
        HandleMessageFragments(recvBuf, |chunk|);
        updates.StillSince(old(updates.fb.hw.now), old(updates.starts), t, was);
        i := i + 1;
      }
      ConcatAppend(Octets, chunks[..i], chunks[i..]);
      assert chunks[..i] + chunks[i..] == chunks;
      FeedAppend(start, Stream(chunks[..i]), Stream(chunks[i..]));
      if failed {
        FeedFailed(Now(), Stream(chunks[i..]));
      }
    }
  }
}
