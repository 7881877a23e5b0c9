// Downs and ups, over whole runs of key events: what is pressed is released.
module KeyLedger {
  import opened Bytes
  import opened Kchr
  import opened Keyboard
  import Messages

  // How often `code` goes down in `codes`, less how often it comes up.
  function Net(codes: seq<byte>, code: byte): int
    requires code < 0x80
  {
    if codes == [] then 0
    else (if codes[0] == code then 1 else if codes[0] == code + 0x80 then -1 else 0) + Net(codes[1..], code)
  }

  // The layout's own key codes have the top bit clear.
  ghost predicate SevenBit(x: Index) {
    && (forall e <- x.entries :: e.keycode < 0x80)
    && (forall d <- x.deads :: d.deadkey < 0x80)
  }

  ghost predicate Downs(codes: seq<byte>) {
    forall c <- codes :: c < 0x80
  }

  // The codes that stay down while the client holds a key: none of a carriage return, and only
  // the second chord of a character with a dead key.
  function HeldCodes(x: Index, macroman: uint32 -> byte, keysym: uint32): seq<byte>
    requires Whole(x)
  {
    if Special(keysym) != [] then Special(keysym)
    else
      var kc := KeysForChar(x, macroman(keysym));
      if kc.snd.valid then Chord(kc.snd)
      else if kc.fst.keycode == RETURN then []
      else Chord(kc.fst)
  }

  lemma {:induction false} NetAppend(a: seq<byte>, b: seq<byte>, code: byte)
    requires code < 0x80
    ensures Net(a + b, code) == Net(a, code) + Net(b, code)
    decreases a
  {
    if a == [] {
      assert a + b == b;
    } else {
      assert (a + b)[1..] == a[1..] + b;
      NetAppend(a[1..], b, code);
    }
  }

  lemma {:induction false} NetUps(codes: seq<byte>, code: byte)
    requires code < 0x80 && Downs(codes)
    ensures Net(Ups(codes), code) == -Net(codes, code)
  {
    if codes != [] {
      assert codes[0] in codes && forall c <- codes[1..] :: c in codes;
      NetUps(codes[1..], code);
      NetAppend(Ups(codes[1..]), [Up(codes[0])], code);
      assert Net([Up(codes[0])], code) == -(if codes[0] == code then 1 else 0);
    }
  }

  lemma ChordDowns(vk: Vkeypress)
    requires vk.keycode < 0x80
    ensures Downs(Chord(vk))
  {
  }

  lemma DownsOnly(x: Index, macroman: uint32 -> byte, keysym: uint32)
    requires Whole(x) && SevenBit(x)
    ensures Downs(Special(keysym))
    ensures var kc := KeysForChar(x, macroman(keysym));
            Downs(Chord(kc.fst)) && Downs(Chord(kc.snd))
  {
    hide Chord;
    var kc := KeysForChar(x, macroman(keysym));
    ChordDowns(kc.fst);
    ChordDowns(kc.snd);
  }

  function Sign(e: KeyEvent): int {
    if e.down != 0 then 1 else -1
  }

  lemma NetStroke(x: Index, macroman: uint32 -> byte, e: KeyEvent, code: byte)
    requires Whole(x) && SevenBit(x) && code < 0x80
    ensures Net(Stroke(x, macroman, e), code) == Sign(e) * Net(HeldCodes(x, macroman, e.key), code)
  {
    hide KeysForChar, Chord, Special, Whole, SevenBit, Downs, Net, Ups;
    DownsOnly(x, macroman, e.key);
    NetEmpty(code);
    var special := Special(e.key);
    var kc := KeysForChar(x, macroman(e.key));
    var fst, snd := Chord(kc.fst), Chord(kc.snd);
    NetUps(special, code);
    NetUps(fst, code);
    NetUps(snd, code);
    NetAppend(fst, Ups(fst), code);
    NetAppend(fst + Ups(fst), snd, code);
  }

  lemma NetEmpty(code: byte)
    requires code < 0x80
    ensures Net([], code) == 0
  {
  }

  // ----- whole runs -----

  function Injected(x: Index, macroman: uint32 -> byte, events: seq<KeyEvent>): seq<byte>
    requires Whole(x)
  {
    if events == [] then [] else Stroke(x, macroman, events[0]) + Injected(x, macroman, events[1..])
  }

  lemma {:induction false} InjectedSnoc(x: Index, macroman: uint32 -> byte, events: seq<KeyEvent>, e: KeyEvent)
    requires Whole(x)
    ensures Injected(x, macroman, events + [e]) == Injected(x, macroman, events) + Stroke(x, macroman, e)
  {
    hide Stroke, Whole;
    if events == [] {
      assert (events + [e])[1..] == [];
    } else {
      assert (events + [e])[1..] == events[1..] + [e];
      InjectedSnoc(x, macroman, events[1..], e);
    }
  }

  // How often the client pressed `keysym`, less how often it released it.
  function Balance(events: seq<KeyEvent>, keysym: uint32): int {
    if events == [] then 0
    else (if events[0].key == keysym then Sign(events[0]) else 0) + Balance(events[1..], keysym)
  }

  // Each keysym's own codes, as often as it is still held.
  function Owed(x: Index, macroman: uint32 -> byte, events: seq<KeyEvent>, keysyms: seq<uint32>, code: byte): int
    requires Whole(x) && code < 0x80
  {
    if keysyms == [] then 0
    else
      Balance(events, keysyms[0]) * Net(HeldCodes(x, macroman, keysyms[0]), code)
      + Owed(x, macroman, events, keysyms[1..], code)
  }

  ghost predicate Distinct(keysyms: seq<uint32>) {
    forall i, j | 0 <= i < j < |keysyms| :: keysyms[i] != keysyms[j]
  }

  lemma {:induction false} OwedNothing(x: Index, macroman: uint32 -> byte, events: seq<KeyEvent>,
                                       keysyms: seq<uint32>, code: byte)
    requires Whole(x) && code < 0x80
    requires forall k <- keysyms :: Balance(events, k) == 0
    ensures Owed(x, macroman, events, keysyms, code) == 0
  {
    if keysyms != [] {
      OwedNothing(x, macroman, events, keysyms[1..], code);
    }
  }

  // One more event in front changes what is owed by that event's keysym, and by nothing else.
  lemma {:induction false} OwedStep(x: Index, macroman: uint32 -> byte, events: seq<KeyEvent>,
                                    keysyms: seq<uint32>, code: byte)
    requires Whole(x) && code < 0x80 && events != [] && Distinct(keysyms)
    ensures var e := events[0];
            Owed(x, macroman, events, keysyms, code) ==
              (if e.key in keysyms then Sign(e) * Net(HeldCodes(x, macroman, e.key), code) else 0)
              + Owed(x, macroman, events[1..], keysyms, code)
  {
    hide HeldCodes, Net, Whole;
    if keysyms != [] {
      var e, k := events[0], keysyms[0];
      OwedStep(x, macroman, events, keysyms[1..], code);
      assert e.key in keysyms <==> e.key == k || e.key in keysyms[1..];
      Distribute(if e.key == k then Sign(e) else 0, Balance(events[1..], k), Net(HeldCodes(x, macroman, k), code));
      assert e.key == k ==> e.key !in keysyms[1..];
    }
  }

  lemma Distribute(a: int, b: int, n: int)
    ensures (a + b) * n == a * n + b * n
  {
  }

  // Whatever keysyms the client used, in whatever order it pressed and released them, each key
  // code is down as often as the keysyms still held account for.
  lemma {:induction false} Ledger(x: Index, macroman: uint32 -> byte, events: seq<KeyEvent>,
                                  keysyms: seq<uint32>, code: byte)
    requires Whole(x) && SevenBit(x) && code < 0x80
    requires Distinct(keysyms) && forall e <- events :: e.key in keysyms
    ensures Net(Injected(x, macroman, events), code) == Owed(x, macroman, events, keysyms, code)
    decreases events
  {
    hide HeldCodes, Net, Whole, Stroke, Owed, SevenBit, Distinct;
    if events == [] {
      NetEmpty(code);
      OwedNothing(x, macroman, events, keysyms, code);
    } else {
      Ledger(x, macroman, events[1..], keysyms, code);
      OwedStep(x, macroman, events, keysyms, code);
      NetStroke(x, macroman, events[0], code);
      NetAppend(Stroke(x, macroman, events[0]), Injected(x, macroman, events[1..]), code);
    }
  }

  function Used(events: seq<KeyEvent>): seq<uint32> {
    if events == [] then []
    else
      var rest := Used(events[1..]);
      if events[0].key in rest then rest else [events[0].key] + rest
  }

  lemma {:induction false} UsedOnce(events: seq<KeyEvent>)
    ensures Distinct(Used(events)) && forall e <- events :: e.key in Used(events)
  {
    if events != [] {
      UsedOnce(events[1..]);
      assert forall e <- events :: e == events[0] || e in events[1..];
    }
  }

  lemma InverseIsSevenBit(l: Layout)
    requires Shaped(l) && forall i | 0 <= i < |l.deads| :: l.deads[i].keycode < 0x80
    ensures Whole(Inverse(l)) && SevenBit(Inverse(l))
  {
    InverseIsWhole(l);
    forall c | 0 <= c < 0x100
      ensures Inverse(l).entries[c].keycode < 0x80 && Inverse(l).deads[c].deadkey < 0x80
    {
      FirstKeyIsFirst(l.tables, |l.tables|, 0, c);
      var a, b := FirstDeadIsFirst(l.deads, |l.deads|, 0, c);
    }
  }

  // Once presses and releases are even for every keysym, in any interleaving, downs and ups are for
  // every code.
  lemma DownsMeetUps(l: Layout, macroman: uint32 -> byte, events: seq<KeyEvent>, code: byte)
    requires Shaped(l) && (forall i | 0 <= i < |l.deads| :: l.deads[i].keycode < 0x80) && code < 0x80
    requires forall k: uint32 :: Balance(events, k) == 0
    ensures Whole(Inverse(l)) && Net(Injected(Inverse(l), macroman, events), code) == 0
  {
    hide Inverse, Net, Injected, SevenBit, Whole;
    InverseIsSevenBit(l);
    UsedOnce(events);
    Ledger(Inverse(l), macroman, events, Used(events), code);
    OwedNothing(Inverse(l), macroman, events, Used(events), code);
  }

  // ----- which keys are down -----

  predicate Touches(codes: seq<byte>, code: byte)
    requires code < 0x80
  {
    code in codes || code + 0x80 in codes
  }

  // Whether the last that was heard of the key is that it went down.
  predicate IsDown(codes: seq<byte>, code: byte)
    requires code < 0x80
  {
    codes != [] &&
    var last := codes[|codes| - 1];
    last == code || (last != code + 0x80 && IsDown(codes[..|codes| - 1], code))
  }

  lemma {:induction false} DownAppend(a: seq<byte>, b: seq<byte>, code: byte)
    requires code < 0x80
    ensures IsDown(a + b, code) == if Touches(b, code) then IsDown(b, code) else IsDown(a, code)
    decreases b
  {
    if b == [] {
      assert a + b == a;
    } else {
      var init, last := b[..|b| - 1], b[|b| - 1];
      assert b == init + [last];
      assert (a + b)[..|a + b| - 1] == a + init;
      DownAppend(a, init, code);
    }
  }

  lemma {:induction false} DownsAreDown(codes: seq<byte>, code: byte)
    requires code < 0x80 && Downs(codes)
    ensures IsDown(codes, code) == Touches(codes, code) == (code in codes)
  {
    if codes != [] {
      var init, last := codes[..|codes| - 1], codes[|codes| - 1];
      assert codes == init + [last] && last in codes && forall c <- init :: c in codes;
      DownsAreDown(init, code);
    }
  }

  lemma {:induction false} UpsAreUp(codes: seq<byte>, code: byte)
    requires code < 0x80 && Downs(codes)
    ensures !IsDown(Ups(codes), code)
    ensures Touches(Ups(codes), code) == (code in codes)
  {
    if codes != [] {
      assert codes[0] in codes && forall c <- codes[1..] :: c in codes;
      UpsAreUp(codes[1..], code);
      DownAppend(Ups(codes[1..]), [Up(codes[0])], code);
      assert codes == [codes[0]] + codes[1..];
    }
  }

  // What a stroke leaves down, it holds; and a release of the keysym lets go of it.
  lemma StrokeLeaves(x: Index, macroman: uint32 -> byte, e: KeyEvent, code: byte)
    requires Whole(x) && SevenBit(x) && code < 0x80
    ensures IsDown(Stroke(x, macroman, e), code) ==> e.down != 0 && code in HeldCodes(x, macroman, e.key)
    ensures e.down == 0 && code in HeldCodes(x, macroman, e.key) ==> Touches(Stroke(x, macroman, e), code)
  {
    hide KeysForChar, Chord, Special, Whole, SevenBit, Downs, IsDown, Touches, Ups;
    DownsOnly(x, macroman, e.key);
    var special := Special(e.key);
    var kc := KeysForChar(x, macroman(e.key));
    var fst, snd := Chord(kc.fst), Chord(kc.snd);
    NoneDown(code);
    DownsAreDown(special, code);
    DownsAreDown(fst, code);
    DownsAreDown(snd, code);
    UpsAreUp(special, code);
    UpsAreUp(fst, code);
    UpsAreUp(snd, code);
    DownAppend(fst, Ups(fst), code);
    DownAppend(fst + Ups(fst), snd, code);
  }

  // Of the keys that are held while the client holds them, the carriage return is the exception:
  // key 0x24 comes up at once, and a release does nothing. All other direct keys stay down until then.
  lemma CarriageReturn(x: Index, macroman: uint32 -> byte, press: KeyEvent, release: KeyEvent, code: byte)
    requires Whole(x) && SevenBit(x) && code < 0x80
    requires press.key == release.key && press.down != 0 && release.down == 0 && Special(press.key) == []
    requires KeysForChar(x, macroman(press.key)).fst.valid && !KeysForChar(x, macroman(press.key)).snd.valid
    ensures var k := KeysForChar(x, macroman(press.key)).fst.keycode;
            var down, up := Stroke(x, macroman, press), Stroke(x, macroman, release);
            if k == 0x24 then
              Touches(down, 0x24) && !IsDown(down, code) && up == []
            else
              IsDown(down, k) && Touches(up, k) && !IsDown(up, k)
  {
    hide KeysForChar, Special, Whole, SevenBit, Downs, IsDown, Touches, Ups;
    DownsOnly(x, macroman, press.key);
    var vk := KeysForChar(x, macroman(press.key)).fst;
    var chord := Chord(vk);
    assert chord[|chord| - 1] == vk.keycode && vk.keycode in chord;
    KeyIsSevenBit(x, macroman(press.key));
    DownsAreDown(chord, code);
    DownsAreDown(chord, vk.keycode);
    UpsAreUp(chord, code);
    UpsAreUp(chord, vk.keycode);
    DownAppend(chord, Ups(chord), code);
    TouchesAppend(chord, Ups(chord), vk.keycode);
  }

  lemma KeyIsSevenBit(x: Index, c: byte)
    requires Whole(x) && SevenBit(x)
    ensures KeysForChar(x, c).fst.keycode < 0x80
  {
  }

  lemma TouchesAppend(a: seq<byte>, b: seq<byte>, code: byte)
    requires code < 0x80
    ensures Touches(a + b, code) == (Touches(a, code) || Touches(b, code))
  {
  }

  lemma NoneDown(code: byte)
    requires code < 0x80
    ensures !IsDown([], code) && !Touches([], code)
  {
  }

  // Whether the client's last event for a keysym was to press it.
  predicate IsPressed(events: seq<KeyEvent>, keysym: uint32) {
    events != [] &&
    var last := events[|events| - 1];
    if last.key == keysym then last.down != 0 else IsPressed(events[..|events| - 1], keysym)
  }

  // Each key that is still down is held by a keysym that the client has still pressed.
  lemma {:induction false} StillDown(x: Index, macroman: uint32 -> byte, events: seq<KeyEvent>, code: byte)
    returns (keysym: uint32)
    requires Whole(x) && SevenBit(x) && code < 0x80
    requires IsDown(Injected(x, macroman, events), code)
    ensures IsPressed(events, keysym) && code in HeldCodes(x, macroman, keysym)
    decreases |events|
  {
    hide HeldCodes, Stroke, Whole, SevenBit, IsDown, Touches, Injected;
    keysym := 0;
    if events == [] {
      NothingInjected(x, macroman);
      NoneDown(code);
    } else {
      var init, last := events[..|events| - 1], events[|events| - 1];
      assert events == init + [last];
      InjectedSnoc(x, macroman, init, last);
      DownAppend(Injected(x, macroman, init), Stroke(x, macroman, last), code);
      StrokeLeaves(x, macroman, last, code);
      if Touches(Stroke(x, macroman, last), code) {
        keysym := last.key;
      } else {
        keysym := StillDown(x, macroman, init, code);
      }
    }
  }

  lemma NothingInjected(x: Index, macroman: uint32 -> byte)
    requires Whole(x)
    ensures Injected(x, macroman, []) == []
  {
  }

  // Once the client has released every keysym that it had pressed, in any interleaving, and however
  // often it pressed or released them, no key is down.
  lemma NothingStuck(l: Layout, macroman: uint32 -> byte, events: seq<KeyEvent>, code: byte)
    requires Shaped(l) && (forall i | 0 <= i < |l.deads| :: l.deads[i].keycode < 0x80) && code < 0x80
    requires forall k: uint32 :: !IsPressed(events, k)
    ensures Whole(Inverse(l)) && !IsDown(Injected(Inverse(l), macroman, events), code)
  {
    hide Inverse, Injected, SevenBit, Whole, IsDown, IsPressed;
    InverseIsSevenBit(l);
    if IsDown(Injected(Inverse(l), macroman, events), code) {
      var k := StillDown(Inverse(l), macroman, events, code);
    }
  }

  // Even presses and releases are not enough for that: the last event has to be the release.
  lemma ReleaseFirst(x: Index, macroman: uint32 -> byte) returns (events: seq<KeyEvent>)
    requires Whole(x)
    ensures forall k: uint32 :: Balance(events, k) == 0
    ensures Net(Injected(x, macroman, events), SHIFT) == 0 && IsDown(Injected(x, macroman, events), SHIFT)
  {
    hide KeysForChar, Whole;
    var up, down := Messages.Key(0, 0xffe1), Messages.Key(1, 0xffe1);
    events := [up, down];
    assert events[1..] == [down] && [down][1..] == [];
    assert Special(0xffe1) == [SHIFT] && Ups([SHIFT]) == Ups([SHIFT][1..]) + [Up(SHIFT)];
    assert Injected(x, macroman, [down]) == [SHIFT] + Injected(x, macroman, [down][1..]);
    var codes := Injected(x, macroman, events);
    assert codes == [Up(SHIFT), SHIFT];
    NetAppend([Up(SHIFT)], [SHIFT], SHIFT);
    NetAppend([SHIFT], [], SHIFT);
    assert codes == [Up(SHIFT)] + [SHIFT] && [Up(SHIFT)][1..] == [SHIFT][1..] == [];
    forall k: uint32
      ensures Balance(events, k) == 0
    {
      assert Balance([down], k) == (if k == 0xffe1 then 1 else 0) + Balance([down][1..], k);
    }
  }

  method ServeKeys(kb: Keyboard, events: seq<KeyEvent>)
    requires Whole(kb.kchr.Now())
    modifies kb
    ensures kb.injected == old(kb.injected) + Injected(kb.kchr.Now(), kb.macroman, events)
  {
    hide Stroke, Whole;
    ghost var x, macroman := kb.kchr.Now(), kb.macroman;
    var i: nat := 0;
    while i < |events|
      invariant i <= |events|
      invariant kb.injected + Injected(x, macroman, events[i..]) == old(kb.injected) + Injected(x, macroman, events)
    {
      kb.EvtKeyAraw(events[i]);
      assert events[i..][1..] == events[i + 1..];
      i := i + 1;
    }
  }
}
