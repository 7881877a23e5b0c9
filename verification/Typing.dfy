// What the toolbox makes of key codes, following a KCHR layout, and what is typed in the end.
module Typing {
  import opened Bytes
  import opened Folds
  import opened Kchr
  import opened Keyboard
  import KeyLedger
  import Messages

  // ----- from key codes to characters -----

  datatype Held = Held(command: bool, shift: bool, lock: bool, option: bool, control: bool)
  datatype Waiting = Nothing | Completing(dead: DeadKey)

  // The modifiers that are down, the dead key that waits for a character, and the text so far.
  datatype Desk = Desk(held: Held, waiting: Waiting, typed: seq<byte>)

  const NONE := Held(false, false, false, false, false)

  predicate IsModifier(code: int) {
    55 <= code <= 59
  }

  function Hold(h: Held, code: byte, down: bool): Held
    requires IsModifier(code)
  {
    match code
    case 55 => h.(command := down)
    case 56 => h.(shift := down)
    case 57 => h.(lock := down)
    case 58 => h.(option := down)
    case _ => h.(control := down)
  }

  function Value(b: bool, v: byte): byte {
    if b then v else 0
  }

  function ModifierValue(h: Held): byte {
    Value(h.command, 1) + Value(h.shift, 2) + Value(h.lock, 4) + Value(h.option, 8) + Value(h.control, 16)
  }

  function Character(l: Layout, m: byte, code: byte): byte {
    if m < |l.tableOf| && l.tableOf[m] < |l.tables| && code < |l.tables[l.tableOf[m]]|
    then l.tables[l.tableOf[m]][code] else 0
  }

  function DeadKeyAt(deads: seq<DeadKey>, table: byte, code: byte): Waiting {
    if deads == [] then Nothing
    else if deads[0].table == table && deads[0].keycode == code then Completing(deads[0])
    else DeadKeyAt(deads[1..], table, code)
  }

  // What a completing character turns into; the no-match character in front of it if it does not
  // complete the dead key.
  function Completed(pairs: seq<Completion>, noMatch: uint16, c: byte): seq<byte> {
    if pairs == [] then [noMatch % 0x100, c]
    else if pairs[0].completor == c then [pairs[0].substitute]
    else Completed(pairs[1..], noMatch, c)
  }

  // A code below 0x80 is a key going down, any other one a key coming up. An ADB keyboard has its
  // modifiers on the keys 55 to 59.
  function Strike(l: Layout, s: Desk, code: byte): Desk {
    if code >= 0x80 then
      if IsModifier(code - 0x80) then s.(held := Hold(s.held, code - 0x80, false)) else s
    else if IsModifier(code) then
      s.(held := Hold(s.held, code, true))
    else
      var m := ModifierValue(s.held);
      var c := Character(l, m, code);
      if c == 0 then
        var dead := if m < |l.tableOf| then DeadKeyAt(l.deads, l.tableOf[m], code) else Nothing;
        if dead == Nothing then s else s.(waiting := dead)
      else match s.waiting
        case Nothing => s.(typed := s.typed + [c])
        case Completing(d) => Desk(s.held, Nothing, s.typed + Completed(d.pairs, d.noMatch, c))
  }

  function Replay(l: Layout, s: Desk, codes: seq<byte>): Desk {
    Fold((d, c) => Strike(l, d, c), s, codes)
  }

  // ----- chords -----

  function Bit(m: byte, v: byte): bool
    requires v != 0
  {
    m / v % 2 == 1
  }

  // The modifiers of `h` and those of the modifier value `m`.
  function With(h: Held, m: byte): Held {
    Held(h.command || Bit(m, 1), h.shift || Bit(m, 2), h.lock || Bit(m, 4), h.option || Bit(m, 8), h.control || Bit(m, 16))
  }

  function Without(h: Held, m: byte): Held {
    Held(h.command && !Bit(m, 1), h.shift && !Bit(m, 2), h.lock && !Bit(m, 4), h.option && !Bit(m, 8),
         h.control && !Bit(m, 16))
  }

  lemma WithNone(m: byte)
    requires m < 32
    ensures ModifierValue(With(NONE, m)) == m
    ensures Without(With(NONE, m), m) == NONE
  {
    assert m / 4 == m / 2 / 2 && m / 8 == m / 4 / 2 && m / 16 == m / 8 / 2;
  }

  lemma ReplayAppend(l: Layout, s: Desk, a: seq<byte>, b: seq<byte>)
    ensures Replay(l, s, a + b) == Replay(l, Replay(l, s, a), b)
  {
    FoldAppend((d, c) => Strike(l, d, c), s, a, b);
  }

  lemma ReplayOne(l: Layout, s: Desk, code: byte)
    ensures Replay(l, s, [code]) == Strike(l, s, code)
  {
    FoldSnoc((d, c) => Strike(l, d, c), s, [], code);
    assert [] + [code] == [code];
  }

  lemma FlagDown(l: Layout, s: Desk, m: byte, v: byte, code: byte)
    requires v != 0 && IsModifier(code)
    ensures Replay(l, s, Flag(m, v, code)) == if Bit(m, v) then s.(held := Hold(s.held, code, true)) else s
    ensures Replay(l, s, Ups(Flag(m, v, code))) == if Bit(m, v) then s.(held := Hold(s.held, code, false)) else s
  {
    if Bit(m, v) {
      ReplayOne(l, s, code);
      ReplayOne(l, s, Up(code));
      assert Flag(m, v, code) == [code];
      assert Ups([code]) == Ups([code][1..]) + [Up(code)];
      assert Ups([code][1..]) == [];
      assert Ups([code]) == [Up(code)];
    } else {
      assert Flag(m, v, code) == [] && Ups([]) == [];
    }
  }

  lemma {:induction false} UpsAppend(a: seq<byte>, b: seq<byte>)
    ensures Ups(a + b) == Ups(b) + Ups(a)
    decreases a
  {
    if a == [] {
      assert a + b == b;
    } else {
      assert (a + b)[1..] == a[1..] + b;
      UpsAppend(a[1..], b);
    }
  }

  lemma ModifiersDown(l: Layout, s: Desk, m: byte)
    ensures Replay(l, s, ModifierCodes(m)) == s.(held := With(s.held, m))
  {
    hide Replay, Strike, Flag, Bit;
    var c1, c2, c4, c8, c16 := Flag(m, 1, COMMAND), Flag(m, 2, SHIFT), Flag(m, 4, LOCK), Flag(m, 8, OPTION), Flag(m, 16, CTRL);
    ReplayAppend(l, s, c1 + c2 + c4 + c8, c16);
    ReplayAppend(l, s, c1 + c2 + c4, c8);
    ReplayAppend(l, s, c1 + c2, c4);
    ReplayAppend(l, s, c1, c2);
    var s1 := Replay(l, s, c1);
    var s2 := Replay(l, s1, c2);
    var s4 := Replay(l, s2, c4);
    var s8 := Replay(l, s4, c8);
    FlagDown(l, s, m, 1, COMMAND);
    FlagDown(l, s1, m, 2, SHIFT);
    FlagDown(l, s2, m, 4, LOCK);
    FlagDown(l, s4, m, 8, OPTION);
    FlagDown(l, s8, m, 16, CTRL);
  }

  lemma ModifiersUp(l: Layout, s: Desk, m: byte)
    ensures Replay(l, s, Ups(ModifierCodes(m))) == s.(held := Without(s.held, m))
  {
    hide Replay, Strike, Flag, Bit, Ups;
    var c1, c2, c4, c8, c16 := Flag(m, 1, COMMAND), Flag(m, 2, SHIFT), Flag(m, 4, LOCK), Flag(m, 8, OPTION), Flag(m, 16, CTRL);
    UpsAppend(c1 + c2 + c4 + c8, c16);
    UpsAppend(c1 + c2 + c4, c8);
    UpsAppend(c1 + c2, c4);
    UpsAppend(c1, c2);
    var s16 := Replay(l, s, Ups(c16));
    var s8 := Replay(l, s16, Ups(c8));
    var s4 := Replay(l, s8, Ups(c4));
    var s2 := Replay(l, s4, Ups(c2));
    ReplayAppend(l, s, Ups(c16), Ups(c8) + (Ups(c4) + (Ups(c2) + Ups(c1))));
    ReplayAppend(l, s16, Ups(c8), Ups(c4) + (Ups(c2) + Ups(c1)));
    ReplayAppend(l, s8, Ups(c4), Ups(c2) + Ups(c1));
    ReplayAppend(l, s4, Ups(c2), Ups(c1));
    FlagDown(l, s, m, 16, CTRL);
    FlagDown(l, s16, m, 8, OPTION);
    FlagDown(l, s8, m, 4, LOCK);
    FlagDown(l, s4, m, 2, SHIFT);
    FlagDown(l, s2, m, 1, COMMAND);
  }

  lemma ChordDown(l: Layout, s: Desk, vk: Vkeypress)
    requires vk.valid
    ensures Replay(l, s, Chord(vk)) == Strike(l, s.(held := With(s.held, vk.modifiers)), vk.keycode)
  {
    hide ModifierCodes, Replay, Strike, With;
    ModifiersDown(l, s, vk.modifiers);
    ReplayAppend(l, s, ModifierCodes(vk.modifiers), [vk.keycode]);
    ReplayOne(l, Replay(l, s, ModifierCodes(vk.modifiers)), vk.keycode);
  }

  lemma ChordUp(l: Layout, s: Desk, vk: Vkeypress)
    requires vk.valid && vk.keycode < 0x80 && !IsModifier(vk.keycode)
    ensures Replay(l, s, Ups(Chord(vk))) == s.(held := Without(s.held, vk.modifiers))
  {
    hide ModifierCodes, Replay, Without, Ups, Hold, Completed;
    UpsAppend(ModifierCodes(vk.modifiers), [vk.keycode]);
    UpsOne(vk.keycode);
    ReplayAppend(l, s, [Up(vk.keycode)], Ups(ModifierCodes(vk.modifiers)));
    ReplayOne(l, s, Up(vk.keycode));
    ModifiersUp(l, s, vk.modifiers);
  }

  lemma ReplayNothing(l: Layout, s: Desk)
    ensures Replay(l, s, []) == s
  {
  }

  lemma UpsOne(code: byte)
    ensures Ups([code]) == [Up(code)]
  {
    assert Ups([code]) == Ups([code][1..]) + [Up(code)];
  }

  // ----- layouts that can be typed on -----

  ghost predicate Leads(l: Layout, t: int) {
    exists m | 0 <= m < 32 < |l.tableOf| :: l.tableOf[m] == t
  }

  ghost predicate IsDirect(l: Layout, c: byte) {
    c != 0 && exists t, k | IsKey(l.tables, t, k) :: l.tables[t][k] == c
  }

  ghost predicate SameKey(a: DeadKey, b: DeadKey) {
    a.table == b.table && a.keycode == b.keycode
  }

  ghost predicate WellFormed(l: Layout) {
    && Shaped(l)
    && (forall m | 0 <= m < KEYS :: l.tableOf[m] < |l.tables|)
    && (forall t | 0 <= t < |l.tables| :: Leads(l, t))
    && (forall t, k | IsKey(l.tables, t, k) && IsModifier(k) :: l.tables[t][k] == 0)
    && (forall d <- l.deads ::
          IsKey(l.tables, d.table, d.keycode) && !IsModifier(d.keycode) && l.tables[d.table][d.keycode] == 0)
    && (forall i, j | 0 <= i < j < |l.deads| :: !SameKey(l.deads[i], l.deads[j]))
    && (forall d <- l.deads, j, k | 0 <= j < k < |d.pairs| :: d.pairs[j].completor != d.pairs[k].completor)
    && (forall i, j | IsPair(l.deads, i, j) :: IsDirect(l, l.deads[i].pairs[j].completor))
  }

  // `vk` is how the daemon types the character that table `t` has at `k`.
  ghost predicate Reaches(l: Layout, vk: Vkeypress, t: byte, k: byte) {
    && vk.valid && vk.modifiers < 32 && vk.keycode == k && k < 0x80 && !IsModifier(k)
    && IsKey(l.tables, t, k) && |l.tableOf| == 0x100 && l.tableOf[vk.modifiers] == t
  }

  lemma TableReached(l: Layout, t: byte, k: byte)
    requires WellFormed(l) && IsKey(l.tables, t, k) && !IsModifier(k)
    ensures Reaches(l, Vkeypress(true, Inverse(l).modifiers[t], k), t, k)
  {
    hide Inverse;
    ModifiersLeadToTable(l, t);
    assert Leads(l, t);
    var m :| 0 <= m < 32 && l.tableOf[m] == t;
  }

  lemma DirectReached(l: Layout, c: byte)
    requires WellFormed(l) && IsDirect(l, c)
    ensures var e := Inverse(l).entries[c];
            && e.valid && IsKey(l.tables, e.table, e.keycode) && l.tables[e.table][e.keycode] == c
            && Reaches(l, Vkeypress(true, Inverse(l).modifiers[e.table], e.keycode), e.table, e.keycode)
  {
    hide Inverse;
    EntryIsFirst(l, c);
    var e := Inverse(l).entries[c];
    assert IsKey(l.tables, e.table, e.keycode);
    TableReached(l, e.table, e.keycode);
  }

  // ----- from a character back to itself -----

  lemma {:induction false} DeadKeyFound(deads: seq<DeadKey>, i: nat)
    requires i < |deads| && forall j | 0 <= j < i :: !SameKey(deads[j], deads[i])
    ensures DeadKeyAt(deads, deads[i].table, deads[i].keycode) == Completing(deads[i])
  {
    if i > 0 {
      assert !SameKey(deads[0], deads[i]);
      forall j | 0 <= j < i - 1
        ensures !SameKey(deads[1..][j], deads[1..][i - 1])
      {
        assert !SameKey(deads[j + 1], deads[i]);
      }
      DeadKeyFound(deads[1..], i - 1);
    }
  }

  lemma {:induction false} PairFound(pairs: seq<Completion>, j: nat, noMatch: uint16)
    requires j < |pairs| && forall k | 0 <= k < j :: pairs[k].completor != pairs[j].completor
    ensures Completed(pairs, noMatch, pairs[j].completor) == [pairs[j].substitute]
  {
    if j > 0 {
      assert pairs[0].completor != pairs[j].completor;
      PairFound(pairs[1..], j - 1, noMatch);
    }
  }

  // A direct key, struck with whatever else is held, types what the layout has for all of it.
  lemma StrikeHeld(l: Layout, h: Held, out: seq<byte>, vk: Vkeypress)
    requires WellFormed(l) && vk.valid && vk.keycode < 0x80 && !IsModifier(vk.keycode)
    ensures var c := Character(l, ModifierValue(With(h, vk.modifiers)), vk.keycode);
            var after := Replay(l, Desk(h, Nothing, out), Chord(vk));
            && after.held == With(h, vk.modifiers)
            && after.typed == out + (if c == 0 then [] else [c])
            && (c != 0 ==> after.waiting == Nothing)
  {
    hide With, Chord, Replay, Character, ModifierValue, DeadKeyAt, WellFormed, Completed, Hold;
    ChordDown(l, Desk(h, Nothing, out), vk);
    assert out + [] == out;
  }

  // A direct character comes out of its press, whatever modifiers the client holds, if and only
  // if these do not lead to another table that has something else on the key.
  lemma PressTypes(l: Layout, macroman: uint32 -> byte, keysym: uint32, h: Held, out: seq<byte>)
    requires WellFormed(l) && Special(keysym) == [] && IsDirect(l, macroman(keysym))
    ensures Whole(Inverse(l))
    ensures var x, c := Inverse(l), macroman(keysym);
            var vk := KeysForChar(x, c).fst;
            Replay(l, Desk(h, Nothing, out), Stroke(x, macroman, Messages.Key(1, keysym))).typed == out + [c]
            <==> Character(l, ModifierValue(With(h, vk.modifiers)), vk.keycode) == c
  {
    hide Inverse, Whole, WellFormed, Special, IsDirect, With, Chord, Replay, Character, ModifierValue, Ups, Reaches;
    WholeInverse(l);
    var x, c := Inverse(l), macroman(keysym);
    DirectKey(l, c);
    var vk := KeysForChar(x, c).fst;
    var s := Desk(h, Nothing, out);
    StrikeHeld(l, h, out, vk);
    ReplayAppend(l, s, Chord(vk), Ups(Chord(vk)));
    ChordUp(l, Replay(l, s, Chord(vk)), vk);
    assert |out + [Character(l, ModifierValue(With(h, vk.modifiers)), vk.keycode)]| == |out| + 1;
    assert (out + [c])[|out|] == c;
  }

  // A layout with one key, `small` by itself and `large` with shift.
  function TwoCases(small: byte, large: byte): Layout {
    Layout(seq(0x100, m => if m / 2 % 2 == 1 then 1 else 0),
           [seq(KEYS, k => if k == 1 then small else 0), seq(KEYS, k => if k == 1 then large else 0)],
           [])
  }

  // A client that already holds shift when it presses a small letter gets the capital one.
  lemma ShiftHeldMistypes(macroman: uint32 -> byte, keysym: uint32, large: byte)
    requires Special(keysym) == [] && macroman(keysym) != 0 && macroman(keysym) != large
    ensures var l := TwoCases(macroman(keysym), large);
            && WellFormed(l) && IsDirect(l, macroman(keysym)) && Whole(Inverse(l))
            && Replay(l, Desk(NONE.(shift := true), Nothing, []), Stroke(Inverse(l), macroman, Messages.Key(1, keysym))).typed
               != [macroman(keysym)]
  {
    hide Inverse, Whole, Special, Replay, Stroke;
    var c := macroman(keysym);
    var l, h := TwoCases(c, large), NONE.(shift := true);
    assert IsKey(l.tables, 0, 1) && l.tables[0][1] == c;
    assert l.tableOf[0] == 0 && l.tableOf[2] == 1;
    assert Leads(l, 0) && Leads(l, 1);
    assert WellFormed(l);
    WholeInverse(l);
    PressTypes(l, macroman, keysym, h, []);
    EntryIsFirst(l, c);
    var e := Inverse(l).entries[c];
    assert IsKey(l.tables, e.table, e.keycode) && e.table == 0 && e.keycode == 1;
    ModifiersLeadToTable(l, 0);
    assert Inverse(l).modifiers[0] == 0;
    assert With(h, 0) == h && ModifierValue(h) == 2;
    assert [] + [c] == [c];
  }

  lemma WholeInverse(l: Layout)
    requires WellFormed(l)
    ensures Shaped(l) && Whole(Inverse(l))
  {
    InverseIsWhole(l);
  }

  lemma DirectKey(l: Layout, c: byte)
    requires WellFormed(l) && Whole(Inverse(l)) && IsDirect(l, c)
    ensures c != 0
    ensures var kc := KeysForChar(Inverse(l), c);
            && !kc.snd.valid && kc.fst.valid && kc.fst.modifiers < 32 && kc.fst.keycode < 0x80 && !IsModifier(kc.fst.keycode)
            && Character(l, kc.fst.modifiers, kc.fst.keycode) == c
  {
    hide Inverse, WellFormed;
    DirectReached(l, c);
  }

  lemma WithoutWith(h: Held, m: byte)
    ensures Without(With(h, m), m) == Without(h, m)
  {
    hide Bit;
  }

  // A chord of an ordinary key goes down and up again.
  lemma FullPress(l: Layout, h: Held, w: Waiting, out: seq<byte>, vk: Vkeypress)
    requires vk.valid && vk.keycode < 0x80 && !IsModifier(vk.keycode)
    ensures var m := vk.modifiers;
            Replay(l, Desk(h, w, out), Chord(vk) + Ups(Chord(vk)))
            == Strike(l, Desk(With(h, m), w, out), vk.keycode).(held := Without(h, m))
  {
    hide With, Without, Chord, Replay, Character, ModifierValue, Ups, DeadKeyAt, Completed, Hold;
    var s := Desk(h, w, out);
    ReplayAppend(l, s, Chord(vk), Ups(Chord(vk)));
    ChordDown(l, s, vk);
    ChordUp(l, Replay(l, s, Chord(vk)), vk);
    WithoutWith(h, vk.modifiers);
  }

  // The modifiers that the client holds do not get in the way of a chord: with them, too, it is
  // struck in the table that it is meant for.
  ghost predicate Undisturbed(l: Layout, h: Held, vk: Vkeypress) {
    && |l.tableOf| == 0x100
    && l.tableOf[ModifierValue(With(h, vk.modifiers))] == l.tableOf[vk.modifiers]
  }

  lemma SameTable(l: Layout, h: Held, vk: Vkeypress)
    requires Undisturbed(l, h, vk)
    ensures var v := ModifierValue(With(h, vk.modifiers));
            v < |l.tableOf| && l.tableOf[v] == l.tableOf[vk.modifiers] &&
            Character(l, v, vk.keycode) == Character(l, vk.modifiers, vk.keycode)
  {
  }

  // Modifiers that a chord has anyway do not disturb it, and none at all do not.
  lemma OwnModifiers(l: Layout, h: Held, vk: Vkeypress)
    requires |l.tableOf| == 0x100 && vk.modifiers < 32 && With(h, vk.modifiers) == With(NONE, vk.modifiers)
    ensures Undisturbed(l, h, vk)
  {
    WithNone(vk.modifiers);
  }

  // What the two chords of a character with a dead key are.
  lemma DeadRoute(l: Layout, c: byte) returns (d: DeadKey, comp: byte)
    requires WellFormed(l) && Whole(Inverse(l))
    requires !Inverse(l).entries[c].valid && Inverse(l).deads[c].valid
    ensures var kc := KeysForChar(Inverse(l), c);
            && kc.fst.valid && kc.fst.modifiers < 32 && kc.fst.keycode < 0x80 && !IsModifier(kc.fst.keycode)
            && Character(l, kc.fst.modifiers, kc.fst.keycode) == 0
            && |l.tableOf| == 0x100 && DeadKeyAt(l.deads, l.tableOf[kc.fst.modifiers], kc.fst.keycode) == Completing(d)
            && kc.snd.valid && kc.snd.modifiers < 32 && kc.snd.keycode < 0x80 && !IsModifier(kc.snd.keycode)
            && Character(l, kc.snd.modifiers, kc.snd.keycode) == comp != 0
            && Completed(d.pairs, d.noMatch, comp) == [c]
  {
    hide Inverse, DeadKeyAt, Completed;
    var i, j := DeadIsFirst(l, c);
    d, comp := l.deads[i], l.deads[i].pairs[j].completor;
    assert d in l.deads && IsPair(l.deads, i, j);
    TableReached(l, d.table, d.keycode);
    DeadKeyFound(l.deads, i);
    DirectReached(l, comp);
    PairFound(d.pairs, j, d.noMatch);
  }

  function PressAndRelease(x: Index, macroman: uint32 -> byte, keysym: uint32): seq<byte>
    requires Whole(x)
  {
    Stroke(x, macroman, Messages.Key(1, keysym)) + Stroke(x, macroman, Messages.Key(0, keysym))
  }

  // A character can be typed although the client holds modifiers.
  ghost predicate Unhindered(l: Layout, x: Index, c: byte, h: Held)
    requires Whole(x)
  {
    var kc := KeysForChar(x, c);
    && (kc.fst.valid ==> Undisturbed(l, h, kc.fst))
    && (kc.snd.valid ==> Undisturbed(l, Without(h, kc.fst.modifiers), kc.snd))
  }

  // What the Macintosh still takes for held afterwards: each chord lets go of its own modifiers,
  // even if it is the client that holds them.
  function HeldAfter(x: Index, c: byte, h: Held): Held
    requires Whole(x)
  {
    var kc := KeysForChar(x, c);
    if kc.snd.valid then Without(Without(h, kc.fst.modifiers), kc.snd.modifiers)
    else if kc.fst.valid then Without(h, kc.fst.modifiers)
    else h
  }

  lemma TypesDirect(l: Layout, macroman: uint32 -> byte, keysym: uint32, h: Held, out: seq<byte>)
    requires WellFormed(l) && Whole(Inverse(l)) && Special(keysym) == [] && IsDirect(l, macroman(keysym))
    requires Unhindered(l, Inverse(l), macroman(keysym), h)
    ensures Replay(l, Desk(h, Nothing, out), PressAndRelease(Inverse(l), macroman, keysym))
            == Desk(HeldAfter(Inverse(l), macroman(keysym), h), Nothing, out + [macroman(keysym)])
  {
    hide Inverse, Whole, WellFormed, Special, IsDirect, With, Without, Chord, Replay, Character, ModifierValue, Ups, KeysForChar,
         DeadKeyAt, Completed, Hold, Undisturbed;
    WholeInverse(l);
    var x, c := Inverse(l), macroman(keysym);
    DirectKey(l, c);
    var vk := KeysForChar(x, c).fst;
    FullPress(l, h, Nothing, out, vk);
    SameTable(l, h, vk);
    assert PressAndRelease(x, macroman, keysym) == Chord(vk) + Ups(Chord(vk));
  }

  lemma TypesDead(l: Layout, macroman: uint32 -> byte, keysym: uint32, h: Held, out: seq<byte>)
    requires WellFormed(l) && Whole(Inverse(l)) && Special(keysym) == []
    requires !Inverse(l).entries[macroman(keysym)].valid && Inverse(l).deads[macroman(keysym)].valid
    requires Unhindered(l, Inverse(l), macroman(keysym), h)
    ensures Replay(l, Desk(h, Nothing, out), PressAndRelease(Inverse(l), macroman, keysym))
            == Desk(HeldAfter(Inverse(l), macroman(keysym), h), Nothing, out + [macroman(keysym)])
  {
    hide Inverse, Whole, WellFormed, Special, With, Without, Chord, Replay, Character, ModifierValue, Ups, KeysForChar,
         DeadKeyAt, Completed, Hold, Undisturbed;
    WholeInverse(l);
    var x, c := Inverse(l), macroman(keysym);
    var d, comp := DeadRoute(l, c);
    var fst, snd := KeysForChar(x, c).fst, KeysForChar(x, c).snd;
    var h' := Without(h, fst.modifiers);
    FullPress(l, h, Nothing, out, fst);
    SameTable(l, h, fst);
    FullPress(l, h', Completing(d), out, snd);
    SameTable(l, h', snd);
    assert PressAndRelease(x, macroman, keysym) == (Chord(fst) + Ups(Chord(fst))) + (Chord(snd) + Ups(Chord(snd)));
    ReplayAppend(l, Desk(h, Nothing, out), Chord(fst) + Ups(Chord(fst)), Chord(snd) + Ups(Chord(snd)));
  }

  ghost predicate Typable(l: Layout, c: byte) {
    || (exists t, k | IsKey(l.tables, t, k) :: l.tables[t][k] == c)
    || (exists i, j | IsPair(l.deads, i, j) :: l.deads[i].pairs[j].substitute == c)
  }

  lemma Untypable(l: Layout, macroman: uint32 -> byte, keysym: uint32)
    requires Shaped(l) && Whole(Inverse(l)) && Special(keysym) == [] && !Typable(l, macroman(keysym))
    ensures PressAndRelease(Inverse(l), macroman, keysym) == []
    ensures forall h :: HeldAfter(Inverse(l), macroman(keysym), h) == h
  {
    hide Inverse, Whole, Shaped, Special;
    EntryIsFirst(l, macroman(keysym));
    var i, j := DeadIsFirst(l, macroman(keysym));
  }

  // Pressing and releasing a key types its character, directly or with a dead key, if the layout
  // has it, and nothing otherwise, and no dead key waits.
  lemma TypesHeld(l: Layout, macroman: uint32 -> byte, keysym: uint32, h: Held, out: seq<byte>)
    requires WellFormed(l) && Special(keysym) == [] && macroman(keysym) != 0
    requires Whole(Inverse(l)) && Unhindered(l, Inverse(l), macroman(keysym), h)
    ensures Replay(l, Desk(h, Nothing, out), PressAndRelease(Inverse(l), macroman, keysym))
            == Desk(HeldAfter(Inverse(l), macroman(keysym), h), Nothing, out + Typed(l, macroman, keysym))
  {
    hide Inverse, Whole, WellFormed, Special, PressAndRelease, Undisturbed, Without, Replay;
    var c := macroman(keysym);
    WholeInverse(l);
    EntryIsFirst(l, c);
    var i, j := DeadIsFirst(l, c);
    if Inverse(l).entries[c].valid {
      TypesDirect(l, macroman, keysym, h, out);
    } else if Inverse(l).deads[c].valid {
      TypesDead(l, macroman, keysym, h, out);
    } else {
      Untypable(l, macroman, keysym);
      ReplayNothing(l, Desk(h, Nothing, out));
      assert out + [] == out;
    }
  }

  // With no modifiers held nothing gets in the way, and nothing stays held.
  lemma TypesBack(l: Layout, macroman: uint32 -> byte, keysym: uint32, out: seq<byte>)
    requires WellFormed(l) && Special(keysym) == [] && macroman(keysym) != 0
    ensures Whole(Inverse(l))
    ensures Replay(l, Desk(NONE, Nothing, out), PressAndRelease(Inverse(l), macroman, keysym))
            == Desk(NONE, Nothing, out + Typed(l, macroman, keysym))
  {
    hide Inverse, Whole, WellFormed, Special, PressAndRelease, Replay, Typed, Undisturbed;
    WholeInverse(l);
    NothingHeld(l, macroman(keysym));
    TypesHeld(l, macroman, keysym, NONE, out);
  }

  lemma NothingHeld(l: Layout, c: byte)
    requires WellFormed(l) && Whole(Inverse(l)) && c != 0
    ensures Unhindered(l, Inverse(l), c, NONE) && HeldAfter(Inverse(l), c, NONE) == NONE
  {
    hide Inverse, Whole, With;
    EntryIsFirst(l, c);
    var kc := KeysForChar(Inverse(l), c);
    if Inverse(l).entries[c].valid {
      DirectKey(l, c);
      OwnModifiers(l, NONE, kc.fst);
    } else if Inverse(l).deads[c].valid {
      var d, comp := DeadRoute(l, c);
      OwnModifiers(l, NONE, kc.fst);
      OwnModifiers(l, NONE, kc.snd);
    }
  }

  ghost function Typed(l: Layout, macroman: uint32 -> byte, keysym: uint32): seq<byte> {
    if Typable(l, macroman(keysym)) then [macroman(keysym)] else []
  }

  // ----- keysyms without a character -----

  lemma HeldAgain(m: byte, code: byte)
    requires IsModifier(code)
    ensures Without(Hold(Hold(With(NONE, m), code, true), code, false), m) == NONE
  {
    hide Bit;
  }

  // A modifier key, pressed and released as if it were an ordinary one.
  lemma ModifierPress(l: Layout, out: seq<byte>, vk: Vkeypress)
    requires vk.valid && IsModifier(vk.keycode)
    ensures Replay(l, Desk(NONE, Nothing, out), Chord(vk) + Ups(Chord(vk))) == Desk(NONE, Nothing, out)
  {
    hide With, Without, Chord, Replay, Character, ModifierValue, Ups, DeadKeyAt, Completed, Hold, ModifierCodes;
    var s, m, k := Desk(NONE, Nothing, out), vk.modifiers, vk.keycode;
    ReplayAppend(l, s, Chord(vk), Ups(Chord(vk)));
    ChordDown(l, s, vk);
    var down := Replay(l, s, Chord(vk));
    ChordParts(vk);
    UpsAppend(ModifierCodes(m), [k]);
    UpsOne(k);
    ReplayAppend(l, down, [Up(k)], Ups(ModifierCodes(m)));
    ReplayOne(l, down, Up(k));
    ModifiersUp(l, Replay(l, down, [Up(k)]), m);
    HeldAgain(m, k);
  }

  lemma ChordParts(vk: Vkeypress)
    requires vk.valid
    ensures Chord(vk) == ModifierCodes(vk.modifiers) + [vk.keycode]
  {
  }

  // The key that an unknown keysym presses, as it has character 0: the first that types nothing.
  lemma SilentKey(l: Layout) returns (vk: Vkeypress)
    requires WellFormed(l) && Whole(Inverse(l)) && Inverse(l).entries[0].valid
    ensures var e := Inverse(l).entries[0];
            && KeysForChar(Inverse(l), 0) == Keypresses(vk, NO_KEY) && vk.valid && vk.keycode == e.keycode < 0x80
            && (!IsModifier(vk.keycode) ==>
                  && vk.modifiers < 32 && |l.tableOf| == 0x100 && l.tableOf[vk.modifiers] == e.table
                  && Character(l, vk.modifiers, vk.keycode) == 0)
            && (IsModifier(vk.keycode) ==> DeadKeyAt(l.deads, e.table, e.keycode) == Nothing)
  {
    hide Inverse, DeadKeyAt;
    EntryIsFirst(l, 0);
    var e := Inverse(l).entries[0];
    vk := Vkeypress(true, Inverse(l).modifiers[e.table], e.keycode);
    if !IsModifier(e.keycode) {
      TableReached(l, e.table, e.keycode);
    } else {
      NoDeadKey(l.deads, e.table, e.keycode);
    }
  }

  lemma {:induction false} NoDeadKey(deads: seq<DeadKey>, table: byte, code: byte)
    requires forall d <- deads :: d.table != table || d.keycode != code
    ensures DeadKeyAt(deads, table, code) == Nothing
  {
    if deads != [] {
      assert deads[0] in deads && forall d <- deads[1..] :: d in deads;
      NoDeadKey(deads[1..], table, code);
    }
  }

  lemma DeadKeysAreSilent(l: Layout)
    requires WellFormed(l) && l.deads != []
    ensures Inverse(l).entries[0].valid
  {
    hide Inverse;
    var d := l.deads[0];
    assert d in l.deads && IsKey(l.tables, d.table, d.keycode) && l.tables[d.table][d.keycode] == 0;
    EntryIsFirst(l, 0);
  }

  // A layout in which every key types something has no dead keys either.
  lemma NoSilentKey(l: Layout)
    requires WellFormed(l) && !Inverse(l).entries[0].valid
    ensures !Typable(l, 0)
  {
    hide Inverse;
    EntryIsFirst(l, 0);
    if l.deads != [] {
      DeadKeysAreSilent(l);
    }
  }

  // A keysym without a character presses the first key that types nothing by itself. It leaves the
  // text alone, but if that is a dead key, the next character completes it or is spoilt by it.
  lemma UnknownKeysym(l: Layout, macroman: uint32 -> byte, keysym: uint32, out: seq<byte>)
    requires WellFormed(l) && Special(keysym) == [] && macroman(keysym) == 0
    ensures Whole(Inverse(l))
    ensures var e := Inverse(l).entries[0];
            Replay(l, Desk(NONE, Nothing, out), PressAndRelease(Inverse(l), macroman, keysym))
            == Desk(NONE, if e.valid then DeadKeyAt(l.deads, e.table, e.keycode) else Nothing, out)
  {
    hide Inverse, Whole, WellFormed, Special, With, Chord, Replay, Character, ModifierValue, Ups, KeysForChar,
         DeadKeyAt, Completed, Hold;
    WholeInverse(l);
    var x := Inverse(l);
    if x.entries[0].valid {
      var vk := SilentKey(l);
      assert PressAndRelease(x, macroman, keysym) == Chord(vk) + Ups(Chord(vk));
      if IsModifier(vk.keycode) {
        ModifierPress(l, out, vk);
      } else {
        FullPress(l, NONE, Nothing, out, vk);
        WithNone(vk.modifiers);
      }
    } else {
      NoSilentKey(l);
      Untypable(l, macroman, keysym);
      ReplayNothing(l, Desk(NONE, Nothing, out));
    }
  }

  // ----- whole texts -----

  // What a client does to type: it presses and releases keys for characters, and in between it may
  // hold and let go of modifiers.
  datatype Act = Tap(keysym: uint32) | Modifier(down: byte, keysym: uint32)

  function EventsOf(act: Act): seq<KeyEvent> {
    match act
    case Tap(k) => [Messages.Key(1, k), Messages.Key(0, k)]
    case Modifier(down, k) => [Messages.Key(down, k)]
  }

  function Events(script: seq<Act>): seq<KeyEvent> {
    if script == [] then [] else EventsOf(script[0]) + Events(script[1..])
  }

  predicate IsModifierKeysym(keysym: uint32) {
    Special(keysym) != [] && IsModifier(Special(keysym)[0])
  }

  // What the Macintosh takes for held after an act.
  function HeldNext(x: Index, macroman: uint32 -> byte, act: Act, h: Held): Held
    requires Whole(x) && (act.Modifier? ==> IsModifierKeysym(act.keysym))
  {
    match act
    case Tap(k) => HeldAfter(x, macroman(k), h)
    case Modifier(down, k) => Hold(h, Special(k)[0], down != 0)
  }

  // Each key of the script has a character, and the modifiers held at the time do not get in its way.
  ghost predicate Playable(l: Layout, x: Index, macroman: uint32 -> byte, script: seq<Act>, h: Held)
    requires Whole(x)
  {
    script != [] ==>
      && (match script[0]
          case Tap(k) => Special(k) == [] && macroman(k) != 0 && Unhindered(l, x, macroman(k), h)
          case Modifier(_, k) => IsModifierKeysym(k))
      && Playable(l, x, macroman, script[1..], HeldNext(x, macroman, script[0], h))
  }

  ghost function Text(l: Layout, macroman: uint32 -> byte, script: seq<Act>): seq<byte> {
    if script == [] then []
    else (if script[0].Tap? then Typed(l, macroman, script[0].keysym) else []) + Text(l, macroman, script[1..])
  }

  lemma {:induction false} InjectedAppend(x: Index, macroman: uint32 -> byte, a: seq<KeyEvent>, b: seq<KeyEvent>)
    requires Whole(x)
    ensures KeyLedger.Injected(x, macroman, a + b) == KeyLedger.Injected(x, macroman, a) + KeyLedger.Injected(x, macroman, b)
    decreases a
  {
    hide Stroke, Whole;
    if a == [] {
      assert a + b == b;
    } else {
      assert (a + b)[1..] == a[1..] + b;
      InjectedAppend(x, macroman, a[1..], b);
    }
  }

  lemma InjectedTap(x: Index, macroman: uint32 -> byte, keysym: uint32)
    requires Whole(x)
    ensures KeyLedger.Injected(x, macroman, EventsOf(Tap(keysym))) == PressAndRelease(x, macroman, keysym)
  {
    hide Stroke, Whole;
    var events := EventsOf(Tap(keysym));
    assert events[1..] == [Messages.Key(0, keysym)] && events[1..][1..] == [];
    assert KeyLedger.Injected(x, macroman, events[1..]) == Stroke(x, macroman, events[1]) + KeyLedger.Injected(x, macroman, events[1..][1..]);
  }

  lemma ModifierStruck(l: Layout, x: Index, macroman: uint32 -> byte, act: Act, s: Desk)
    requires Whole(x) && act.Modifier? && IsModifierKeysym(act.keysym)
    ensures Replay(l, s, KeyLedger.Injected(x, macroman, EventsOf(act))) == s.(held := HeldNext(x, macroman, act, s.held))
  {
    hide KeysForChar, Whole, Replay, Hold;
    var events, code := EventsOf(act), Special(act.keysym)[0];
    var e := Messages.Key(act.down, act.keysym);
    assert events == [e] && events[1..] == [] && Special(act.keysym) == [code];
    assert KeyLedger.Injected(x, macroman, events) == Stroke(x, macroman, e) + KeyLedger.Injected(x, macroman, events[1..]);
    UpsOne(code);
    KeyLedger.NothingInjected(x, macroman);
    assert KeyLedger.Injected(x, macroman, events) == if act.down != 0 then [code] else [Up(code)];
    ReplayOne(l, s, code);
    ReplayOne(l, s, Up(code));
  }

  // The keysyms of the X window system for the modifiers on either side of a keyboard hold the
  // modifiers of the Macintosh: shift, control, caps lock, command for meta, super and hyper, option
  // for alt.
  lemma ModifierKeysyms(l: Layout, x: Index, macroman: uint32 -> byte, e: KeyEvent, s: Desk)
    requires Whole(x) && (0xffe1 <= e.key <= 0xffe5 || 0xffe7 <= e.key <= 0xffee)
    ensures var h, down := s.held, e.down != 0;
            Replay(l, s, Stroke(x, macroman, e)) == s.(held :=
              if e.key <= 0xffe2 then h.(shift := down)
              else if e.key <= 0xffe4 then h.(control := down)
              else if e.key == 0xffe5 then h.(lock := down)
              else if e.key == 0xffe9 || e.key == 0xffea then h.(option := down)
              else h.(command := down))
  {
    hide KeysForChar, Whole, Replay, Character, ModifierValue, DeadKeyAt, Completed;
    var code := Special(e.key)[0];
    UpsOne(code);
    ReplayOne(l, s, code);
    ReplayOne(l, s, Up(code));
    assert Stroke(x, macroman, e) == if e.down != 0 then [code] else [Up(code)];
  }

  // Whole texts come out as they were typed, less what the layout does not have.
  lemma {:induction false} TypesText(l: Layout, macroman: uint32 -> byte, script: seq<Act>, h: Held, out: seq<byte>)
    returns (held: Held)
    requires WellFormed(l) && Whole(Inverse(l)) && Playable(l, Inverse(l), macroman, script, h)
    ensures Replay(l, Desk(h, Nothing, out), KeyLedger.Injected(Inverse(l), macroman, Events(script)))
            == Desk(held, Nothing, out + Text(l, macroman, script))
    decreases script
  {
    hide Inverse, Whole, WellFormed, Special, PressAndRelease, Typed, Replay, Unhindered, HeldAfter, KeyLedger.Injected, EventsOf;
    WholeInverse(l);
    var x := Inverse(l);
    if script == [] {
      held := h;
      KeyLedger.NothingInjected(x, macroman);
      ReplayNothing(l, Desk(h, Nothing, out));
      assert out + [] == out;
    } else {
      var act, rest := script[0], script[1..];
      var next := HeldNext(x, macroman, act, h);
      var text := if act.Tap? then Typed(l, macroman, act.keysym) else [];
      var first := KeyLedger.Injected(x, macroman, EventsOf(act));
      InjectedAppend(x, macroman, EventsOf(act), Events(rest));
      ReplayAppend(l, Desk(h, Nothing, out), first, KeyLedger.Injected(x, macroman, Events(rest)));
      if act.Tap? {
        InjectedTap(x, macroman, act.keysym);
        TypesHeld(l, macroman, act.keysym, h, out);
      } else {
        ModifierStruck(l, x, macroman, act, Desk(h, Nothing, out));
        assert out + [] == out;
      }
      held := TypesText(l, macroman, rest, next, out + text);
      assert out + text + Text(l, macroman, rest) == out + Text(l, macroman, script);
    }
  }

  // ----- what is held at the end -----

  predicate IsHeld(h: Held, code: byte)
    requires IsModifier(code)
  {
    match code
    case 55 => h.command
    case 56 => h.shift
    case 57 => h.lock
    case 58 => h.option
    case _ => h.control
  }

  lemma HoldOne(h: Held, k: byte, down: bool, code: byte)
    requires IsModifier(k) && IsModifier(code)
    ensures IsHeld(Hold(h, k, down), code) == if k == code then down else IsHeld(h, code)
  {
  }

  // A modifier is held exactly if its key is down.
  lemma {:induction false} HeldIsDown(l: Layout, s: Desk, codes: seq<byte>, code: byte)
    requires IsModifier(code)
    ensures IsHeld(Replay(l, s, codes).held, code) ==
            if KeyLedger.Touches(codes, code) then KeyLedger.IsDown(codes, code) else IsHeld(s.held, code)
    decreases |codes|
  {
    hide Replay, Character, ModifierValue, DeadKeyAt, Completed, Hold, IsHeld;
    if codes == [] {
      ReplayNothing(l, s);
    } else {
      var init, last := codes[..|codes| - 1], codes[|codes| - 1];
      assert codes == init + [last];
      HeldIsDown(l, s, init, code);
      ReplayAppend(l, s, init, [last]);
      ReplayOne(l, Replay(l, s, init), last);
      if IsModifier(last) {
        HoldOne(Replay(l, s, init).held, last, true, code);
      } else if last >= 0x80 && IsModifier(last - 0x80) {
        HoldOne(Replay(l, s, init).held, last - 0x80, false, code);
      }
    }
  }

  lemma NoneHeld(h: Held)
    requires forall code: byte | IsModifier(code) :: !IsHeld(h, code)
    ensures h == NONE
  {
    assert !IsHeld(h, 55) && !IsHeld(h, 56) && !IsHeld(h, 57) && !IsHeld(h, 58) && !IsHeld(h, 59);
  }

  // When the client has released every keysym, in whatever order, the Macintosh holds no modifier.
  lemma NothingHeldAtEnd(l: Layout, macroman: uint32 -> byte, events: seq<KeyEvent>, s: Desk)
    requires Shaped(l) && (forall i | 0 <= i < |l.deads| :: l.deads[i].keycode < 0x80) && s.held == NONE
    requires forall k: uint32 :: !KeyLedger.IsPressed(events, k)
    ensures Whole(Inverse(l)) && Replay(l, s, KeyLedger.Injected(Inverse(l), macroman, events)).held == NONE
  {
    hide Inverse, Whole, Replay, KeyLedger.Injected, KeyLedger.IsDown, KeyLedger.Touches, KeyLedger.IsPressed;
    InverseIsWhole(l);
    var codes := KeyLedger.Injected(Inverse(l), macroman, events);
    var h := Replay(l, s, codes).held;
    forall code: byte | IsModifier(code)
      ensures !IsHeld(h, code)
    {
      KeyLedger.NothingStuck(l, macroman, events, code);
      HeldIsDown(l, s, codes, code);
    }
    NoneHeld(h);
  }
}
