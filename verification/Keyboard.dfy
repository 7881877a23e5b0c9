// Turning the client's key events into the key codes an ADB keyboard would send.
module Keyboard {
  import opened Bytes
  import opened Kchr
  import Messages

  const COMMAND: byte := 55
  const SHIFT: byte := 56
  const LOCK: byte := 57
  const OPTION: byte := 58
  const CTRL: byte := 59
  const RETURN: byte := 0x24

  type KeyEvent = e: Messages.Event | e.Key? witness Messages.Key(0, 0)

  // ----- the codes of one key, in the order they go down -----

  // A keysym that stands for a key rather than for a character.
  function Special(keysym: uint32): seq<byte> {
    if keysym == 0xffe1 || keysym == 0xffe2 then [SHIFT]
    else if keysym == 0xffe3 || keysym == 0xffe4 then [CTRL]
    else if keysym == 0xffe5 then [LOCK]
    else if keysym == 0xffe7 || keysym == 0xffe8 || 0xffeb <= keysym <= 0xffee then [COMMAND]
    else if keysym == 0xffe9 || keysym == 0xffea then [OPTION]
    else if keysym == 0xffaa then [0x43]
    else if keysym == 0xffab then [0x45]
    else if keysym == 0xffad then [0x4E]
    else if keysym == 0xffae then [0x41]
    else if keysym == 0xffaf then [0x4B]
    else if keysym == 0xff8d then [0x4C]
    else if 0xffb0 <= keysym <= 0xffb9 then [keysym - 0xffb0 + 0x52]
    else []
  }

  function Flag(m: byte, bit: byte, code: byte): seq<byte>
    requires bit != 0
  {
    if m / bit % 2 == 1 then [code] else []
  }

  function ModifierCodes(m: byte): seq<byte> {
    Flag(m, 1, COMMAND) + Flag(m, 2, SHIFT) + Flag(m, 4, LOCK) + Flag(m, 8, OPTION) + Flag(m, 16, CTRL)
  }

  function Chord(vk: Vkeypress): seq<byte> {
    if vk.valid then ModifierCodes(vk.modifiers) + [vk.keycode] else []
  }

  function Up(code: byte): byte {
    if code < 0x80 then code + 0x80 else code
  }

  // The keys come up in the opposite order.
  function Ups(codes: seq<byte>): seq<byte> {
    if codes == [] then [] else Ups(codes[1..]) + [Up(codes[0])]
  }

  lemma {:induction false} UpsReversed(codes: seq<byte>, i: nat)
    requires i < |codes|
    ensures |Ups(codes)| == |codes| && Ups(codes)[|codes| - 1 - i] == if codes[i] < 0x80 then codes[i] + 0x80 else codes[i]
  {
    UpsLength(codes[1..]);
    if i > 0 {
      UpsReversed(codes[1..], i - 1);
    }
  }

  lemma {:induction false} UpsLength(codes: seq<byte>)
    ensures |Ups(codes)| == |codes|
  {
    if codes != [] {
      UpsLength(codes[1..]);
    }
  }

  // What one key event sends.
  function Stroke(x: Index, macroman: uint32 -> byte, e: KeyEvent): seq<byte>
    requires Whole(x)
  {
    var special := Special(e.key);
    if special != [] then
      if e.down != 0 then special else Ups(special)
    else
      var kc := KeysForChar(x, macroman(e.key));
      var fst, snd := Chord(kc.fst), Chord(kc.snd);
      if kc.snd.valid then
        if e.down != 0 then fst + Ups(fst) + snd else Ups(snd)
      else if kc.fst.keycode == RETURN then
        if e.down != 0 then fst + Ups(fst) else []
      else
        if e.down != 0 then fst else Ups(fst)
  }

  // ----- the code that sends it -----

  // A count and a buffer of six codes.
  datatype KeyList = KeyList(count: nat, keys: seq<byte>) {
    ghost predicate Valid() {
      |keys| == 6 && count <= 6
    }

    function Codes(): seq<byte>
      requires Valid()
    {
      keys[..count]
    }

    function Append(code: byte): (k: KeyList)
      requires Valid() && count < 6
      ensures k.Valid() && k.Codes() == Codes() + [code]
    {
      KeyList(count + 1, keys[count := code])
    }
  }

  const NO_CODES := KeyList(0, [0, 0, 0, 0, 0, 0])

  method KeysymSpecialToKeypresses(keysym: uint32) returns (kp: KeyList)
    ensures kp.Valid() && kp.Codes() == Special(keysym)
    // The keypad.
    ensures keysym == 0xffaa ==> kp.Codes() == [0x43]
    ensures keysym == 0xffab ==> kp.Codes() == [0x45]
    ensures keysym == 0xffad ==> kp.Codes() == [0x4E]
    ensures keysym == 0xffae ==> kp.Codes() == [0x41]
    ensures keysym == 0xffaf ==> kp.Codes() == [0x4B]
    ensures keysym == 0xff8d ==> kp.Codes() == [0x4C]
    ensures 0xffb0 <= keysym <= 0xffb9 ==> kp.Codes() == [0x52 + (keysym - 0xffb0)]
  {
    kp := NO_CODES;
    var codes := Special(keysym);
    if codes != [] {
      kp := kp.Append(codes[0]);
    }
  }

  method AppendFlag(ks: KeyList, modifiers: byte, bit: byte, code: byte) returns (k: KeyList)
    requires ks.Valid() && ks.count < 6 && bit != 0
    ensures k.Valid() && k.Codes() == ks.Codes() + Flag(modifiers, bit, code) && k.count <= ks.count + 1
  {
    k := ks;
    if modifiers / bit % 2 == 1 {
      k := k.Append(code);
    }
  }

  method VkeyToKeypresses(vk: Vkeypress) returns (ks: KeyList)
    ensures ks.Valid() && ks.Codes() == Chord(vk)
  {
    hide Flag;
    ks := NO_CODES;
    if !vk.valid {
      return;
    }
    ks := AppendFlag(ks, vk.modifiers, 1, COMMAND);
    ks := AppendFlag(ks, vk.modifiers, 2, SHIFT);
    ks := AppendFlag(ks, vk.modifiers, 4, LOCK);
    ks := AppendFlag(ks, vk.modifiers, 8, OPTION);
    ks := AppendFlag(ks, vk.modifiers, 16, CTRL);
    ks := ks.Append(vk.keycode);
  }

  class Keyboard {
    const kchr: KchrState
    const macroman: uint32 -> byte
    // Every code handed to the keyboard driver so far.
    var injected: seq<byte>

    constructor (kchr: KchrState, macroman: uint32 -> byte)
      ensures this.kchr == kchr && this.macroman == macroman && injected == []
    {
      this.kchr, this.macroman, injected := kchr, macroman, [];
    }

    method DoKey(code: byte)
      modifies this
      ensures injected == old(injected) + [code]
    {
      injected := injected + [code];
    }

    method DoKeyDown(kp: KeyList)
      requires kp.Valid()
      modifies this
      ensures injected == old(injected) + kp.Codes()
    {
      var i: nat := 0;
      while i < kp.count
        invariant i <= kp.count
        invariant injected == old(injected) + kp.Codes()[..i]
      {
        DoKey(kp.keys[i]);
        i := i + 1;
      }
    }

    method DoKeyUp(kp: KeyList)
      requires kp.Valid()
      modifies this
      ensures injected == old(injected) + Ups(kp.Codes())
    {
      ghost var codes := kp.Codes();
      var i := kp.count - 1;
      while i >= 0
        invariant -1 <= i < kp.count
        invariant injected == old(injected) + Ups(codes[i + 1..])
      {
        var k := kp.keys[i];
        k := Up(k);
        DoKey(k);
        assert codes[i..][1..] == codes[i + 1..];
        i := i - 1;
      }
    }

    method EvtKeyAraw(e: KeyEvent)
      requires Whole(kchr.Now())
      modifies this
      ensures injected == old(injected) + Stroke(kchr.Now(), macroman, e)
    {
      hide Special, Chord, Ups, KeysForChar, Whole;
      var k := KeysymSpecialToKeypresses(e.key);
      if k.count != 0 {
        if e.down != 0 {
          DoKeyDown(k);
        } else {
          DoKeyUp(k);
        }
        return;
      }
      var mr := macroman(e.key);
      var kc := KeysForChar(kchr.Now(), mr);
      if kc.snd.valid {
        if e.down != 0 {
          k := VkeyToKeypresses(kc.fst);
          DoKeyDown(k);
          DoKeyUp(k);
          k := VkeyToKeypresses(kc.snd);
          DoKeyDown(k);
        } else {
          k := VkeyToKeypresses(kc.snd);
          DoKeyUp(k);
        }
      } else {
        k := VkeyToKeypresses(kc.fst);
        if e.down != 0 {
          DoKeyDown(k);
          if kc.fst.keycode == RETURN {
            DoKeyUp(k);
          }
        } else {
          if kc.fst.keycode != RETURN {
            DoKeyUp(k);
          }
        }
      }
    }
  }
}
