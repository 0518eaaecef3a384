/** The keyboard decoder: scancode set 1, byte by byte, with the modifier and lock state it keeps. */
module Keyboard {
  import opened Words

  const SHIFT: bv32 := 0x01
  const CTL: bv32 := 0x02
  const ALT: bv32 := 0x04
  const CAPSLOCK: bv32 := 0x08
  const NUMLOCK: bv32 := 0x10
  const SCROLLLOCK: bv32 := 0x20
  const E0ESC: bv32 := 0x40

  /** The modifier that a key holds down while it is pressed. */
  function ShiftCode(data: byte): bv32 {
    if data == 0x1D || data == 0x9D then CTL
    else if data == 0x2A || data == 0x36 then SHIFT
    else if data == 0x38 || data == 0xB8 then ALT
    else 0
  }

  /** The lock that a key toggles. */
  function ToggleCode(data: byte): bv32 {
    if data == 0x3A then CAPSLOCK else if data == 0x45 then NUMLOCK else if data == 0x46 then SCROLLLOCK else 0
  }

  /** The three ways the decoder changes its state word, and how it tests it. */
  function Set(shift: bv32, bits: bv32): bv32 { shift | bits }
  function Clear(shift: bv32, bits: bv32): bv32 { shift & !bits }
  function Toggle(shift: bv32, bits: bv32): bv32 { shift ^ bits }
  predicate On(shift: bv32, flag: bv32) { shift & flag != 0 }

  /** The state after one byte. */
  function Decode(shift: bv32, data: byte): bv32 {
    if data == 0xE0 then Set(shift, E0ESC)
    else if data >= 0x80 then
      var code := if On(shift, E0ESC) then data else data - 0x80;
      Clear(shift, Set(ShiftCode(code), E0ESC))
    else if On(shift, E0ESC) then
      Toggle(Set(Clear(shift, E0ESC), ShiftCode(data + 0x80)), ToggleCode(data + 0x80))
    else Toggle(Set(shift, ShiftCode(data)), ToggleCode(data))
  }

  function DecodeAll(shift: bv32, bytes: seq<byte>): bv32 {
    if bytes == [] then shift else Decode(DecodeAll(shift, bytes[..|bytes| - 1]), bytes[|bytes| - 1])
  }

  // ----- key events

  /** A key is pressed or released; keys of the extended block send a 0xE0 first. */
  datatype Event = Event(extended: bool, code: nat, make: bool)

  /** Codes that a keyboard sends. Releasing key 0x60 would send 0xE0, so there is no such key. */
  predicate Sendable(e: Event) { 1 <= e.code < 0x80 && e.code != 0x60 }

  function Encode(e: Event): seq<byte>
    requires Sendable(e)
  {
    (if e.extended then [0xE0] else []) + [if e.make then e.code else e.code + 0x80]
  }

  function EncodeAll(events: seq<Event>): seq<byte>
    requires forall e :: e in events ==> Sendable(e)
  {
    if events == [] then []
    else EncodeAll(events[..|events| - 1]) + Encode(events[|events| - 1])
  }

  // ----- what the events mean

  datatype Modifier = Shift | Control | Alt
  datatype Lock = Caps | Num | Scroll

  /** The keys of a modifier. */
  predicate KeyOf(m: Modifier, extended: bool, code: nat) {
    match m
    case Shift => !extended && code in {0x2A, 0x36}
    case Control => code == 0x1D
    case Alt => code == 0x38
  }

  /** A modifier is held if the last event of one of its keys was a press. */
  predicate Held(m: Modifier, events: seq<Event>) {
    if events == [] then false
    else
      var e := events[|events| - 1];
      if KeyOf(m, e.extended, e.code) then e.make else Held(m, events[..|events| - 1])
  }

  function LockCode(l: Lock): nat {
    match l
    case Caps => 0x3A
    case Num => 0x45
    case Scroll => 0x46
  }

  /** How often the key of a lock has been pressed. */
  function Presses(l: Lock, events: seq<Event>): nat {
    if events == [] then 0
    else
      var e := events[|events| - 1];
      Presses(l, events[..|events| - 1]) + (if e.make && !e.extended && e.code == LockCode(l) then 1 else 0)
  }

  function FlagOf(m: Modifier): bv32 {
    match m
    case Shift => SHIFT
    case Control => CTL
    case Alt => ALT
  }

  function LockFlag(l: Lock): bv32 {
    match l
    case Caps => CAPSLOCK
    case Num => NUMLOCK
    case Scroll => SCROLLLOCK
  }

  // ----- one event

  lemma DecodeTwo(shift: bv32, bytes: seq<byte>, a: byte)
    ensures DecodeAll(shift, bytes + [a]) == Decode(DecodeAll(shift, bytes), a)
  {
    assert (bytes + [a])[..|bytes|] == bytes;
  }

  lemma DecodeEvent(shift: bv32, bytes: seq<byte>, e: Event)
    requires Sendable(e)
    ensures DecodeAll(shift, bytes + Encode(e)) == DecodeEncoded(DecodeAll(shift, bytes), e)
  {
    var last := if e.make then e.code else e.code + 0x80;
    if e.extended {
      assert bytes + Encode(e) == (bytes + [0xE0]) + [last];
      DecodeTwo(shift, bytes, 0xE0);
      DecodeTwo(shift, bytes + [0xE0], last);
    } else {
      assert bytes + Encode(e) == bytes + [last];
      DecodeTwo(shift, bytes, last);
    }
  }

  function DecodeEncoded(shift: bv32, e: Event): bv32
    requires Sendable(e)
  {
    var s := if e.extended then Decode(shift, 0xE0) else shift;
    Decode(s, if e.make then e.code else e.code + 0x80)
  }

  predicate IsFlag(f: bv32) {
    f == SHIFT || f == CTL || f == ALT || f == CAPSLOCK || f == NUMLOCK || f == SCROLLLOCK || f == E0ESC
  }

  lemma OneBit(x: bv32, f: bv32)
    requires f == 1 || f == 2 || f == 4 || f == 8 || f == 16 || f == 32 || f == 64
    ensures x & f == 0 || x & f == f
  {}

  lemma MaskOfOr(x: bv32, c: bv32, f: bv32)
    ensures (x | c) & f == (x & f) | (c & f)
  {}

  lemma MaskOfAndNot(x: bv32, c: bv32, f: bv32)
    ensures (x & !c) & f == (x & f) & !(c & f)
  {}

  lemma MaskOfXor(x: bv32, c: bv32, f: bv32)
    ensures (x ^ c) & f == (x & f) ^ (c & f)
  {}

  lemma OneBitOr(a: bv32, b: bv32, f: bv32)
    requires (a == 0 || a == f) && (b == 0 || b == f) && f != 0
    ensures (a | b) != 0 <==> a != 0 || b != 0
  {}

  lemma OneBitAndNot(a: bv32, b: bv32, f: bv32)
    requires (a == 0 || a == f) && (b == 0 || b == f) && f != 0
    ensures (a & !b) != 0 <==> a != 0 && b == 0
  {}

  lemma OneBitXor(a: bv32, b: bv32, f: bv32)
    requires (a == 0 || a == f) && (b == 0 || b == f) && f != 0
    ensures (a ^ b) != 0 <==> a != b
  {}

  lemma SetFlag(x: bv32, c: bv32, f: bv32)
    requires IsFlag(f)
    ensures On(Set(x, c), f) == (On(x, f) || On(c, f))
  {
    OneBit(x, f);
    OneBit(c, f);
    MaskOfOr(x, c, f);
    OneBitOr(x & f, c & f, f);
  }

  lemma ClearFlag(x: bv32, c: bv32, f: bv32)
    requires IsFlag(f)
    ensures On(Clear(x, c), f) == (On(x, f) && !On(c, f))
  {
    OneBit(x, f);
    OneBit(c, f);
    MaskOfAndNot(x, c, f);
    OneBitAndNot(x & f, c & f, f);
  }

  lemma ToggleFlag(x: bv32, c: bv32, f: bv32)
    requires IsFlag(f)
    ensures On(Toggle(x, c), f) == (On(x, f) != On(c, f))
  {
    OneBit(x, f);
    OneBit(c, f);
    MaskOfXor(x, c, f);
    OneBitXor(x & f, c & f, f);
  }

  /** Setting, clearing and toggling bits, seen through one flag. */
  lemma FlagOps(x: bv32, c: bv32, f: bv32)
    requires IsFlag(f)
    ensures On(Set(x, c), f) == (On(x, f) || On(c, f))
    ensures On(Clear(x, c), f) == (On(x, f) && !On(c, f))
    ensures On(Toggle(x, c), f) == (On(x, f) != On(c, f))
  {
    hide *;
    SetFlag(x, c, f);
    ClearFlag(x, c, f);
    ToggleFlag(x, c, f);
  }

  /** The byte that a code becomes behind a prefix. */
  function Extended(shift: bv32, code: nat): nat { if On(shift, E0ESC) then code + 0x80 else code }

  /** One flag after one byte. */
  lemma DecodeFlag(shift: bv32, data: byte, f: bv32)
    requires IsFlag(f)
    ensures On(Decode(shift, data), f) ==
            if data == 0xE0 then On(shift, f) || On(E0ESC, f)
            else if data >= 0x80 then
              On(shift, f) && !On(ShiftCode(Extended(shift, data - 0x80)), f) && !On(E0ESC, f)
            else
              ((On(shift, f) && !(On(shift, E0ESC) && On(E0ESC, f))) || On(ShiftCode(Extended(shift, data)), f))
              != On(ToggleCode(Extended(shift, data)), f)
  {
    hide On, Set, Clear, Toggle, ShiftCode, ToggleCode, IsFlag;
    FlagOps(shift, E0ESC, f);
    if data < 0x80 {
      var code := Extended(shift, data);
      var s := if On(shift, E0ESC) then Clear(shift, E0ESC) else shift;
      FlagOps(s, ShiftCode(code), f);
      FlagOps(Set(s, ShiftCode(code)), ToggleCode(code), f);
    } else {
      var code := Extended(shift, data - 0x80);
      FlagOps(shift, Set(ShiftCode(code), E0ESC), f);
      FlagOps(ShiftCode(code), E0ESC, f);
    }
  }

  lemma CodeFlags(code: byte, m: Modifier, l: Lock)
    ensures On(ShiftCode(code), FlagOf(m)) ==
            (if code < 0x80 then KeyOf(m, false, code) else KeyOf(m, true, code - 0x80))
    ensures !On(ShiftCode(code), LockFlag(l)) && !On(ShiftCode(code), E0ESC)
    ensures On(ToggleCode(code), LockFlag(l)) == (code == LockCode(l))
    ensures !On(ToggleCode(code), FlagOf(m)) && !On(ToggleCode(code), E0ESC)
    ensures !On(E0ESC, FlagOf(m)) && !On(E0ESC, LockFlag(l)) && On(E0ESC, E0ESC)
    ensures IsFlag(FlagOf(m)) && IsFlag(LockFlag(l)) && IsFlag(E0ESC)
  {}

  /** One event, from a state with no pending prefix: it sets or clears its modifier, toggles its lock,
      and changes nothing else. */
  lemma EventChanges(shift: bv32, e: Event, m: Modifier, l: Lock)
    requires Sendable(e) && !On(shift, E0ESC)
    ensures var s := DecodeEncoded(shift, e);
            && !On(s, E0ESC)
            && On(s, FlagOf(m)) == (if KeyOf(m, e.extended, e.code) then e.make else On(shift, FlagOf(m)))
            && On(s, LockFlag(l)) == (On(shift, LockFlag(l)) != (e.make && !e.extended && e.code == LockCode(l)))
  {
    hide On, Decode, ShiftCode, ToggleCode, FlagOf, LockFlag, IsFlag;
    var s := if e.extended then Decode(shift, 0xE0) else shift;
    var data := if e.make then e.code else e.code + 0x80;
    var code := if e.extended then e.code + 0x80 else e.code;
    CodeFlags(code, m, l);
    DecodeFlag(shift, 0xE0, FlagOf(m));
    DecodeFlag(shift, 0xE0, LockFlag(l));
    DecodeFlag(shift, 0xE0, E0ESC);
    assert Extended(s, e.code) == code;
    DecodeFlag(s, data, FlagOf(m));
    DecodeFlag(s, data, LockFlag(l));
    DecodeFlag(s, data, E0ESC);
  }

  lemma EncodeAllSnoc(events: seq<Event>)
    requires events != [] && forall e :: e in events ==> Sendable(e)
    ensures (forall e :: e in events[..|events| - 1] ==> Sendable(e)) && Sendable(events[|events| - 1])
    ensures EncodeAll(events) == EncodeAll(events[..|events| - 1]) + Encode(events[|events| - 1])
  {
    assert events[|events| - 1] in events;
  }

  lemma NoFlags()
    ensures forall f :: !On(0, f)
    ensures DecodeAll(0, EncodeAll([])) == 0
  {}

  /** Feeding the bytes of any sequence of key events, from the initial state, gives the state that the
      events mean: a modifier reflects the last event of its keys, a lock the parity of its presses. */
  lemma {:induction false} RoundTrip(events: seq<Event>, m: Modifier, l: Lock)
    requires forall e :: e in events ==> Sendable(e)
    ensures var shift := DecodeAll(0, EncodeAll(events));
            && On(shift, FlagOf(m)) == Held(m, events)
            && On(shift, LockFlag(l)) == (Presses(l, events) % 2 == 1)
            && !On(shift, E0ESC)
  {
    hide On, DecodeAll, EncodeAll, DecodeEncoded, FlagOf, LockFlag, KeyOf, Encode;
    if events == [] {
      NoFlags();
    } else {
      var n := |events| - 1;
      EncodeAllSnoc(events);
      RoundTrip(events[..n], m, l);
      DecodeEvent(0, EncodeAll(events[..n]), events[n]);
      EventChanges(DecodeAll(0, EncodeAll(events[..n])), events[n], m, l);
    }
  }

  /** For any bytes at all: a prefix is pending exactly when the last byte was one. */
  lemma PrefixPendingIff(bytes: seq<byte>)
    ensures On(DecodeAll(0, bytes), E0ESC) <==> bytes != [] && bytes[|bytes| - 1] == 0xE0
  {
    if bytes != [] {
      PrefixAfter(DecodeAll(0, bytes[..|bytes| - 1]), bytes[|bytes| - 1]);
    }
  }

  lemma PrefixAfter(shift: bv32, data: byte)
    ensures On(Decode(shift, data), E0ESC) <==> data == 0xE0
  {
    hide On, Decode, ShiftCode, ToggleCode;
    DecodeFlag(shift, data, E0ESC);
    CodeFlags(if data < 0x80 then Extended(shift, data) else Extended(shift, data - 0x80), Shift, Caps);
  }

  // ----- characters

  /** The three character tables, by modifier: without, with shift, and with control. */
  datatype CharMaps = CharMaps(normal: byte -> byte, shifted: byte -> byte, control: byte -> byte) {
    function Lookup(shift: bv32, data: byte): byte {
      if On(shift, CTL) then control(data) else if On(shift, SHIFT) then shifted(data) else normal(data)
    }
  }

  function SwapCase(c: byte): byte {
    if 0x61 <= c <= 0x7A then c - 0x20 else if 0x41 <= c <= 0x5A then c + 0x20 else c
  }

  /** The character of a key, when caps lock swaps the case of letters. */
  function Character(maps: CharMaps, shift: bv32, data: byte): byte {
    if On(shift, CAPSLOCK) then SwapCase(maps.Lookup(shift, data)) else maps.Lookup(shift, data)
  }

  /** What a key press after any events types: the character from the control table if a control key is
      held, else from the shift table if a shift key is, else from the plain one, and with the other
      case if it is a letter and caps lock has been pressed an odd number of times. Keys of the extended
      block have their place 0x80 further on. */
  lemma KeyTypes(maps: CharMaps, events: seq<Event>)
    requires events != [] && forall e :: e in events ==> Sendable(e)
    requires events[|events| - 1].make && Sendable(events[|events| - 1])
    ensures var e := events[|events| - 1];
            var data := if e.extended then e.code + 0x80 else e.code;
            var c := if Held(Control, events) then maps.control(data)
                     else if Held(Shift, events) then maps.shifted(data)
                     else maps.normal(data);
            Character(maps, DecodeAll(0, EncodeAll(events)), data) ==
            if Presses(Caps, events) % 2 == 0 then c
            else if 'a' as int <= c <= 'z' as int then c - 32
            else if 'A' as int <= c <= 'Z' as int then c + 32
            else c
  {
    assert Sendable(events[|events| - 1]);
    RoundTrip(events, Control, Caps);
    RoundTrip(events, Shift, Caps);
    assert FlagOf(Control) == CTL && FlagOf(Shift) == SHIFT && LockFlag(Caps) == CAPSLOCK;
    hide On, DecodeAll, EncodeAll, Held, Presses;
  }

  class Decoder {
    var shift: bv32
    const maps: CharMaps

    constructor (maps: CharMaps)
      ensures shift == 0 && this.maps == maps
    {
      shift, this.maps := 0, maps;
    }

    /** Polls the controller: -1 if it has no byte, 0 for a byte that is no key press, else the
        character of the key. */
    method GetScancode(status: byte, byteRead: byte) returns (c: int)
      modifies this
      ensures status % 2 == 0 ==> c == -1 && shift == old(shift)
      ensures status % 2 == 1 ==> shift == Decode(old(shift), byteRead)
      ensures status % 2 == 1 && byteRead >= 0x80 ==> c == 0
      ensures status % 2 == 1 && byteRead < 0x80 ==>
                var data := if On(old(shift), E0ESC) then byteRead + 0x80 else byteRead;
                c == Character(maps, shift, data)
    {
      hide On, Set, Clear, Toggle, ShiftCode, ToggleCode;
      if status % 2 == 0 {
        return -1;
      }
      var data := byteRead;
      if data == 0xE0 {
        shift := Set(shift, E0ESC);
        return 0;
      } else if data >= 0x80 {
        data := if On(shift, E0ESC) then data else data - 0x80;
        shift := Clear(shift, Set(ShiftCode(data), E0ESC));
        return 0;
      } else if On(shift, E0ESC) {
        data := data + 0x80;
        shift := Clear(shift, E0ESC);
      }
      shift := Set(shift, ShiftCode(data));
      shift := Toggle(shift, ToggleCode(data));
      c := maps.Lookup(shift, data);
      if On(shift, CAPSLOCK) {
        if 0x61 <= c <= 0x7A {
          c := c - 0x20;
        } else if 0x41 <= c <= 0x5A {
          c := c + 0x20;
        }
      }
    }
  }
}
