/**
  The scan-code decoder of src/kernel/drivers/keyboard.c: bytes arrive one at a time, are
  collected in an eight-byte buffer and turned into key codes, which drive the modifier
  flags.  The decoder inverts the set-2 encoding of key events.
*/
module Keyboard {
  import opened Common
  import opened KeyTables

  /** A key code with its release flag, the top bit of the source's word. */
  datatype Event = Event(key: nat, release: bool)

  // ---------- The decoder ----------

  /** The tests of keyboard_scancode under which it waits for more bytes. */
  predicate Incomplete(p: seq<Byte>)
    requires p != []
  {
    var code, len := p[|p| - 1], |p|;
    || code == 0xE0 || code == 0xF0 || code == 0xE1
    || (code == 0x14 && len == 2 && p[0] == 0xE1)
    || (code == 0x14 && len == 6 && p[4] == 0xF0)
    || (code == 0x77 && len == 3 && p[1] == 0x14)
    || (code == 0x12 && len == 2 && p[0] == 0xE0)
    || (code == 0x7C && len == 3 && p[0] == 0xE0 && p[1] == 0xF0)
  }

  /** keyboard_scancode_to_keycode on the bytes collected. */
  function Lookup(p: seq<Byte>): Event {
    if |p| == 1 then Event(PlainKey(p[0]), false)
    else if |p| == 2 && p[0] == 0xE0 then Event(ExtendedKey(p[1]), false)
    else if |p| == 2 && p[0] == 0xF0 then Event(PlainKey(p[1]), true)
    else if |p| == 3 && p[0] == 0xE0 && p[1] == 0xF0 then Event(ExtendedKey(p[2]), true)
    else if p == PRTSC_MAKE then Event(KEY_PRTSC, false)
    else if p == PRTSC_BREAK then Event(KEY_PRTSC, true)
    else if p == PAUSE_MAKE then Event(KEY_PAUSE, false)
    else Event(0, false)
  }

  const PRTSC_MAKE: seq<Byte> := [0xE0, 0x12, 0xE0, 0x7C]
  const PRTSC_BREAK: seq<Byte> := [0xE0, 0xF0, 0x7C, 0xE0, 0xF0, 0x12]
  const PAUSE_MAKE: seq<Byte> := [0xE1, 0x14, 0x77, 0xE1, 0xF0, 0x14, 0xF0, 0x77]

  /** One byte: the bytes still pending, and the event if one is complete. */
  function Feed(pending: seq<Byte>, code: Byte): (seq<Byte>, Option<Event>) {
    var p := pending + [code];
    if Incomplete(p) then (p, None) else ([], Some(Lookup(p)))
  }

  /** The events decoded from a stream of bytes, and the bytes left over. */
  function Decode(pending: seq<Byte>, bytes: seq<Byte>): (seq<Event>, seq<Byte>)
    decreases |bytes|
  {
    if bytes == [] then ([], pending)
    else
      var (p, e) := Feed(pending, bytes[0]);
      var (rest, left) := Decode(p, bytes[1..]);
      ((if e.Some? then [e.value] else []) + rest, left)
  }

  /** The buffer never takes a ninth byte. */
  predicate Roomy(pending: seq<Byte>, bytes: seq<Byte>)
    decreases |bytes|
  {
    bytes == [] || (|pending| < 8 && Roomy(Feed(pending, bytes[0]).0, bytes[1..]))
  }

  // ---------- The encoding ----------

  /** Events a keyboard can send; Pause has no release code. */
  predicate Sendable(e: Event) {
    !ScanOf(e.key).NoScan? && (ScanOf(e.key).PauseKey? ==> !e.release)
  }

  function Encode(e: Event): seq<Byte>
    requires Sendable(e)
  {
    TablesInvert(e.key);
    match ScanOf(e.key)
    case Plain(c) => if e.release then [0xF0, c] else [c]
    case Extended(c) => if e.release then [0xE0, 0xF0, c] else [0xE0, c]
    case PrintScreen => if e.release then PRTSC_BREAK else PRTSC_MAKE
    case PauseKey => PAUSE_MAKE
  }

  function EncodeAll(es: seq<Event>): seq<Byte>
    requires forall i :: 0 <= i < |es| ==> Sendable(es[i])
  {
    if es == [] then [] else Encode(es[0]) + EncodeAll(es[1..])
  }

  // ---------- Decoding inverts encoding ----------

  lemma {:induction false} DecodeAppend(pending: seq<Byte>, a: seq<Byte>, b: seq<Byte>)
    requires Decode(pending, a).1 == []
    ensures Decode(pending, a + b) == (Decode(pending, a).0 + Decode([], b).0, Decode([], b).1)
    ensures Roomy(pending, a) && Roomy([], b) ==> Roomy(pending, a + b)
    decreases |a|
  {
    hide Lookup, Incomplete, PlainKey, ExtendedKey;
    if a == [] {
      assert a + b == b;
      assert [] + Decode([], b).0 == Decode([], b).0;
    } else {
      var (p, e) := Feed(pending, a[0]);
      var first := if e.Some? then [e.value] else [];
      assert (a + b)[0] == a[0] && (a + b)[1..] == a[1..] + b;
      DecodeAppend(p, a[1..], b);
      assert first + (Decode(p, a[1..]).0 + Decode([], b).0) == first + Decode(p, a[1..]).0 + Decode([], b).0;
    }
  }

  /** Byte `k` of a sequence leaves the decoder waiting, given the bytes before it. */
  predicate StallsAt(w: seq<Byte>, k: nat)
    requires k < |w|
  {
    || w[k] == 0xE0 || w[k] == 0xF0 || w[k] == 0xE1
    || (k == 1 && ((w[0] == 0xE1 && w[1] == 0x14) || (w[0] == 0xE0 && w[1] == 0x12)))
    || (k == 2 && ((w[1] == 0x14 && w[2] == 0x77) || (w[0] == 0xE0 && w[1] == 0xF0 && w[2] == 0x7C)))
    || (k == 5 && w[4] == 0xF0 && w[5] == 0x14)
  }

  lemma StallIsIncomplete(w: seq<Byte>, k: nat)
    requires k < |w|
    ensures StallsAt(w, k) <==> Incomplete(w[..k + 1])
  {
    var p := w[..k + 1];
    assert p[|p| - 1] == w[k];
  }

  /** At most eight bytes of which only the last completes an event. */
  ghost predicate OneEvent(w: seq<Byte>) {
    0 < |w| <= 8 && !StallsAt(w, |w| - 1) && forall k :: 0 <= k < |w| - 1 ==> StallsAt(w, k)
  }

  lemma {:induction false} DecodeFrom(w: seq<Byte>, k: nat)
    requires OneEvent(w) && k < |w|
    ensures Decode(w[..k], w[k..]) == ([Lookup(w)], []) && Roomy(w[..k], w[k..])
    decreases |w| - k
  {
    hide Lookup, Incomplete, StallsAt;
    StallIsIncomplete(w, k);
    var p, rest := w[..k], w[k..];
    assert rest[0] == w[k] && rest[1..] == w[k + 1..] && p + [w[k]] == w[..k + 1];
    if k == |w| - 1 {
      assert w[..k + 1] == w && rest[1..] == [];
      assert [Lookup(w)] + [] == [Lookup(w)];
    } else {
      DecodeFrom(w, k + 1);
      assert [] + [Lookup(w)] == [Lookup(w)];
    }
  }

  /** Such a sequence is looked up once, when it is complete. */
  lemma DecodeSequence(w: seq<Byte>)
    requires OneEvent(w)
    ensures Decode([], w) == ([Lookup(w)], []) && Roomy([], w)
  {
    DecodeFrom(w, 0);
    assert w[..0] == [] && w[0..] == w;
  }

  /** Each event's bytes decode to exactly that event, and leave the buffer empty. */
  lemma DecodeOne(e: Event)
    requires Sendable(e)
    ensures Decode([], Encode(e)) == ([e], []) && Roomy([], Encode(e))
  {
    hide Decode, Roomy, PlainKey, ExtendedKey;
    TablesInvert(e.key);
    DecodeSequence(Encode(e));
  }

  /**
    Feeding the bytes of any sequence of key events to the decoder yields exactly that
    sequence, with nothing pending at the end and never more than eight bytes collected.
  */
  lemma {:induction false} DecodeInvertsEncode(es: seq<Event>)
    requires forall i :: 0 <= i < |es| ==> Sendable(es[i])
    ensures Decode([], EncodeAll(es)) == (es, []) && Roomy([], EncodeAll(es))
  {
    hide Encode, Sendable, Feed;
    if es == [] {
    } else {
      DecodeOne(es[0]);
      DecodeInvertsEncode(es[1..]);
      DecodeAppend([], Encode(es[0]), EncodeAll(es[1..]));
      assert [es[0]] + es[1..] == es;
    }
  }

  // ---------- When the buffer overruns ----------

  /** No byte of the sequence completes an event. */
  ghost predicate Stalled(w: seq<Byte>) {
    forall k :: 0 <= k < |w| ==> StallsAt(w, k)
  }

  /** Nothing is pending before byte `i`, the next eight bytes stall, and a ninth follows. */
  ghost predicate OverrunAt(bytes: seq<Byte>, i: nat) {
    i + 8 < |bytes| && Decode([], bytes[..i]).1 == [] && Stalled(bytes[i..i + 8])
  }

  lemma {:induction false} RoomySplit(p: seq<Byte>, a: seq<Byte>, b: seq<Byte>)
    requires Roomy(p, a + b)
    ensures Roomy(Decode(p, a).1, b)
    decreases |a|
  {
    hide Lookup, Incomplete;
    if a == [] {
      assert a + b == b;
    } else {
      assert (a + b)[0] == a[0] && (a + b)[1..] == a[1..] + b;
      RoomySplit(Feed(p, a[0]).0, a[1..], b);
    }
  }

  lemma {:induction false} PendingAfter(p: seq<Byte>, a: seq<Byte>, c: Byte)
    ensures Decode(p, a + [c]).1 == Feed(Decode(p, a).1, c).0
    decreases |a|
  {
    hide Lookup, Incomplete;
    if a == [] {
      assert (a + [c])[1..] == [];
    } else {
      assert (a + [c])[0] == a[0] && (a + [c])[1..] == a[1..] + [c];
      PendingAfter(Feed(p, a[0]).0, a[1..], c);
    }
  }

  /** Eight stalled bytes and one more do not fit. */
  lemma {:induction false} StalledOverruns(w: seq<Byte>, rest: seq<Byte>, k: nat)
    requires |w| == 8 && Stalled(w) && rest != [] && k <= 8
    ensures !Roomy(w[..k], w[k..] + rest)
    decreases 8 - k
  {
    hide Lookup, Incomplete, StallsAt;
    if k == 8 {
    } else {
      var all := w[k..] + rest;
      StallIsIncomplete(w, k);
      assert all[0] == w[k] && all[1..] == w[k + 1..] + rest && w[..k] + [w[k]] == w[..k + 1];
      StalledOverruns(w, rest, k + 1);
    }
  }

  lemma OverrunIsNotRoomy(bytes: seq<Byte>, i: nat)
    requires OverrunAt(bytes, i)
    ensures !Roomy([], bytes)
  {
    var w, rest := bytes[i..i + 8], bytes[i + 8..];
    assert bytes == bytes[..i] + (w + rest) && w[..0] == [] && w[0..] == w;
    hide Decode, Roomy, Stalled;
    if Roomy([], bytes) {
      RoomySplit([], bytes[..i], w + rest);
      StalledOverruns(w, rest, 0);
    }
  }

  /** The decoder stands at byte `i` with the bytes since the last event pending. */
  ghost predicate Standing(bytes: seq<Byte>, i: nat, n: nat) {
    && n <= i <= |bytes| && n <= 8
    && Decode([], bytes[..i - n]).1 == [] && Decode([], bytes[..i]).1 == bytes[i - n..i]
    && Stalled(bytes[i - n..i])
  }

  lemma StalledNext(p: seq<Byte>, c: Byte)
    requires Stalled(p)
    ensures Stalled(p + [c]) <==> Incomplete(p + [c])
  {
    var q := p + [c];
    assert q[..|p| + 1] == q;
    StallIsIncomplete(q, |p|);
    hide Incomplete;
    forall k | 0 <= k < |p|
      ensures StallsAt(q, k)
    {
      assert StallsAt(p, k);
    }
  }

  lemma StandingNext(bytes: seq<Byte>, i: nat, n: nat)
    requires Standing(bytes, i, n) && n < 8 && i < |bytes|
    ensures Feed(bytes[i - n..i], bytes[i]).0 == (if Incomplete(bytes[i - n..i + 1]) then bytes[i - n..i + 1] else [])
    ensures Standing(bytes, i + 1, if Incomplete(bytes[i - n..i + 1]) then n + 1 else 0)
  {
    var p, q := bytes[i - n..i], bytes[i - n..i + 1];
    assert p + [bytes[i]] == q && bytes[..i] + [bytes[i]] == bytes[..i + 1];
    PendingAfter([], bytes[..i], bytes[i]);
    StalledNext(p, bytes[i]);
    assert bytes[i + 1..i + 1] == [];
    assert Stalled([]);
    hide Incomplete, Decode, Lookup, Stalled;
  }

  lemma {:induction false} NotRoomyOverruns(bytes: seq<Byte>, i: nat, n: nat) returns (j: nat)
    requires Standing(bytes, i, n) && !Roomy(bytes[i - n..i], bytes[i..])
    ensures OverrunAt(bytes, j)
    decreases |bytes| - i
  {
    if n == 8 {
      j := i - 8;
    } else {
      assert bytes[i..][0] == bytes[i] && bytes[i..][1..] == bytes[i + 1..];
      StandingNext(bytes, i, n);
      hide Incomplete, Feed, Decode, Standing;
      if Incomplete(bytes[i - n..i + 1]) {
        j := NotRoomyOverruns(bytes, i + 1, n + 1);
      } else {
        assert bytes[i + 1..i + 1] == [];
        j := NotRoomyOverruns(bytes, i + 1, 0);
      }
    }
  }

  /**
    The eight-byte buffer suffices for a stream if and only if nowhere, counting from the end
    of an event, eight bytes stall and a ninth follows.
  */
  lemma RoomyIff(bytes: seq<Byte>)
    ensures Roomy([], bytes) <==> forall i :: !OverrunAt(bytes, i)
  {
    hide Roomy, OverrunAt;
    if !Roomy([], bytes) {
      assert bytes[0..0] == [] && bytes[0..] == bytes && bytes[..0] == [];
      var j := NotRoomyOverruns(bytes, 0, 0);
    }
    forall i: nat | OverrunAt(bytes, i)
      ensures !Roomy([], bytes)
    {
      OverrunIsNotRoomy(bytes, i);
    }
  }

  /** Nine prefix bytes in a row are one byte too many. */
  lemma NinePrefixesOverrun()
    ensures OverrunAt(seq(9, _ => 0xE0), 0) && !Roomy([], seq(9, _ => 0xE0))
  {
    var bytes: seq<Byte> := seq(9, _ => 0xE0);
    assert bytes[..0] == [];
    OverrunIsNotRoomy(bytes, 0);
  }

  // ---------- Modifier flags ----------

  /** kb_flags, and the static `hold` of keyboard_handle_shift. */
  datatype Flags = Flags(shift: bool, ctrl: bool, alt: bool, altgr: bool, gui: bool, hold: bool)

  const CLEAR := Flags(false, false, false, false, false, false)

  /** What keyboard_handle_keycode does to the flags. */
  function Handle(f: Flags, e: Event): Flags {
    if e.key == KEY_LSHIFT || e.key == KEY_RSHIFT then
      if f.hold == e.release then f.(shift := !f.shift, hold := !f.hold) else f
    else if e.key == KEY_CAPSLOCK then
      if e.release then f else f.(shift := !f.shift)
    else if e.key == KEY_LCTRL || e.key == KEY_RCTRL then f.(ctrl := !e.release)
    else if e.key == KEY_LALT then f.(alt := !e.release)
    else if e.key == KEY_RALT then f.(altgr := !e.release)
    else if e.key == KEY_LGUI then f.(gui := !e.release)
    else f
  }

  predicate IsModifier(key: nat) {
    key in {KEY_LSHIFT, KEY_RSHIFT, KEY_CAPSLOCK, KEY_LCTRL, KEY_RCTRL, KEY_LALT, KEY_RALT, KEY_LGUI}
  }

  /** kb_keysym_t: bits 21 to 17 of the code, shifted down, and the key. */
  datatype Keysym = Keysym(flags: nat, key: nat)

  /** What is sent to stdin: other keys when pressed, with the flags as they stand. */
  function Emit(f: Flags, e: Event): Option<Keysym> {
    if IsModifier(e.key) || e.release then None
    else Some(Keysym((if f.shift then 32 else 0) + (if f.ctrl then 16 else 0) + (if f.alt then 8 else 0) +
                     (if f.altgr then 4 else 0) + (if f.gui then 2 else 0), e.key))
  }

  function HandleAll(es: seq<Event>): Flags {
    if es == [] then CLEAR else Handle(HandleAll(es[..|es| - 1]), es[|es| - 1])
  }

  /** How often Caps Lock was pressed. */
  function CapsPresses(es: seq<Event>): nat {
    if es == [] then 0
    else CapsPresses(es[..|es| - 1]) + (if es[|es| - 1] == Event(KEY_CAPSLOCK, false) then 1 else 0)
  }

  /** Whether the last event of one of the keys was a press. */
  function Down(es: seq<Event>, keys: set<nat>): bool {
    if es == [] then false
    else if es[|es| - 1].key in keys then !es[|es| - 1].release
    else Down(es[..|es| - 1], keys)
  }

  /** Whether the last event of a shift key was a press. */
  function ShiftDown(es: seq<Event>): bool {
    Down(es, {KEY_LSHIFT, KEY_RSHIFT})
  }

  /** One event: hold follows the shift keys, and shift XOR hold changes with Caps Lock only. */
  lemma HandleShift(f: Flags, e: Event)
    ensures Handle(f, e).hold == if e.key == KEY_LSHIFT || e.key == KEY_RSHIFT then !e.release else f.hold
    ensures (Handle(f, e).shift != Handle(f, e).hold) == ((f.shift != f.hold) != (e == Event(KEY_CAPSLOCK, false)))
  {
  }

  /** Across every run the shift flag is the held shift XOR the parity of Caps Lock. */
  lemma {:induction false} ShiftIsHoldXorCaps(es: seq<Event>)
    ensures HandleAll(es).hold == ShiftDown(es)
    ensures HandleAll(es).shift == (ShiftDown(es) != (CapsPresses(es) % 2 == 1))
    decreases |es|
  {
    if es == [] {
    } else {
      var init := es[..|es| - 1];
      ShiftIsHoldXorCaps(init);
      HandleShift(HandleAll(init), es[|es| - 1]);
      hide Handle;
    }
  }

  /** Across every run each of the other flags is up while the last event of its keys was a press. */
  lemma {:induction false} FlagsFollowKeys(es: seq<Event>)
    ensures HandleAll(es).ctrl == Down(es, {KEY_LCTRL, KEY_RCTRL})
    ensures HandleAll(es).alt == Down(es, {KEY_LALT}) && HandleAll(es).altgr == Down(es, {KEY_RALT})
    ensures HandleAll(es).gui == Down(es, {KEY_LGUI})
    decreases |es|
  {
    if es == [] {
    } else {
      FlagsFollowKeys(es[..|es| - 1]);
    }
  }

  /** A key is sent on if and only if it is pressed and no modifier, with one bit per flag that is up. */
  lemma EmitIff(f: Flags, e: Event)
    ensures Emit(f, e).Some? <==> !e.release && !IsModifier(e.key)
    ensures Emit(f, e).Some? ==>
              && Emit(f, e).value.key == e.key && Emit(f, e).value.flags < 64
              && (Emit(f, e).value.flags / 32 % 2 == 1 <==> f.shift)
              && (Emit(f, e).value.flags / 16 % 2 == 1 <==> f.ctrl)
              && (Emit(f, e).value.flags / 8 % 2 == 1 <==> f.alt) && (Emit(f, e).value.flags / 4 % 2 == 1 <==> f.altgr)
              && (Emit(f, e).value.flags / 2 % 2 == 1 <==> f.gui) && Emit(f, e).value.flags % 2 == 0
  {
  }

  // ---------- The driver ----------

  class Driver {
    const keycodes: array<Byte>
    var len: nat
    var flags: Flags

    ghost predicate Valid()
      reads this
    {
      keycodes.Length == 8 && len <= 8
    }

    ghost function Pending(): seq<Byte>
      requires Valid()
      reads this, keycodes
    {
      keycodes[..len]
    }

    constructor ()
      ensures Valid() && Pending() == [] && flags == CLEAR && fresh(keycodes)
    {
      keycodes := new Byte[8](_ => 0);
      len, flags := 0, CLEAR;
    }

    /** keyboard_scancode: one byte from the keyboard, while the buffer has room. */
    method Scancode(code: Byte) returns (event: Option<Event>, sym: Option<Keysym>)
      requires Valid() && len < 8
      modifies this`len, this`flags, keycodes
      ensures Valid() && (Pending(), event) == Feed(old(Pending()), code)
      ensures flags == (if event.Some? then Handle(old(flags), event.value) else old(flags))
      ensures sym == (if event.Some? then Emit(old(flags), event.value) else None)
    {
      hide Lookup, PlainKey, ExtendedKey;
      keycodes[len] := code;
      len := len + 1;
      assert keycodes[..len] == old(keycodes[..len]) + [code];
      if code == 0xE0 || code == 0xF0 || code == 0xE1 {
        return None, None;
      }
      if code == 0x14 {
        if len == 2 && keycodes[0] == 0xE1 {
          return None, None;
        } else if len == 6 && keycodes[4] == 0xF0 {
          return None, None;
        }
      }
      if code == 0x77 && len == 3 && keycodes[1] == 0x14 {
        return None, None;
      }
      if code == 0x12 && len == 2 && keycodes[0] == 0xE0 {
        return None, None;
      }
      if code == 0x7C && len == 3 && keycodes[0] == 0xE0 && keycodes[1] == 0xF0 {
        return None, None;
      }
      var e := Lookup(keycodes[..len]);
      len := 0;
      sym := Emit(flags, e);
      flags := Handle(flags, e);
      return Some(e), sym;
    }

    /** Any stream of bytes that does not overrun the buffer: the events come out and drive the flags. */
    method Receive(bytes: seq<Byte>) returns (events: seq<Event>)
      requires Valid() && len == 0 && flags == CLEAR && forall i :: !OverrunAt(bytes, i)
      modifies this`len, this`flags, keycodes
      ensures Valid() && events == Decode([], bytes).0 && Pending() == Decode([], bytes).1 && flags == HandleAll(events)
    {
      hide Feed, Decode, Roomy, OverrunAt, Handle, Emit;
      RoomyIff(bytes);
      events := [];
      var i := 0;
      while i < |bytes|
        invariant i <= |bytes| && Valid() && flags == HandleAll(events)
        invariant Roomy(Pending(), bytes[i..])
        invariant events + Decode(Pending(), bytes[i..]).0 == Decode([], bytes).0
        invariant Decode(Pending(), bytes[i..]).1 == Decode([], bytes).1
      {
        DecodeFirst(Pending(), bytes[i..]);
        assert bytes[i..][1..] == bytes[i + 1..];
        var e, sym := Scancode(bytes[i]);
        if e.Some? {
          HandleOne(events, e.value);
          events := events + [e.value];
        }
        i := i + 1;
      }
      assert bytes[i..] == [];
      DecodeNothing(Pending());
    }

    /** A stream of key events, byte by byte: the events come out again and drive the flags. */
    method Type(ghost es: seq<Event>, bytes: seq<Byte>) returns (events: seq<Event>)
      requires Valid() && len == 0 && flags == CLEAR
      requires (forall i :: 0 <= i < |es| ==> Sendable(es[i])) && bytes == EncodeAll(es)
      modifies this`len, this`flags, keycodes
      ensures Valid() && len == 0 && events == es && flags == HandleAll(es)
    {
      hide Decode, Roomy, OverrunAt, EncodeAll, Sendable;
      DecodeInvertsEncode(es);
      RoomyIff(bytes);
      events := Receive(bytes);
    }
  }

  lemma DecodeFirst(p: seq<Byte>, bytes: seq<Byte>)
    requires bytes != []
    ensures var (q, e) := Feed(p, bytes[0]);
            && Decode(p, bytes).0 == (if e.Some? then [e.value] else []) + Decode(q, bytes[1..]).0
            && Decode(p, bytes).1 == Decode(q, bytes[1..]).1
            && (Roomy(p, bytes) ==> |p| < 8 && Roomy(q, bytes[1..]))
  {
  }

  lemma DecodeNothing(p: seq<Byte>)
    ensures Decode(p, []) == ([], p)
  {
  }

  lemma HandleOne(es: seq<Event>, e: Event)
    ensures HandleAll(es + [e]) == Handle(HandleAll(es), e)
  {
  }
}
