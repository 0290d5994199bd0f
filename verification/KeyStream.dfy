/**
 The synthetic key stream of examples/wps/x11-send-key.c, and the keyboard that it drives: replaying the
 emitted press and release events yields the text that was asked for.
 */
module KeyStream {
  import opened Octets

  type KeyCode = nat
  type KeySym = nat

  const NO_CODE: KeyCode := 0
  const XK_Shift_L: KeySym := 0xFFE1
  const XK_Control_L: KeySym := 0xFFE3

  // The server's keymap: the code of a keysym, and the keysyms of a code without and with Shift.
  datatype Keymap = Keymap(codes: map<KeySym, KeyCode>, levels: map<KeyCode, (KeySym, KeySym)>) {
    /** XKeysymToKeycode */
    function Code(sym: KeySym): KeyCode {
      if sym in codes then codes[sym] else NO_CODE
    }

    function Shift(): KeyCode {
      Code(XK_Shift_L)
    }

    function Control(): KeyCode {
      Code(XK_Control_L)
    }

    /** The requested modifiers have keys, and Shift and Control are different keys. */
    predicate CanHold(m: Modifiers) {
      && (m.shift ==> Shift() != NO_CODE)
      && (m.control ==> Control() != NO_CODE)
      && (m.shift || m.control ==> Shift() != Control())
    }

    /** The keysym's key, if it has one, is no modifier, and the modifiers asked for can be held with it. */
    predicate Ordinary(sym: KeySym, m: Modifiers) {
      Code(sym) != NO_CODE ==>
        Code(sym) != Shift() && Code(sym) != Control() && Code(sym) in levels && CanHold(m)
    }

    /** What an ordinary key types. */
    function Level(sym: KeySym, shifted: bool): KeySym
      requires Code(sym) in levels
    {
      if shifted then levels[Code(sym)].1 else levels[Code(sym)].0
    }

    /** A keysym that has a key sits at the given level of it. */
    predicate Places(sym: KeySym, shifted: bool) {
      Code(sym) != NO_CODE ==> Code(sym) in levels && Level(sym, shifted) == sym
    }
  }

  datatype Modifiers = Modifiers(shift: bool, control: bool)

  datatype Event = Press(code: KeyCode) | Release(code: KeyCode)

  function Tap(code: KeyCode): seq<Event> {
    [Press(code), Release(code)]
  }

  /** What one key combination sends. A keysym without a key sends nothing. */
  function Combo(k: Keymap, sym: KeySym, m: Modifiers): seq<Event> {
    if k.Code(sym) == NO_CODE then [] else
    (if m.control then [Press(k.Control())] else [])
    + (if m.shift then [Press(k.Shift())] else [])
    + Tap(k.Code(sym))
    + (if m.shift then [Release(k.Shift())] else [])
    + (if m.control then [Release(k.Control())] else [])
  }

  datatype Key = Key(sym: KeySym, shifted: bool)

  /** The keysym and the Shift state for a character; Latin-1 keysyms are the character codes. */
  function KeyFor(c: char): Option<Key> {
    if 'a' <= c <= 'z' then Some(Key(c as int, false))
    else if 'A' <= c <= 'Z' then Some(Key(c as int, true))
    else if '0' <= c <= '9' then Some(Key(c as int, false))
    else if c == '_' then Some(Key(0x5F, true))
    else if c == ' ' then Some(Key(0x20, false))
    else if c == '=' then Some(Key(0x3D, false))
    else if c == '+' then Some(Key(0x2B, true))
    else if c == ':' then Some(Key(0x3A, true))
    else if c == '-' then Some(Key(0x2D, false))
    else if c == '.' then Some(Key(0x2E, false))
    else if c == '/' then Some(Key(0x2F, false))
    else if c == '$' then Some(Key(0x24, true))
    else if c == '(' then Some(Key(0x28, true))
    else if c == ')' then Some(Key(0x29, true))
    else None
  }

  const SMALL := "abcdefghijklmnopqrstuvwxyz"
  const CAPITAL := "ABCDEFGHIJKLMNOPQRSTUVWXYZ"

  /** The characters that are typed without and with Shift. */
  function Plain(): string {
    SMALL + "0123456789 =-./"
  }

  function Shifted(): string {
    CAPITAL + "_+:$()"
  }

  /** The supported characters, and for which of them Shift is held. */
  lemma SupportedCharacters(c: char)
    ensures KeyFor(c).Some? <==> c in Plain() || c in Shifted()
    ensures KeyFor(c).Some? ==> KeyFor(c).value.sym == c as int && (KeyFor(c).value.shifted <==> c in Shifted())
  {
    hide KeyFor;
    hide Plain;
    hide Shifted;
    PlainCharacters(c);
    ShiftedCharacters(c);
    if KeyFor(c).Some? {
      KeySymIsChar(c);
    }
  }

  lemma PlainCharacters(c: char)
    ensures c in Plain() <==> KeyFor(c) == Some(Key(c as int, false))
  {
    hide Plain;
    hide KeyFor;
    if c in Plain() {
      var i :| 0 <= i < |Plain()| && Plain()[i] == c;
      PlainAt(i);
    }
    if KeyFor(c) == Some(Key(c as int, false)) {
      var i := PlainIndex(c);
    }
  }

  lemma PlainIndex(c: char) returns (i: nat)
    requires KeyFor(c).Some? && !KeyFor(c).value.shifted
    ensures i < |Plain()| && Plain()[i] == c
  {
    hide Plain;
    i := if 'a' <= c <= 'z' then c as int - 97
         else if '0' <= c <= '9' then c as int - 48 + 26
         else if c == ' ' then 36 else if c == '=' then 37 else if c == '-' then 38 else if c == '.' then 39 else 40;
    PlainLength();
    PlainAt(i);
  }

  lemma PlainLength()
    ensures |Plain()| == 41 && |Shifted()| == 32
  {
  }

  lemma ShiftedCharacters(c: char)
    ensures c in Shifted() <==> KeyFor(c) == Some(Key(c as int, true))
  {
    hide Shifted;
    hide KeyFor;
    if c in Shifted() {
      var i :| 0 <= i < |Shifted()| && Shifted()[i] == c;
      ShiftedAt(i);
    }
    if KeyFor(c) == Some(Key(c as int, true)) {
      var i := ShiftedIndex(c);
    }
  }

  lemma ShiftedIndex(c: char) returns (i: nat)
    requires KeyFor(c).Some? && KeyFor(c).value.shifted
    ensures i < |Shifted()| && Shifted()[i] == c
  {
    hide Shifted;
    i := if 'A' <= c <= 'Z' then c as int - 65
         else if c == '_' then 26 else if c == '+' then 27 else if c == ':' then 28
         else if c == '$' then 29 else if c == '(' then 30 else 31;
    PlainLength();
    ShiftedAt(i);
  }

  lemma SmallAt(i: nat)
    requires i < 26
    ensures SMALL[i] as int == 97 + i && CAPITAL[i] as int == 65 + i
  {
  }

  lemma PlainAt(i: nat)
    requires i < |Plain()|
    ensures var c := Plain()[i];
            && KeyFor(c) == Some(Key(c as int, false))
            && c as int == if i < 26 then 97 + i else if i < 36 then 48 + i - 26 else " =-./"[i - 36] as int
  {
    if i < 26 {
      SmallAt(i);
    } else {
      assert Plain()[i] == "0123456789 =-./"[i - 26];
    }
  }

  lemma ShiftedAt(i: nat)
    requires i < |Shifted()|
    ensures var c := Shifted()[i];
            && KeyFor(c) == Some(Key(c as int, true))
            && c as int == if i < 26 then 65 + i else "_+:$()"[i - 26] as int
  {
    if i < 26 {
      SmallAt(i);
    }
  }

  /** The part of the text before the first unsupported character. */
  function Supported(text: string): (r: string)
    ensures r <= text && forall i :: 0 <= i < |r| ==> KeyFor(r[i]).Some?
    ensures |r| < |text| ==> KeyFor(text[|r|]).None?
  {
    if text == "" || KeyFor(text[0]).None? then "" else [text[0]] + Supported(text[1..])
  }

  /** The result of type_ascii. */
  function Status(text: string): int {
    if Supported(text) == text then 0 else 2
  }

  function TypeEvents(k: Keymap, text: string): seq<Event>
    requires forall i :: 0 <= i < |text| ==> KeyFor(text[i]).Some?
  {
    if text == "" then []
    else
      var last := KeyFor(text[|text| - 1]).value;
      TypeEvents(k, text[..|text| - 1]) + Combo(k, last.sym, Modifiers(last.shifted, false))
  }

  /** The program: each fake event goes to the server at once, so the log only grows. */
  class Injector {
    const k: Keymap
    var events: seq<Event>

    constructor (k: Keymap)
      ensures this.k == k && events == []
    {
      this.k := k;
      events := [];
    }

    method Fake(e: Event)
      modifies this
      ensures events == old(events) + [e]
    {
      events := events + [e];
    }

    method TapKey(code: KeyCode)
      modifies this
      ensures events == old(events) + Tap(code)
    {
      Fake(Press(code));
      Fake(Release(code));
    }

    method SendCombo(sym: KeySym, m: Modifiers)
      modifies this
      ensures events == old(events) + Combo(k, sym, m)
    {
      var code, shift, control := k.Code(sym), k.Shift(), k.Control();
      if code == NO_CODE {
        return;
      }
      if m.control {
        Fake(Press(control));
      }
      if m.shift {
        Fake(Press(shift));
      }
      TapKey(code);
      if m.shift {
        Fake(Release(shift));
      }
      if m.control {
        Fake(Release(control));
      }
    }

    /** type_ascii: 0 when all of the text was sent, 2 at the first unsupported character. */
    method TypeAscii(text: string) returns (status: int)
      modifies this
      ensures events == old(events) + TypeEvents(k, Supported(text))
      ensures status == Status(text)
    {
      hide KeyFor;
      hide Combo;
      for i := 0 to |text|
        invariant forall j :: 0 <= j < i ==> KeyFor(text[j]).Some?
        invariant events == old(events) + TypeEvents(k, text[..i])
      {
        var key := KeyFor(text[i]);
        if key.None? {
          SupportedIs(text, i);
          return 2;
        }
        SendCombo(key.value.sym, Modifiers(key.value.shifted, false));
        assert text[..i + 1][..i] == text[..i];
      }
      SupportedIs(text, |text|);
      assert text[..|text|] == text;
      return 0;
    }
  }

  lemma {:induction false} SupportedIs(text: string, n: nat)
    requires n <= |text| && forall j :: 0 <= j < n ==> KeyFor(text[j]).Some?
    requires n < |text| ==> KeyFor(text[n]).None?
    ensures Supported(text) == text[..n]
  {
    hide KeyFor;
    if n > 0 {
      SupportedIs(text[1..], n - 1);
      assert text[..n] == [text[0]] + text[1..][..n - 1];
    }
  }

  // The keyboard.

  // A keysym that arrives, with the modifiers held at that moment.
  datatype Typed = Typed(sym: KeySym, held: Modifiers)

  datatype Keyboard = Keyboard(down: set<KeyCode>, typed: seq<Typed>)

  function Held(k: Keymap, down: set<KeyCode>): Modifiers {
    Modifiers(k.Shift() in down, k.Control() in down)
  }

  /** There is no key of code 0: such a press is refused. */
  function Feed(k: Keymap, b: Keyboard, e: Event): Keyboard {
    match e
    case Release(c) => b.(down := b.down - {c})
    case Press(c) =>
      if c == NO_CODE then b
      else if c == k.Shift() || c == k.Control() || c !in k.levels then b.(down := b.down + {c})
      else
        var held := Held(k, b.down);
        Keyboard(b.down + {c}, b.typed + [Typed(if held.shift then k.levels[c].1 else k.levels[c].0, held)])
  }

  function Replay(k: Keymap, b: Keyboard, events: seq<Event>): Keyboard
    decreases events
  {
    if events == [] then b else Replay(k, Feed(k, b, events[0]), events[1..])
  }

  lemma {:induction false} ReplayConcat(k: Keymap, b: Keyboard, a: seq<Event>, c: seq<Event>)
    ensures Replay(k, b, a + c) == Replay(k, Replay(k, b, a), c)
    decreases a
  {
    hide Feed;
    if a == [] {
      assert a + c == c;
    } else {
      ReplayConcat(k, Feed(k, b, a[0]), a[1..], c);
      assert (a + c)[0] == a[0] && (a + c)[1..] == a[1..] + c;
    }
  }

  lemma ReplayOne(k: Keymap, b: Keyboard, e: Event)
    ensures Replay(k, b, [e]) == Feed(k, b, e)
  {
    assert [e][1..] == [];
  }

  lemma ReplayNone(k: Keymap, b: Keyboard)
    ensures Replay(k, b, []) == b
  {
  }

  lemma ReplayMaybe(k: Keymap, b: Keyboard, condition: bool, e: Event)
    ensures Replay(k, b, if condition then [e] else []) == if condition then Feed(k, b, e) else b
  {
    if condition {
      ReplayOne(k, b, e);
    }
  }

  /** The modifier keys that a combination holds. */
  function Pressed(k: Keymap, m: Modifiers): set<KeyCode> {
    (if m.control && k.Control() != NO_CODE then {k.Control()} else {})
    + (if m.shift && k.Shift() != NO_CODE then {k.Shift()} else {})
  }

  /** What one combination types on any keymap: nothing, or one keysym. */
  function Arrives(k: Keymap, sym: KeySym, m: Modifiers): seq<Typed> {
    var code, held := k.Code(sym), Held(k, Pressed(k, m));
    if code in {NO_CODE, k.Shift(), k.Control()} || code !in k.levels then []
    else [Typed(k.Level(sym, held.shift), held)]
  }

  /** On any keymap a combination leaves every key up. */
  lemma ComboReplays(k: Keymap, sym: KeySym, m: Modifiers, typed: seq<Typed>)
    ensures Replay(k, Keyboard({}, typed), Combo(k, sym, m)) == Keyboard({}, typed + Arrives(k, sym, m))
  {
    hide Feed;
    hide Pressed;
    hide Arrives;
    var b0, code := Keyboard({}, typed), k.Code(sym);
    if code == NO_CODE {
      ReplayNone(k, b0);
      NothingArrives(k, sym, m);
      assert typed + [] == typed;
    } else {
      var c1 := if m.control then [Press(k.Control())] else [];
      var s1 := if m.shift then [Press(k.Shift())] else [];
      var s2 := if m.shift then [Release(k.Shift())] else [];
      var c2 := if m.control then [Release(k.Control())] else [];
      var b1 := if m.control then Feed(k, b0, Press(k.Control())) else b0;
      var b2 := if m.shift then Feed(k, b1, Press(k.Shift())) else b1;
      var b3 := Feed(k, Feed(k, b2, Press(code)), Release(code));
      var b4 := if m.shift then Feed(k, b3, Release(k.Shift())) else b3;
      var b5 := if m.control then Feed(k, b4, Release(k.Control())) else b4;
      PressModifiers(k, b0, m);
      MainKey(k, b2, sym, m);
      ReleaseModifiers(k, b3, m);
      assert b5 == Keyboard({}, typed + Arrives(k, sym, m));
      ReplayConcat(k, b0, c1 + s1 + Tap(code) + s2, c2);
      ReplayConcat(k, b0, c1 + s1 + Tap(code), s2);
      ReplayConcat(k, b0, c1 + s1, Tap(code));
      ReplayConcat(k, b0, c1, s1);
      ReplayMaybe(k, b0, m.control, Press(k.Control()));
      ReplayMaybe(k, b1, m.shift, Press(k.Shift()));
      ReplayMaybe(k, b3, m.shift, Release(k.Shift()));
      ReplayMaybe(k, b4, m.control, Release(k.Control()));
      assert Tap(code) == [Press(code)] + [Release(code)];
      ReplayConcat(k, b2, [Press(code)], [Release(code)]);
      ReplayOne(k, b2, Press(code));
      ReplayOne(k, Feed(k, b2, Press(code)), Release(code));
    }
  }

  lemma NothingArrives(k: Keymap, sym: KeySym, m: Modifiers)
    requires k.Code(sym) == NO_CODE
    ensures Arrives(k, sym, m) == []
  {
  }

  lemma PressModifiers(k: Keymap, b: Keyboard, m: Modifiers)
    requires b.down == {}
    ensures var b1 := if m.control then Feed(k, b, Press(k.Control())) else b;
            var b2 := if m.shift then Feed(k, b1, Press(k.Shift())) else b1;
            b2 == Keyboard(Pressed(k, m), b.typed)
  {
  }

  lemma MainKey(k: Keymap, b: Keyboard, sym: KeySym, m: Modifiers)
    requires b.down == Pressed(k, m) && k.Code(sym) != NO_CODE
    ensures Feed(k, Feed(k, b, Press(k.Code(sym))), Release(k.Code(sym)))
            == Keyboard(Pressed(k, m) - {k.Code(sym)}, b.typed + Arrives(k, sym, m))
  {
    assert b.down + {k.Code(sym)} - {k.Code(sym)} == b.down - {k.Code(sym)};
    assert b.typed + [] == b.typed;
  }

  lemma ReleaseModifiers(k: Keymap, b: Keyboard, m: Modifiers)
    requires b.down <= Pressed(k, m)
    ensures var b4 := if m.shift then Feed(k, b, Release(k.Shift())) else b;
            var b5 := if m.control then Feed(k, b4, Release(k.Control())) else b4;
            b5 == Keyboard({}, b.typed)
  {
  }

  /**
   With an ordinary key a combination types, once, what the key has at the level that the requested modifiers
   select, with exactly these modifiers held; a keysym without a key types nothing.
   */
  lemma ComboTypes(k: Keymap, sym: KeySym, m: Modifiers, typed: seq<Typed>)
    requires k.Ordinary(sym, m)
    ensures Replay(k, Keyboard({}, typed), Combo(k, sym, m))
            == Keyboard({}, if k.Code(sym) == NO_CODE then typed else typed + [Typed(k.Level(sym, m.shift), m)])
  {
    hide Combo;
    hide Feed;
    hide Replay;
    ComboReplays(k, sym, m, typed);
    assert typed + [] == typed;
  }

  /** Asked for at the level where it sits, a keysym types itself. */
  lemma ComboTypesItself(k: Keymap, sym: KeySym, m: Modifiers, typed: seq<Typed>)
    requires k.Ordinary(sym, m) && k.Places(sym, m.shift)
    ensures Replay(k, Keyboard({}, typed), Combo(k, sym, m))
            == Keyboard({}, if k.Code(sym) == NO_CODE then typed else typed + [Typed(sym, m)])
  {
    ComboTypes(k, sym, m, typed);
  }

  /** The modifiers of X: Shift_L and Control_L. */
  lemma ModifierKeys(k: Keymap)
    ensures k.Shift() == (if 0xFFE1 in k.codes then k.codes[0xFFE1] else 0)
    ensures k.Control() == (if 0xFFE3 in k.codes then k.codes[0xFFE3] else 0)
  {
  }

  const XK_p: KeySym := 0x70
  const XK_P: KeySym := 0x50

  /** Control and Shift with p, on any layout with p below P, types P with both held. */
  lemma CtrlShiftP(k: Keymap, typed: seq<Typed>)
    requires k.Ordinary(XK_p, Modifiers(true, true)) && k.Code(XK_p) != NO_CODE
    requires k.levels[k.Code(XK_p)] == (XK_p, XK_P)
    ensures !k.Places(XK_p, true)
    ensures Replay(k, Keyboard({}, typed), Combo(k, XK_p, Modifiers(true, true)))
            == Keyboard({}, typed + [Typed(XK_P, Modifiers(true, true))])
  {
    ComboTypes(k, XK_p, Modifiers(true, true), typed);
  }

  /** The keysym of a character is its code. */
  lemma KeySymIsChar(c: char)
    requires KeyFor(c).Some?
    ensures KeyFor(c).value.sym == c as int
  {
  }

  function ModifiersFor(c: char): Modifiers
    requires KeyFor(c).Some?
  {
    Modifiers(KeyFor(c).value.shifted, false)
  }

  /** What arrives of a text, on any keymap. */
  function Arrived(k: Keymap, text: string): seq<Typed>
    requires forall i :: 0 <= i < |text| ==> KeyFor(text[i]).Some?
  {
    if text == "" then []
    else
      var last := text[|text| - 1];
      Arrived(k, text[..|text| - 1]) + Arrives(k, last as int, ModifiersFor(last))
  }

  /** Replaying the key stream types what arrives of each character, and all keys are up at the end. */
  lemma {:induction false} TypingTypes(k: Keymap, text: string)
    requires forall i :: 0 <= i < |text| ==> KeyFor(text[i]).Some?
    ensures Replay(k, Keyboard({}, []), TypeEvents(k, text)) == Keyboard({}, Arrived(k, text))
  {
    hide KeyFor;
    hide Combo;
    hide Feed;
    hide Arrives;
    if text == "" {
      ReplayNone(k, Keyboard({}, []));
    } else {
      var n := |text| - 1;
      var before, last := text[..n], text[n];
      assert forall i :: 0 <= i < n ==> before[i] == text[i];
      TypingTypes(k, before);
      KeySymIsChar(last);
      var combo := Combo(k, last as int, ModifiersFor(last));
      ReplayConcat(k, Keyboard({}, []), TypeEvents(k, before), combo);
      ComboReplays(k, last as int, ModifiersFor(last), Arrived(k, before));
    }
  }

  /** The keymap can type this character: an ordinary key, with the character at the level that is asked for. */
  predicate CanType(k: Keymap, c: char)
    requires KeyFor(c).Some?
  {
    k.Code(c as int) != NO_CODE && k.Ordinary(c as int, ModifiersFor(c)) && k.Places(c as int, ModifiersFor(c).shift)
  }

  lemma ArrivesIffCanType(k: Keymap, c: char)
    requires KeyFor(c).Some?
    ensures |Arrives(k, c as int, ModifiersFor(c))| <= 1
    ensures Arrives(k, c as int, ModifiersFor(c)) == [Typed(c as int, ModifiersFor(c))] <==> CanType(k, c)
  {
    hide KeyFor;
  }

  /** The text itself, each character with Shift as its case demands. */
  function AsTyped(text: string): seq<Typed>
    requires forall i :: 0 <= i < |text| ==> KeyFor(text[i]).Some?
  {
    seq(|text|, i requires 0 <= i < |text| => Typed(text[i] as int, ModifiersFor(text[i])))
  }

  /** On any keymap, exactly the text arrives if and only if the keymap can type each of its characters. */
  lemma {:induction false} TypesTheText(k: Keymap, text: string)
    requires forall i :: 0 <= i < |text| ==> KeyFor(text[i]).Some?
    ensures |Arrived(k, text)| <= |text|
    ensures Arrived(k, text) == AsTyped(text) <==> forall i :: 0 <= i < |text| ==> CanType(k, text[i])
  {
    hide KeyFor;
    hide Arrives;
    hide CanType;
    if text != "" {
      var n := |text| - 1;
      var before, last := text[..n], text[n];
      TypesTheText(k, before);
      ArrivesIffCanType(k, last);
      assert AsTyped(text) == AsTyped(before) + [Typed(last as int, ModifiersFor(last))];
      SameParts(Arrived(k, before), Arrives(k, last as int, ModifiersFor(last)), AsTyped(before),
                [Typed(last as int, ModifiersFor(last))]);
      assert forall i :: 0 <= i < n ==> before[i] == text[i];
      assert (forall i :: 0 <= i < |text| ==> CanType(k, text[i]))
        <==> (forall i :: 0 <= i < n ==> CanType(k, before[i])) && CanType(k, last);
    }
  }

  lemma SameParts(a: seq<Typed>, b: seq<Typed>, c: seq<Typed>, d: seq<Typed>)
    requires |a| <= |c| && |b| <= |d|
    ensures a + b == c + d <==> a == c && b == d
  {
    if a + b == c + d {
      assert |a + b| == |a| + |b| && |c + d| == |c| + |d|;
      assert a == (a + b)[..|a|] && c == (c + d)[..|c|];
      assert b == (a + b)[|a|..] && d == (c + d)[|c|..];
    }
  }

  /** The keymap has an ordinary key, at the level that type_ascii expects, for each character that has a key. */
  predicate PlacesAll(k: Keymap, text: string)
    requires forall i :: 0 <= i < |text| ==> KeyFor(text[i]).Some?
  {
    forall i :: 0 <= i < |text| ==>
      k.Ordinary(text[i] as int, ModifiersFor(text[i])) && k.Places(text[i] as int, ModifiersFor(text[i]).shift)
  }

  /** A character without a key makes what arrives shorter, on any keymap. */
  lemma {:induction false} MissingKeyLoses(k: Keymap, text: string, i: nat)
    requires (forall j :: 0 <= j < |text| ==> KeyFor(text[j]).Some?) && i < |text| && k.Code(text[i] as int) == NO_CODE
    ensures |Arrived(k, text)| < |text|
  {
    hide KeyFor;
    hide Arrives;
    var n := |text| - 1;
    TypesTheText(k, text[..n]);
    ArrivesIffCanType(k, text[n]);
    if i < n {
      MissingKeyLoses(k, text[..n], i);
    } else {
      NothingArrives(k, text[n] as int, ModifiersFor(text[n]));
    }
  }

  /** On a keymap that places its keysyms as expected, only missing keys can spoil the text. */
  lemma PlacingKeymapTypes(k: Keymap, text: string)
    requires (forall i :: 0 <= i < |text| ==> KeyFor(text[i]).Some?) && PlacesAll(k, text)
    ensures Arrived(k, text) == AsTyped(text) <==> forall i :: 0 <= i < |text| ==> k.Code(text[i] as int) != NO_CODE
    ensures |Arrived(k, text)| == |text| <==> forall i :: 0 <= i < |text| ==> k.Code(text[i] as int) != NO_CODE
  {
    hide KeyFor;
    hide Arrives;
    TypesTheText(k, text);
    if i :| 0 <= i < |text| && k.Code(text[i] as int) == NO_CODE {
      MissingKeyLoses(k, text, i);
    }
    forall i | 0 <= i < |text| ensures CanType(k, text[i]) <==> k.Code(text[i] as int) != NO_CODE {
    }
  }

  /** Status 0 does not mean that anything was typed: here the one character has no key. */
  lemma SilentLoss()
    ensures var k, text := Keymap(map[XK_Shift_L := 50, XK_Control_L := 37], map[]), "a";
            && Status(text) == 0 && PlacesAll(k, text)
            && TypeEvents(k, text) == [] && AsTyped(text) == [Typed(0x61, Modifiers(false, false))]
  {
    assert Supported("a"[1..]) == "";
    assert TypeEvents(Keymap(map[XK_Shift_L := 50, XK_Control_L := 37], map[]), "a"[..0]) == [];
  }

  /** Nor that the right keysym was: here '/' sits above 7, and 7 is typed instead. */
  lemma WrongLevel()
    ensures var k := Keymap(map[XK_Shift_L := 50, XK_Control_L := 37, 0x2F := 16], map[16 := (0x37, 0x2F)]);
            && Status("/") == 0 && k.Ordinary('/' as int, ModifiersFor('/')) && k.Code('/' as int) != NO_CODE
            && Replay(k, Keyboard({}, []), TypeEvents(k, "/")) == Keyboard({}, [Typed(0x37, Modifiers(false, false))])
            && AsTyped("/") == [Typed(0x2F, Modifiers(false, false))]
  {
    var k := Keymap(map[XK_Shift_L := 50, XK_Control_L := 37, 0x2F := 16], map[16 := (0x37, 0x2F)]);
    assert Supported("/"[1..]) == "";
    TypingTypes(k, "/");
    assert Arrived(k, "/"[..0]) == [];
    assert Arrives(k, '/' as int, ModifiersFor('/')) == [Typed(0x37, Modifiers(false, false))];
  }

  /**
   On any text and any keymap: what arrives of the supported part is typed and all keys are up. Status 0 tells
   that all characters are supported, and then the text has arrived exactly when the keymap can type each of them.
   */
  method TypeAndReplay(k: Keymap, text: string) returns (keyboard: Keyboard, status: int)
    ensures keyboard == Keyboard({}, Arrived(k, Supported(text)))
    ensures status in {0, 2}
    ensures status == 0 <==> forall i :: 0 <= i < |text| ==> KeyFor(text[i]).Some?
    ensures status == 0 ==> (keyboard.typed == AsTyped(text) <==> forall i :: 0 <= i < |text| ==> CanType(k, text[i]))
  {
    hide KeyFor;
    hide CanType;
    hide Arrives;
    var injector := new Injector(k);
    status := injector.TypeAscii(text);
    TypingTypes(k, Supported(text));
    assert injector.events == [] + TypeEvents(k, Supported(text)) == TypeEvents(k, Supported(text));
    keyboard := Replay(k, Keyboard({}, []), injector.events);
    SupportedIsAll(text);
    TypesTheText(k, Supported(text));
  }

  lemma {:induction false} SupportedIsAll(text: string)
    ensures Supported(text) == text <==> forall i :: 0 <= i < |text| ==> KeyFor(text[i]).Some?
  {
    hide KeyFor;
    if text != "" && KeyFor(text[0]).Some? {
      SupportedIsAll(text[1..]);
      assert text == [text[0]] + text[1..];
      assert (forall i :: 0 <= i < |text| ==> KeyFor(text[i]).Some?)
        <==> forall i :: 0 <= i < |text[1..]| ==> KeyFor(text[1..][i]).Some? by {
        if forall i :: 0 <= i < |text[1..]| ==> KeyFor(text[1..][i]).Some? {
          forall i | 0 <= i < |text| ensures KeyFor(text[i]).Some? {
            if i > 0 {
              assert text[1..][i - 1] == text[i];
            }
          }
        }
      }
    }
  }
}
