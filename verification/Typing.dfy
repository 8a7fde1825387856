/** A text as key events, and the proof that the reference desktop reads the events back as the text. */
module Typing {
  import opened Wrappers
  import opened Keyboard
  import opened Reports

  // ----- What the host emits -----

  /** Press and release, under Shift if need be. */
  function TapEvents(key: Key, shift: bool): seq<Event>
  {
    (if shift then [KeyEv(LEFTSHIFT, true)] else []) + [KeyEv(key, true)] + [Syn] + [KeyEv(key, false)]
    + (if shift then [KeyEv(LEFTSHIFT, false)] else []) + [Syn]
  }

  function HexDigit(d: nat): char
    requires d < 16
  {
    if d < 10 then ('0' as int + d) as char else ('a' as int + d - 10) as char
  }

  /** `n` in lower-case hexadecimal. */
  function Hex(n: nat): string
  {
    if n < 16 then [HexDigit(n)] else Hex(n / 16) + [HexDigit(n % 16)]
  }

  function TapAll(s: string): seq<Event>
  {
    if s == [] then []
    else
      var c := s[|s| - 1];
      TapAll(s[..|s| - 1]) + (if AsciiKey(c).Some? then TapEvents(AsciiKey(c).value.key, false) else [])
  }

  const COMPOSE_ON: seq<Event> := [KeyEv(LEFTCTRL, true), KeyEv(LEFTSHIFT, true), Syn]
  const COMPOSE_OFF: seq<Event> := [KeyEv(LEFTCTRL, false), KeyEv(LEFTSHIFT, false), Syn]

  /** Ctrl+Shift+U, the code point in hexadecimal, and Enter. */
  function ComposeEvents(ch: char): seq<Event>
  {
    COMPOSE_ON + TapEvents(U, false) + COMPOSE_OFF + TapAll(Hex(ch as int)) + TapEvents(ENTER, false)
  }

  function CharEvents(ch: char): seq<Event>
  {
    if ch == '\n' || ch == '\r' then TapEvents(ENTER, false)
    else if ch == '\t' then TapEvents(TAB, false)
    else if ch == '\U{8}' || ch == '\U{7F}' then TapEvents(BACKSPACE, false)
    else if AsciiKey(ch).Some? then TapEvents(AsciiKey(ch).value.key, AsciiKey(ch).value.shift)
    else ComposeEvents(ch)
  }

  function TextEvents(s: string): seq<Event>
  {
    if s == [] then [] else TextEvents(s[..|s| - 1]) + CharEvents(s[|s| - 1])
  }

  // ----- The reference desktop -----

  /** The keys that are down, the code point being composed if any, and the text so far. */
  datatype Desk = Desk(held: set<Key>, compose: Option<nat>, text: string)

  predicate IsModifier(k: Key)
  {
    match k
    case LEFTCTRL | RIGHTCTRL | LEFTSHIFT | RIGHTSHIFT | LEFTALT | RIGHTALT | LEFTMETA | RIGHTMETA => true
    case _ => false
  }

  predicate ShiftHeld(held: set<Key>)
  {
    LEFTSHIFT in held || RIGHTSHIFT in held
  }

  /** A held modifier that turns keys into commands. */
  predicate CommandHeld(held: set<Key>)
  {
    || LEFTCTRL in held || RIGHTCTRL in held || LEFTALT in held || RIGHTALT in held
    || LEFTMETA in held || RIGHTMETA in held
  }

  predicate IsScalar(n: nat)
  {
    n < 0xD800 || 0xE000 <= n < 0x11_0000
  }

  function HexOn(k: Key): Option<nat>
  {
    match k
    case D0 => Some(0) case D1 => Some(1) case D2 => Some(2) case D3 => Some(3) case D4 => Some(4)
    case D5 => Some(5) case D6 => Some(6) case D7 => Some(7) case D8 => Some(8) case D9 => Some(9)
    case A => Some(10) case B => Some(11) case C => Some(12) case D => Some(13) case E => Some(14) case F => Some(15)
    case _ => None
  }

  /** A key goes down that was up and is no modifier. */
  function Strike(d: Desk, k: Key): Desk
  {
    if d.compose.Some? then
      if k == ENTER then
        Desk(d.held, None, if IsScalar(d.compose.value) then d.text + [d.compose.value as char] else d.text)
      else if HexOn(k).Some? then d.(compose := Some(d.compose.value * 16 + HexOn(k).value))
      else d.(compose := None)
    else if k == U && LEFTCTRL in d.held && LEFTSHIFT in d.held then d.(compose := Some(0))
    else if CommandHeld(d.held) then d
    else
      match Types(k, ShiftHeld(d.held))
      case Some(c) => d.(text := d.text + [c])
      case None => d
  }

  function React(d: Desk, e: Event): Desk
  {
    match e
    case Syn => d
    case KeyEv(k, false) => d.(held := d.held - {k})
    case KeyEv(k, true) =>
      if k in d.held then d
      else
        var struck := if IsModifier(k) then d else Strike(d, k);
        struck.(held := d.held + {k})
  }

  function Play(d: Desk, evs: seq<Event>): Desk
  {
    if evs == [] then d else React(Play(d, evs[..|evs| - 1]), evs[|evs| - 1])
  }

  /** What becomes of the desktop: it reacts to what is delivered to it. */
  function Show(d: Desk, evs: seq<Event>): Desk
  {
    Play(d, Delivered(evs))
  }

  lemma ShowIsPlay(d: Desk, evs: seq<Event>)
    requires Neat(evs)
    ensures Show(d, evs) == Play(d, evs)
  {
    NeatDelivered(evs);
  }

  /** Behind closed reports the desktop goes on from where it was. */
  lemma ShowConcat(d: Desk, a: seq<Event>, b: seq<Event>)
    requires Unclosed(a) == []
    ensures Show(d, a + b) == Show(Show(d, a), b)
  {
    DeliveredConcat(a, b);
    PlayConcat(d, Delivered(a), Delivered(b));
  }

  lemma {:induction false} PlayConcat(d: Desk, a: seq<Event>, b: seq<Event>)
    ensures Play(d, a + b) == Play(Play(d, a), b)
  {
    if b == [] {
      assert a + b == a;
    } else {
      var n := |b| - 1;
      PlayConcat(d, a, b[..n]);
      assert a + b == (a + b[..n]) + [b[n]];
      PlayThen(d, a + b[..n], b[n]);
    }
  }

  lemma PlayOne(d: Desk, e: Event)
    ensures Play(d, [e]) == React(d, e)
  {
    assert [e][..0] == [];
    assert Play(d, []) == d;
  }

  lemma PlayThen(d: Desk, a: seq<Event>, e: Event)
    ensures Play(d, a + [e]) == React(Play(d, a), e)
  {
    assert (a + [e])[..|a|] == a;
  }

  lemma PlayMaybe(d: Desk, a: seq<Event>, e: Event, c: bool)
    ensures Play(d, a + if c then [e] else []) == if c then React(Play(d, a), e) else Play(d, a)
  {
    PlayThen(d, a, e);
    assert a + [] == a;
  }

  /** A tap plays as its events in turn. */
  lemma TapPlays(d: Desk, key: Key, shift: bool)
    ensures var d1 := if shift then React(d, KeyEv(LEFTSHIFT, true)) else d;
            var d2 := React(React(d1, KeyEv(key, true)), KeyEv(key, false));
            Play(d, TapEvents(key, shift)) == if shift then React(d2, KeyEv(LEFTSHIFT, false)) else d2
  {
    var e0: seq<Event> := if shift then [KeyEv(LEFTSHIFT, true)] else [];
    PlayOne(d, KeyEv(LEFTSHIFT, true));
    assert Play(d, []) == d;
    PlayThen(d, e0, KeyEv(key, true));
    var e1 := e0 + [KeyEv(key, true)];
    PlayThen(d, e1, Syn);
    var e2 := e1 + [Syn];
    PlayThen(d, e2, KeyEv(key, false));
    var e3 := e2 + [KeyEv(key, false)];
    PlayMaybe(d, e3, KeyEv(LEFTSHIFT, false), shift);
    var e4 := e3 + if shift then [KeyEv(LEFTSHIFT, false)] else [];
    PlayThen(d, e4, Syn);
  }

  /** Nothing is held and nothing is being composed. */
  function Quiet(text: string): Desk
  {
    Desk({}, None, text)
  }

  lemma ModifierDown(d: Desk, k: Key)
    requires IsModifier(k)
    ensures React(d, KeyEv(k, true)) == d.(held := d.held + {k})
  {
    assert k in d.held ==> d.held + {k} == d.held;
  }

  lemma KeyDown(d: Desk, k: Key)
    requires !IsModifier(k)
    ensures React(d, KeyEv(k, true)) == if k in d.held then d else Strike(d, k).(held := d.held + {k})
  {
  }

  /** The keys held while a tap strikes. */
  function TapHeld(held: set<Key>, shift: bool): set<Key>
  {
    if shift then held + {LEFTSHIFT} else held
  }

  /** What a tap comes to: at most one strike, and its keys are up. */
  lemma TapOutcome(d: Desk, key: Key, shift: bool)
    requires !IsModifier(key)
    ensures var d1 := d.(held := TapHeld(d.held, shift));
            var d2 := if key in d.held then d1 else Strike(d1, key);
            Play(d, TapEvents(key, shift)) == d2.(held := d.held - {key} - if shift then {LEFTSHIFT} else {})
  {
    var d1 := d.(held := TapHeld(d.held, shift));
    TapPlays(d, key, shift);
    ModifierDown(d, LEFTSHIFT);
    KeyDown(d1, key);
    assert d1.held + {key} - {key} == d1.held - {key};
    assert d.held + {LEFTSHIFT} - {key} - {LEFTSHIFT} == d.held - {key} - {LEFTSHIFT};
    assert d.held - {key} - {} == d.held - {key};
  }

  lemma TapTypes(text: string, key: Key, shift: bool)
    requires !IsModifier(key)
    ensures Play(Quiet(text), TapEvents(key, shift)) ==
            Quiet(text + match Types(key, shift) case Some(c) => [c] case None => [])
  {
    TapOutcome(Quiet(text), key, shift);
    assert text + [] == text;
    assert ShiftHeld(TapHeld({}, shift)) == shift;
  }

  // ----- Composing -----

  function HexValue(v: nat, s: string): nat
  {
    if s == [] then v
    else
      var c := s[|s| - 1];
      HexValue(v, s[..|s| - 1]) * 16 +
      (if '0' <= c <= '9' || 'a' <= c <= 'f' then HexOf(c) else 0)
  }

  predicate IsHex(s: string)
  {
    forall i :: 0 <= i < |s| ==> '0' <= s[i] <= '9' || 'a' <= s[i] <= 'f'
  }

  /** Hexadecimal digits read back give the number. */
  lemma {:induction false} HexReadBack(n: nat)
    ensures IsHex(Hex(n)) && HexValue(0, Hex(n)) == n
    decreases n
  {
    if n < 16 {
      assert Hex(n)[..0] == [];
      assert HexValue(0, []) == 0;
    } else {
      HexReadBack(n / 16);
      assert Hex(n)[..|Hex(n)| - 1] == Hex(n / 16);
    }
  }

  function HexOf(c: char): nat
    requires '0' <= c <= '9' || 'a' <= c <= 'f'
  {
    if '0' <= c <= '9' then c as int - '0' as int else c as int - 'a' as int + 10
  }

  lemma HexNumberKeys(c: char)
    requires '0' <= c <= '9'
    ensures DigitKey(c).Some? && HexOn(DigitKey(c).value) == Some(HexOf(c))
  {
  }

  lemma HexLetterKeys(c: char)
    requires 'a' <= c <= 'f'
    ensures HexOn(Letter(c)) == Some(HexOf(c))
  {
  }

  lemma HexKeys(c: char)
    requires '0' <= c <= '9' || 'a' <= c <= 'f'
    ensures AsciiKey(c).Some?
    ensures HexOn(AsciiKey(c).value.key) == Some(HexOf(c)) && !IsModifier(AsciiKey(c).value.key)
  {
    if '0' <= c <= '9' {
      HexNumberKeys(c);
    } else {
      HexLetterKeys(c);
    }
  }

  lemma TapHexKey(v: nat, text: string, k: Key)
    requires HexOn(k).Some? && !IsModifier(k)
    ensures Play(Desk({}, Some(v), text), TapEvents(k, false)) == Desk({}, Some(v * 16 + HexOn(k).value), text)
  {
    TapOutcome(Desk({}, Some(v), text), k, false);
  }

  /** While a code point is composed, a hexadecimal digit adds itself to it. */
  lemma TapComposes(v: nat, text: string, c: char)
    requires '0' <= c <= '9' || 'a' <= c <= 'f'
    ensures AsciiKey(c).Some?
    ensures Play(Desk({}, Some(v), text), TapEvents(AsciiKey(c).value.key, false)) ==
            Desk({}, Some(HexValue(v, [c])), text)
  {
    HexKeys(c);
    TapHexKey(v, text, AsciiKey(c).value.key);
    assert [c][..0] == [] && HexValue(v, []) == v;
  }

  lemma {:induction false} TapAllComposes(v: nat, text: string, s: string)
    requires IsHex(s)
    ensures Play(Desk({}, Some(v), text), TapAll(s)) == Desk({}, Some(HexValue(v, s)), text)
  {
    if s != [] {
      var n := |s| - 1;
      TapAllComposes(v, text, s[..n]);
      TapComposes(HexValue(v, s[..n]), text, s[n]);
      HexValueStep(v, s[..n], s[n]);
      assert s[..n] + [s[n]] == s;
      PlayConcat(Desk({}, Some(v), text), TapAll(s[..n]), TapEvents(AsciiKey(s[n]).value.key, false));
    }
  }

  lemma HexValueStep(v: nat, s: string, c: char)
    ensures HexValue(v, s + [c]) == HexValue(HexValue(v, s), [c])
  {
    assert (s + [c])[..|s|] == s;
    assert [c][..0] == [];
  }

  lemma ModifiersDown(d: Desk)
    ensures Play(d, COMPOSE_ON) == d.(held := d.held + {LEFTCTRL, LEFTSHIFT})
  {
    var c, s := KeyEv(LEFTCTRL, true), KeyEv(LEFTSHIFT, true);
    PlayOne(d, c);
    PlayThen(d, [c], s);
    PlayThen(d, [c, s], Syn);
    assert COMPOSE_ON == [c, s] + [Syn] && [c, s] == [c] + [s];
    ModifierDown(d, LEFTCTRL);
    ModifierDown(d.(held := d.held + {LEFTCTRL}), LEFTSHIFT);
    assert d.held + {LEFTCTRL} + {LEFTSHIFT} == d.held + {LEFTCTRL, LEFTSHIFT};
  }

  lemma ModifiersUp(d: Desk)
    ensures Play(d, COMPOSE_OFF) == d.(held := d.held - {LEFTCTRL, LEFTSHIFT})
  {
    var c, s := KeyEv(LEFTCTRL, false), KeyEv(LEFTSHIFT, false);
    PlayOne(d, c);
    PlayThen(d, [c], s);
    PlayThen(d, [c, s], Syn);
    assert COMPOSE_OFF == [c, s] + [Syn] && [c, s] == [c] + [s];
    assert d.held - {LEFTCTRL} - {LEFTSHIFT} == d.held - {LEFTCTRL, LEFTSHIFT};
  }

  /** The start of a composition: its modifiers go down, U is tapped, and they go up again. */
  lemma ComposeOpens(d: Desk)
    ensures var d1 := d.(held := d.held + {LEFTCTRL, LEFTSHIFT});
            var d2 := if U in d.held then d1 else Strike(d1, U);
            Play(d, COMPOSE_ON + TapEvents(U, false) + COMPOSE_OFF) == d2.(held := d.held - {LEFTCTRL, LEFTSHIFT, U})
  {
    var d1 := d.(held := d.held + {LEFTCTRL, LEFTSHIFT});
    ModifiersDown(d);
    PlayConcat(d, COMPOSE_ON, TapEvents(U, false));
    TapOutcome(d1, U, false);
    PlayConcat(d, COMPOSE_ON + TapEvents(U, false), COMPOSE_OFF);
    ModifiersUp(Play(d1, TapEvents(U, false)));
    assert d1.held - {U} - {} - {LEFTCTRL, LEFTSHIFT} == d.held - {LEFTCTRL, LEFTSHIFT, U};
  }

  lemma ComposeStarts(text: string)
    ensures Play(Quiet(text), COMPOSE_ON + TapEvents(U, false) + COMPOSE_OFF) == Desk({}, Some(0), text)
  {
    ComposeOpens(Quiet(text));
  }

  lemma ComposePlays(text: string, ch: char)
    ensures Play(Quiet(text), ComposeEvents(ch)) == Quiet(text + [ch])
  {
    var start := COMPOSE_ON + TapEvents(U, false) + COMPOSE_OFF;
    var digits := Hex(ch as int);
    ComposeStarts(text);
    HexReadBack(ch as int);
    PlayConcat(Quiet(text), start, TapAll(digits));
    TapAllComposes(0, text, digits);
    PlayConcat(Quiet(text), start + TapAll(digits), TapEvents(ENTER, false));
    TapOutcome(Desk({}, Some(ch as int), text), ENTER, false);
  }

  /** A code point composed from its hexadecimal digits comes out as itself. */
  lemma ComposeTypes(text: string, ch: char)
    ensures Show(Quiet(text), ComposeEvents(ch)) == Quiet(text + [ch])
  {
    ComposeNeat(ch);
    ShowIsPlay(Quiet(text), ComposeEvents(ch));
    ComposePlays(text, ch);
  }

  // ----- The round trip -----

  /** The characters that are typed with a key of their own name. */
  predicate IsControl(ch: char)
  {
    ch == '\n' || ch == '\r' || ch == '\t' || ch == '\U{8}' || ch == '\U{7F}'
  }

  /** Carriage return comes out as a line feed, and DEL as a backspace; everything else as itself. */
  function Normal(ch: char): char
  {
    if ch == '\r' then '\n' else if ch == '\U{7F}' then '\U{8}' else ch
  }

  function NormalText(s: string): (t: string)
    ensures |t| == |s|
  {
    if s == [] then [] else NormalText(s[..|s| - 1]) + [Normal(s[|s| - 1])]
  }

  lemma ControlKeys()
    ensures Types(ENTER, false) == Some('\n') && Types(TAB, false) == Some('\t')
    ensures Types(BACKSPACE, false) == Some('\U{8}')
  {
  }

  lemma ControlTypes(text: string, ch: char)
    requires IsControl(ch)
    ensures Play(Quiet(text), CharEvents(ch)) == Quiet(text + [Normal(ch)])
  {
    ControlKeys();
    TapTypes(text, ENTER, false);
    TapTypes(text, TAB, false);
    TapTypes(text, BACKSPACE, false);
  }

  lemma CharTypes(text: string, ch: char)
    ensures Play(Quiet(text), CharEvents(ch)) == Quiet(text + [Normal(ch)])
  {
    if IsControl(ch) {
      ControlTypes(text, ch);
    } else if AsciiKey(ch).Some? {
      StrokeRoundTrip(ch);
      var Stroke(key, shift) := AsciiKey(ch).value;
      TypingKeyIsNoModifier(key, shift);
      TapTypes(text, key, shift);
    } else {
      ComposePlays(text, ch);
    }
  }

  lemma TypingKeyIsNoModifier(k: Key, shift: bool)
    requires Types(k, shift).Some?
    ensures !IsModifier(k)
  {
  }

  lemma {:induction false} TextPlays(s: string, text: string)
    ensures Play(Quiet(text), TextEvents(s)) == Quiet(text + NormalText(s))
  {
    if s == [] {
      assert text + NormalText(s) == text;
    } else {
      var n := |s| - 1;
      TextPlays(s[..n], text);
      PlayConcat(Quiet(text), TextEvents(s[..n]), CharEvents(s[n]));
      CharTypes(text + NormalText(s[..n]), s[n]);
      assert text + NormalText(s[..n]) + [Normal(s[n])] == text + NormalText(s);
    }
  }

  /** With no key held, any Unicode text comes out as it was sent, and no key stays held. */
  lemma TextRoundTrip(s: string, text: string)
    ensures Show(Quiet(text), TextEvents(s)) == Quiet(text + NormalText(s))
  {
    TextNeat(s);
    ShowIsPlay(Quiet(text), TextEvents(s));
    TextPlays(s, text);
  }

  // ----- Reports -----

  /** A tap is two reports: the key goes down in one and up in the next. */
  lemma TapNeat(key: Key, shift: bool)
    requires key != LEFTSHIFT
    ensures Neat(TapEvents(key, shift))
  {
    var s0, s1, k0, k1 := KeyEv(LEFTSHIFT, false), KeyEv(LEFTSHIFT, true), KeyEv(key, false), KeyEv(key, true);
    if shift {
      TwoMoves(s1, k1);
      TwoMoves(k0, s0);
      NeatConcat([s1, k1, Syn], [k0, s0, Syn]);
      assert TapEvents(key, shift) == [s1, k1, Syn] + [k0, s0, Syn];
    } else {
      OneMove(k1);
      OneMove(k0);
      NeatConcat([k1, Syn], [k0, Syn]);
      assert TapEvents(key, shift) == [k1, Syn] + [k0, Syn];
    }
  }

  lemma StrokeNeat(ch: char, shift: bool)
    requires AsciiKey(ch).Some?
    ensures Neat(TapEvents(AsciiKey(ch).value.key, shift))
  {
    StrokeRoundTrip(ch);
    TypingKeyIsNoModifier(AsciiKey(ch).value.key, AsciiKey(ch).value.shift);
    TapNeat(AsciiKey(ch).value.key, shift);
  }

  lemma {:induction false} TapAllNeat(s: string)
    ensures Neat(TapAll(s))
  {
    if s != [] {
      var n := |s| - 1;
      TapAllNeat(s[..n]);
      if AsciiKey(s[n]).Some? {
        StrokeNeat(s[n], false);
        NeatConcat(TapAll(s[..n]), TapEvents(AsciiKey(s[n]).value.key, false));
      } else {
        assert TapAll(s) == TapAll(s[..n]);
      }
    }
  }

  lemma ComposeNeat(ch: char)
    ensures Neat(ComposeEvents(ch))
  {
    TwoMoves(KeyEv(LEFTCTRL, true), KeyEv(LEFTSHIFT, true));
    TwoMoves(KeyEv(LEFTCTRL, false), KeyEv(LEFTSHIFT, false));
    TapNeat(U, false);
    TapNeat(ENTER, false);
    TapAllNeat(Hex(ch as int));
    var e1 := COMPOSE_ON + TapEvents(U, false);
    var e2 := e1 + COMPOSE_OFF;
    NeatConcat(COMPOSE_ON, TapEvents(U, false));
    NeatConcat(e1, COMPOSE_OFF);
    NeatConcat(e2, TapAll(Hex(ch as int)));
    NeatConcat(e2 + TapAll(Hex(ch as int)), TapEvents(ENTER, false));
  }

  lemma CharNeat(ch: char)
    ensures Neat(CharEvents(ch))
  {
    if IsControl(ch) {
      TapNeat(ENTER, false);
      TapNeat(TAB, false);
      TapNeat(BACKSPACE, false);
    } else if AsciiKey(ch).Some? {
      StrokeNeat(ch, AsciiKey(ch).value.shift);
    } else {
      ComposeNeat(ch);
    }
  }

  /** A text is emitted in closed reports, and no key moves twice in one, so all of it is seen. */
  lemma {:induction false} TextNeat(s: string)
    ensures Neat(TextEvents(s))
  {
    if s != [] {
      TextNeat(s[..|s| - 1]);
      CharNeat(s[|s| - 1]);
      NeatConcat(TextEvents(s[..|s| - 1]), CharEvents(s[|s| - 1]));
    }
  }

  // ----- Keys held before -----

  lemma TapKeys(key: Key, shift: bool)
    ensures KeysIn(TapEvents(key, shift)) == {key} + if shift then {LEFTSHIFT} else {}
  {
    var evs := TapEvents(key, shift);
    var n := if shift then 1 else 0;
    assert evs[n] == KeyEv(key, true);
    assert shift ==> evs[0] == KeyEv(LEFTSHIFT, true);
  }

  lemma TapReleases(d: Desk, key: Key, shift: bool)
    requires !IsModifier(key)
    ensures Play(d, TapEvents(key, shift)).held == d.held - KeysIn(TapEvents(key, shift))
  {
    TapOutcome(d, key, shift);
    TapKeys(key, shift);
  }

  lemma {:induction false} TapAllReleases(d: Desk, s: string)
    ensures Play(d, TapAll(s)).held == d.held - KeysIn(TapAll(s))
  {
    if s != [] {
      var n := |s| - 1;
      TapAllReleases(d, s[..n]);
      if AsciiKey(s[n]).Some? {
        StrokeRoundTrip(s[n]);
        TypingKeyIsNoModifier(AsciiKey(s[n]).value.key, AsciiKey(s[n]).value.shift);
        var tap := TapEvents(AsciiKey(s[n]).value.key, false);
        TapReleases(Play(d, TapAll(s[..n])), AsciiKey(s[n]).value.key, false);
        PlayConcat(d, TapAll(s[..n]), tap);
        KeysInConcat(TapAll(s[..n]), tap);
      } else {
        assert TapAll(s) == TapAll(s[..n]);
      }
    }
  }

  lemma ModifierKeys()
    ensures KeysIn(COMPOSE_ON) == KeysIn(COMPOSE_OFF) == {LEFTCTRL, LEFTSHIFT}
  {
    assert COMPOSE_ON[0] == KeyEv(LEFTCTRL, true) && COMPOSE_ON[1] == KeyEv(LEFTSHIFT, true);
    assert COMPOSE_OFF[0] == KeyEv(LEFTCTRL, false) && COMPOSE_OFF[1] == KeyEv(LEFTSHIFT, false);
  }

  lemma ComposeKeys(ch: char)
    ensures KeysIn(ComposeEvents(ch)) == {LEFTCTRL, LEFTSHIFT} + {U} + {ENTER} + KeysIn(TapAll(Hex(ch as int)))
  {
    var e1 := COMPOSE_ON + TapEvents(U, false);
    var e2 := e1 + COMPOSE_OFF;
    var e3 := e2 + TapAll(Hex(ch as int));
    ModifierKeys();
    TapKeys(U, false);
    TapKeys(ENTER, false);
    KeysInConcat(COMPOSE_ON, TapEvents(U, false));
    KeysInConcat(e1, COMPOSE_OFF);
    KeysInConcat(e2, TapAll(Hex(ch as int)));
    KeysInConcat(e3, TapEvents(ENTER, false));
  }

  lemma ComposeReleases(d: Desk, ch: char)
    ensures Play(d, ComposeEvents(ch)).held == d.held - KeysIn(ComposeEvents(ch))
  {
    var start := COMPOSE_ON + TapEvents(U, false) + COMPOSE_OFF;
    var digits := TapAll(Hex(ch as int));
    ComposeOpens(d);
    PlayConcat(d, start, digits);
    TapAllReleases(Play(d, start), Hex(ch as int));
    PlayConcat(d, start + digits, TapEvents(ENTER, false));
    TapReleases(Play(d, start + digits), ENTER, false);
    TapKeys(ENTER, false);
    ComposeKeys(ch);
  }

  lemma CharReleases(d: Desk, ch: char)
    ensures Play(d, CharEvents(ch)).held == d.held - KeysIn(CharEvents(ch))
  {
    if IsControl(ch) {
      TapReleases(d, ENTER, false);
      TapReleases(d, TAB, false);
      TapReleases(d, BACKSPACE, false);
    } else if AsciiKey(ch).Some? {
      StrokeRoundTrip(ch);
      TypingKeyIsNoModifier(AsciiKey(ch).value.key, AsciiKey(ch).value.shift);
      TapReleases(d, AsciiKey(ch).value.key, AsciiKey(ch).value.shift);
    } else {
      ComposeReleases(d, ch);
    }
  }

  lemma {:induction false} TextPlayReleases(d: Desk, s: string)
    ensures Play(d, TextEvents(s)).held == d.held - KeysIn(TextEvents(s))
  {
    if s != [] {
      var n := |s| - 1;
      TextPlayReleases(d, s[..n]);
      CharReleases(Play(d, TextEvents(s[..n])), s[n]);
      PlayConcat(d, TextEvents(s[..n]), CharEvents(s[n]));
      KeysInConcat(TextEvents(s[..n]), CharEvents(s[n]));
    }
  }

  /** Typing a text releases every key it touches and leaves all others as they were, whatever was held before. */
  lemma TextReleases(d: Desk, s: string)
    ensures Show(d, TextEvents(s)).held == d.held - KeysIn(TextEvents(s))
  {
    TextNeat(s);
    ShowIsPlay(d, TextEvents(s));
    TextPlayReleases(d, s);
  }

  // ----- Announced keys -----

  predicate AllAnnounced(keys: set<Key>)
  {
    forall k :: k in keys ==> Announced(k)
  }

  lemma StrokeAnnounced(ch: char)
    requires AsciiKey(ch).Some?
    ensures Announced(AsciiKey(ch).value.key)
  {
    StrokeRoundTrip(ch);
    TypingKeysAreAnnounced(AsciiKey(ch).value.key, AsciiKey(ch).value.shift);
  }

  lemma {:induction false} TapAllAnnounced(s: string)
    ensures AllAnnounced(KeysIn(TapAll(s)))
  {
    if s != [] {
      var n := |s| - 1;
      TapAllAnnounced(s[..n]);
      if AsciiKey(s[n]).Some? {
        StrokeAnnounced(s[n]);
        TapKeys(AsciiKey(s[n]).value.key, false);
        KeysInConcat(TapAll(s[..n]), TapEvents(AsciiKey(s[n]).value.key, false));
      } else {
        assert TapAll(s) == TapAll(s[..n]);
      }
    }
  }

  lemma TapAnnounced(key: Key, shift: bool)
    requires Announced(key)
    ensures AllAnnounced(KeysIn(TapEvents(key, shift)))
  {
    TapKeys(key, shift);
  }

  lemma ComposeAnnounced(ch: char)
    ensures AllAnnounced(KeysIn(ComposeEvents(ch)))
  {
    ComposeKeys(ch);
    TapAllAnnounced(Hex(ch as int));
  }

  lemma CharAnnounced(ch: char)
    ensures AllAnnounced(KeysIn(CharEvents(ch)))
  {
    if IsControl(ch) {
      TapAnnounced(ENTER, false);
      TapAnnounced(TAB, false);
      TapAnnounced(BACKSPACE, false);
    } else if AsciiKey(ch).Some? {
      StrokeAnnounced(ch);
      TapAnnounced(AsciiKey(ch).value.key, AsciiKey(ch).value.shift);
    } else {
      ComposeAnnounced(ch);
    }
  }

  /** The virtual keyboard announces every key that any text can need. */
  lemma {:induction false} TextAnnounced(s: string)
    ensures AllAnnounced(KeysIn(TextEvents(s)))
  {
    if s != [] {
      var n := |s| - 1;
      TextAnnounced(s[..n]);
      CharAnnounced(s[n]);
      KeysInConcat(TextEvents(s[..n]), CharEvents(s[n]));
    }
  }
}
