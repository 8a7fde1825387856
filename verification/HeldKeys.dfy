/** What comes out of a text when other keys are held: the conditions are exact. */
module HeldKeys {
  import opened Wrappers
  import opened Keyboard
  import opened Reports
  import opened Typing

  /**
   With keys held before, a plain character still comes out exactly when its key
   is up, no command modifier is held, and Shift is not held against it.
   */
  lemma StrokeTypedIff(held: set<Key>, text: string, ch: char)
    requires AsciiKey(ch).Some?
    ensures var Stroke(key, shift) := AsciiKey(ch).value;
            Show(Desk(held, None, text), TapEvents(key, shift)).text == text + [ch] <==>
            key !in held && !CommandHeld(held) && (ShiftHeld(held) ==> shift || Types(key, true) == Some(ch))
  {
    StrokeRoundTrip(ch);
    var Stroke(key, shift) := AsciiKey(ch).value;
    TypingKeyIsNoModifier(key, shift);
    TapNeat(key, shift);
    ShowIsPlay(Desk(held, None, text), TapEvents(key, shift));
    TapFrom(held, text, key, shift);
    var c := Types(key, shift || ShiftHeld(held));
    assert text + [ch] != text;
    if c.Some? {
      assert (text + [c.value])[|text|] == c.value && (text + [ch])[|text|] == ch;
    }
  }

  lemma TapFrom(held: set<Key>, text: string, key: Key, shift: bool)
    requires !IsModifier(key)
    ensures Play(Desk(held, None, text), TapEvents(key, shift)).text ==
            if key in held || CommandHeld(held) then text
            else
              match Types(key, shift || ShiftHeld(held))
              case Some(c) => text + [c]
              case None => text
  {
    TapOutcome(Desk(held, None, text), key, shift);
    var h := TapHeld(held, shift);
    assert CommandHeld(h) == CommandHeld(held) && ShiftHeld(h) == (shift || ShiftHeld(held));
    assert key == U && LEFTCTRL in h ==> CommandHeld(h);
  }

  /** The key that a control character is typed with. */
  function ControlKey(ch: char): Key
    requires IsControl(ch)
  {
    if ch == '\n' || ch == '\r' then ENTER else if ch == '\t' then TAB else BACKSPACE
  }

  /** A control character comes out exactly when its key is up and no command modifier is held. */
  lemma ControlTypedIff(held: set<Key>, text: string, ch: char)
    requires IsControl(ch)
    ensures Show(Desk(held, None, text), CharEvents(ch)).text == text + [Normal(ch)] <==>
            ControlKey(ch) !in held && !CommandHeld(held)
  {
    var key := ControlKey(ch);
    ControlShows(held, text, ch);
    TapFrom(held, text, key, false);
    ControlKeyTypes(ch);
    assert text + [Normal(ch)] != text;
  }

  lemma ControlShows(held: set<Key>, text: string, ch: char)
    requires IsControl(ch)
    ensures Show(Desk(held, None, text), CharEvents(ch)) == Play(Desk(held, None, text), TapEvents(ControlKey(ch), false))
    ensures !IsModifier(ControlKey(ch))
  {
    CharNeat(ch);
    ShowIsPlay(Desk(held, None, text), CharEvents(ch));
  }

  lemma ControlKeyTypes(ch: char)
    requires IsControl(ch)
    ensures Types(ControlKey(ch), true) == Types(ControlKey(ch), false) == Some(Normal(ch))
  {
  }

  /** The key of a hexadecimal digit. */
  function DigitOf(c: char): (k: Key)
    requires '0' <= c <= '9' || 'a' <= c <= 'f'
    ensures AsciiKey(c).Some? && k == AsciiKey(c).value.key && HexOn(k) == Some(HexOf(c)) && !IsModifier(k)
  {
    HexKeys(c);
    AsciiKey(c).value.key
  }

  /** The keys of hexadecimal digits, in order. */
  function KeysFor(s: string): (keys: seq<Key>)
    requires IsHex(s)
    ensures |keys| == |s|
  {
    if s == [] then [] else KeysFor(s[..|s| - 1]) + [DigitOf(s[|s| - 1])]
  }

  /** Of characters typed with these keys, those that arrive: the first of each held key does not. */
  function Arriving(held: set<Key>, keys: seq<Key>, s: string): (t: string)
    requires |keys| == |s|
    ensures |t| <= |s|
  {
    if s == [] then []
    else
      var n := |s| - 1;
      Arriving(held, keys[..n], s[..n]) + if keys[n] in held && keys[n] !in keys[..n] then [] else [s[n]]
  }

  predicate AllUp(held: set<Key>, keys: seq<Key>)
  {
    forall k :: k in keys ==> k !in held
  }

  /** All characters arrive exactly if their keys are up. */
  lemma {:induction false} ArrivingAll(held: set<Key>, keys: seq<Key>, s: string)
    requires |keys| == |s|
    ensures if AllUp(held, keys) then Arriving(held, keys, s) == s else |Arriving(held, keys, s)| < |s|
  {
    if s != [] {
      var n := |s| - 1;
      ArrivingAll(held, keys[..n], s[..n]);
      assert s == s[..n] + [s[n]] && keys == keys[..n] + [keys[n]];
    }
  }

  lemma TapDigit(held: set<Key>, v: nat, text: string, key: Key)
    requires HexOn(key).Some? && !IsModifier(key)
    ensures Play(Desk(held, Some(v), text), TapEvents(key, false)) ==
            Desk(held - {key}, Some(if key in held then v else v * 16 + HexOn(key).value), text)
  {
    TapOutcome(Desk(held, Some(v), text), key, false);
    assert held - {key} - {} == held - {key};
  }

  /** A list of keys as a set. */
  function SetOf(keys: seq<Key>): set<Key>
  {
    set k | k in keys
  }

  lemma {:induction false} DigitsFrom(held: set<Key>, text: string, s: string)
    requires IsHex(s)
    ensures Play(Desk(held, Some(0), text), TapAll(s)) ==
            Desk(held - SetOf(KeysFor(s)), Some(HexValue(0, Arriving(held, KeysFor(s), s))), text)
  {
    if s == [] {
      assert held - SetOf([]) == held;
    } else {
      var n := |s| - 1;
      var key, before := DigitOf(s[n]), KeysFor(s[..n]);
      DigitsFrom(held, text, s[..n]);
      PlayConcat(Desk(held, Some(0), text), TapAll(s[..n]), TapEvents(key, false));
      DigitStep(held, before, Arriving(held, before, s[..n]), text, key, s[n]);
      ArrivingLast(held, before, key, s);
    }
  }

  lemma ArrivingLast(held: set<Key>, before: seq<Key>, key: Key, s: string)
    requires |before| + 1 == |s|
    ensures var n := |s| - 1;
            Arriving(held, before + [key], s) ==
            Arriving(held, before, s[..n]) + if key in held && key !in before then [] else [s[n]]
  {
    assert (before + [key])[..|before|] == before;
  }

  lemma DigitStep(held: set<Key>, tapped: seq<Key>, arrived: string, text: string, key: Key, c: char)
    requires IsHex([c]) && HexOn(key) == Some(HexOf([c][0])) && !IsModifier(key)
    ensures Play(Desk(held - SetOf(tapped), Some(HexValue(0, arrived)), text), TapEvents(key, false)) ==
            Desk(held - SetOf(tapped + [key]),
                 Some(HexValue(0, arrived + if key in held && key !in tapped then [] else [c])), text)
  {
    TapDigit(held - SetOf(tapped), HexValue(0, arrived), text, key);
    OneMoreDigit(arrived, c);
    LeftAfter(held, tapped, key);
    NothingAdded(arrived);
  }

  lemma NothingAdded(s: string)
    ensures s + [] == s
  {
  }

  lemma LeftAfter(held: set<Key>, tapped: seq<Key>, key: Key)
    ensures held - SetOf(tapped) - {key} == held - SetOf(tapped + [key])
    ensures key in held - SetOf(tapped) <==> key in held && key !in tapped
  {
  }

  lemma OneMoreDigit(s: string, c: char)
    requires IsHex([c])
    ensures '0' <= c <= '9' || 'a' <= c <= 'f'
    ensures HexValue(0, s + [c]) == HexValue(0, s) * 16 + HexOf(c)
  {
    assert [c][0] == c;
    assert (s + [c])[..|s|] == s;
  }

  function Pow16(n: nat): (p: nat)
    ensures p > 0
  {
    if n == 0 then 1 else 16 * Pow16(n - 1)
  }

  lemma {:induction false} Pow16Grows(m: nat, n: nat)
    requires m <= n
    ensures Pow16(m) <= Pow16(n)
  {
    if m < n {
      Pow16Grows(m, n - 1);
    }
  }

  lemma {:induction false} HexValueBound(s: string)
    ensures HexValue(0, s) < Pow16(|s|)
  {
    if s != [] {
      HexValueBound(s[..|s| - 1]);
    }
  }

  /** A number other than zero has no leading zero digit. */
  lemma {:induction false} HexLength(n: nat)
    requires n > 0
    ensures n >= Pow16(|Hex(n)| - 1)
    decreases n
  {
    if n >= 16 {
      HexLength(n / 16);
      assert |Hex(n)| - 1 == |Hex(n / 16)|;
    }
  }

  lemma FewerDigits(t: string, n: nat)
    requires |t| < |Hex(n)|
    ensures HexValue(0, t) == n <==> n == 0
  {
    HexValueBound(t);
    if n > 0 {
      HexLength(n);
      Pow16Grows(|t|, |Hex(n)| - 1);
    }
  }

  /** Digits that do not arrive change the number, unless it is zero. */
  lemma LostDigits(held: set<Key>, n: nat)
    ensures IsHex(Hex(n))
    ensures HexValue(0, Arriving(held, KeysFor(Hex(n)), Hex(n))) == n <==> n == 0 || AllUp(held, KeysFor(Hex(n)))
  {
    HexReadBack(n);
    var t := Arriving(held, KeysFor(Hex(n)), Hex(n));
    ArrivingAll(held, KeysFor(Hex(n)), Hex(n));
    if |t| < |Hex(n)| {
      FewerDigits(t, n);
    }
  }

  /** A character that some stroke types. */
  predicate Typable(c: char)
  {
    AsciiKey(c).Some? || IsControl(c)
  }

  lemma LetterTypable(k: Key, shift: bool)
    requires LetterOn(k).Some?
    ensures Typable(Types(k, shift).value)
  {
  }

  predicate OnDigitRow(k: Key)
  {
    match k
    case D0 | D1 | D2 | D3 | D4 | D5 | D6 | D7 | D8 | D9 => true
    case _ => false
  }

  lemma DigitRowTypable(k: Key)
    requires OnDigitRow(k)
    ensures SignsOn(k).Some? && Typable(SignsOn(k).value.0) && Typable(SignsOn(k).value.1)
  {
  }

  lemma SignsTypable(k: Key)
    requires SignsOn(k).Some? && !OnDigitRow(k)
    ensures Typable(SignsOn(k).value.0) && Typable(SignsOn(k).value.1)
  {
  }

  /** Nothing is being composed, and what has been typed since `text` could have been typed by strokes. */
  predicate Plain(d: Desk, text: string)
  {
    d.compose == None && text <= d.text && forall i :: |text| <= i < |d.text| ==> Typable(d.text[i])
  }

  lemma TapStaysPlain(d: Desk, text: string, key: Key)
    requires Plain(d, text) && !IsModifier(key) && key != U
    ensures Plain(Play(d, TapEvents(key, false)), text)
  {
    TapOutcome(d, key, false);
    var shift := ShiftHeld(d.held);
    if Types(key, shift).Some? {
      if LetterOn(key).Some? {
        LetterTypable(key, shift);
      } else if OnDigitRow(key) {
        DigitRowTypable(key);
      } else {
        SignsTypable(key);
      }
    }
  }

  lemma {:induction false} DigitsStayPlain(d: Desk, text: string, s: string)
    requires Plain(d, text) && IsHex(s)
    ensures Plain(Play(d, TapAll(s)), text)
  {
    if s != [] {
      var n := |s| - 1;
      DigitsStayPlain(d, text, s[..n]);
      HexKeys(s[n]);
      var key := AsciiKey(s[n]).value.key;
      PlayConcat(d, TapAll(s[..n]), TapEvents(key, false));
      TapStaysPlain(Play(d, TapAll(s[..n])), text, key);
    }
  }

  /** A composition whose U does not arrive leaves only characters of the layout. */
  lemma ComposeWithoutU(held: set<Key>, text: string, ch: char)
    requires U in held
    ensures Plain(Play(Desk(held, None, text), ComposeEvents(ch)), text)
  {
    var d := Desk(held, None, text);
    var start, digits := COMPOSE_ON + TapEvents(U, false) + COMPOSE_OFF, TapAll(Hex(ch as int));
    ComposeOpens(d);
    HexReadBack(ch as int);
    PlayConcat(d, start, digits);
    DigitsStayPlain(Play(d, start), text, Hex(ch as int));
    PlayConcat(d, start + digits, TapEvents(ENTER, false));
    TapStaysPlain(Play(d, start + digits), text, ENTER);
  }

  lemma {:induction false} HexKeysOnly(s: string, k: Key)
    requires IsHex(s) && HexOn(k) == None
    ensures k !in KeysFor(s)
  {
    if s != [] {
      HexKeysOnly(s[..|s| - 1], k);
    }
  }

  /** What tapping the digits of `n` gives: the number itself exactly if their keys are up, or it is zero. */
  lemma DigitsGive(held: set<Key>, text: string, n: nat) returns (v: nat, keys: seq<Key>)
    ensures IsHex(Hex(n)) && keys == KeysFor(Hex(n))
    ensures Play(Desk(held, Some(0), text), TapAll(Hex(n))) == Desk(held - SetOf(keys), Some(v), text)
    ensures v == n <==> n == 0 || AllUp(held, keys)
  {
    LostDigits(held, n);
    var s := Hex(n);
    DigitsFrom(held, text, s);
    keys := KeysFor(s);
    v := HexValue(0, Arriving(held, keys, s));
  }

  lemma EnterEnds(held: set<Key>, keys: seq<Key>, v: nat, text: string)
    requires ENTER !in keys
    ensures Play(Desk(held - SetOf(keys), Some(v), text), TapEvents(ENTER, false)).text ==
            if ENTER !in held && IsScalar(v) then text + [v as char] else text
  {
    TapOutcome(Desk(held - SetOf(keys), Some(v), text), ENTER, false);
  }

  lemma DigitsAndEnter(held: set<Key>, text: string, n: nat) returns (v: nat, keys: seq<Key>)
    ensures IsHex(Hex(n)) && keys == KeysFor(Hex(n))
    ensures Play(Desk(held, Some(0), text), TapAll(Hex(n)) + TapEvents(ENTER, false)).text ==
            if ENTER !in held && IsScalar(v) then text + [v as char] else text
    ensures v == n <==> n == 0 || AllUp(held, keys)
  {
    v, keys := DigitsGive(held, text, n);
    PlayConcat(Desk(held, Some(0), text), TapAll(Hex(n)), TapEvents(ENTER, false));
    HexKeysOnly(Hex(n), ENTER);
    EnterEnds(held, keys, v, text);
  }

  lemma ComposeOpensWithU(held: set<Key>, text: string, ch: char) returns (start: seq<Event>)
    requires U !in held
    ensures ComposeEvents(ch) == start + (TapAll(Hex(ch as int)) + TapEvents(ENTER, false))
    ensures Play(Desk(held, None, text), start) == Desk(held - {LEFTCTRL, LEFTSHIFT, U}, Some(0), text)
  {
    start := COMPOSE_ON + TapEvents(U, false) + COMPOSE_OFF;
    ComposeOpens(Desk(held, None, text));
    ThreeParts(start, TapAll(Hex(ch as int)), TapEvents(ENTER, false));
  }

  lemma ThreeParts(a: seq<Event>, b: seq<Event>, c: seq<Event>)
    ensures a + b + c == a + (b + c)
  {
  }

  /** A composition whose U arrives ends with the number of the digits that do, if Enter arrives. */
  lemma ComposeWithU(held: set<Key>, text: string, ch: char) returns (v: nat, keys: seq<Key>)
    requires U !in held
    ensures IsHex(Hex(ch as int)) && keys == KeysFor(Hex(ch as int))
    ensures Play(Desk(held, None, text), ComposeEvents(ch)).text ==
            if ENTER !in held && IsScalar(v) then text + [v as char] else text
    ensures v == ch as int <==> ch == '\0' || AllUp(held - {LEFTCTRL, LEFTSHIFT, U}, keys)
  {
    var start := ComposeOpensWithU(held, text, ch);
    v, keys := DigitsAndEnter(held - {LEFTCTRL, LEFTSHIFT, U}, text, ch as int);
    PlayConcat(Desk(held, None, text), start, TapAll(Hex(ch as int)) + TapEvents(ENTER, false));
  }

  lemma OtherKeysDoNotMatter(held: set<Key>, s: string)
    requires IsHex(s)
    ensures AllUp(held, KeysFor(s)) <==> AllUp(held - {LEFTCTRL, LEFTSHIFT, U}, KeysFor(s))
  {
    HexKeysOnly(s, LEFTCTRL);
    HexKeysOnly(s, LEFTSHIFT);
    HexKeysOnly(s, U);
  }

  lemma SameEnd(text: string, c: char, d: char)
    ensures text + [c] == text + [d] <==> c == d
    ensures text + [c] != text
  {
    assert (text + [c])[|text|] == c && (text + [d])[|text|] == d;
  }

  /** Only the number of the character composes it. */
  lemma OnlyThatNumber(out: string, text: string, ch: char, v: nat, entered: bool, up: bool)
    requires out == if entered && IsScalar(v) then text + [v as char] else text
    requires v == ch as int <==> ch == '\0' || up
    ensures out == text + [ch] <==> entered && (ch == '\0' || up)
  {
    SameEnd(text, ch, if IsScalar(v) then v as char else ch);
    SameEnd(text, ch, ch);
  }

  /**
   A character outside the layout comes out exactly when U, Enter and the keys
   of its hexadecimal digits are up; for NUL the digit does not matter.
   */
  lemma ComposeTypedIff(held: set<Key>, text: string, ch: char)
    requires !Typable(ch)
    ensures IsHex(Hex(ch as int))
    ensures Show(Desk(held, None, text), CharEvents(ch)).text == text + [ch] <==>
            U !in held && ENTER !in held && (ch == '\0' || AllUp(held, KeysFor(Hex(ch as int))))
  {
    assert CharEvents(ch) == ComposeEvents(ch);
    ComposeNeat(ch);
    ShowIsPlay(Desk(held, None, text), ComposeEvents(ch));
    HexReadBack(ch as int);
    if U in held {
      ComposeWithoutU(held, text, ch);
      assert (text + [ch])[|text|] == ch;
    } else {
      ArrivingDecides(held, text, ch);
    }
  }

  lemma ArrivingDecides(held: set<Key>, text: string, ch: char)
    requires U !in held
    ensures IsHex(Hex(ch as int))
    ensures Play(Desk(held, None, text), ComposeEvents(ch)).text == text + [ch] <==>
            ENTER !in held && (ch == '\0' || AllUp(held, KeysFor(Hex(ch as int))))
  {
    var v, keys := ComposeWithU(held, text, ch);
    OtherKeysDoNotMatter(held, Hex(ch as int));
    OnlyThatNumber(Play(Desk(held, None, text), ComposeEvents(ch)).text, text, ch, v, ENTER !in held, AllUp(held, keys));
  }
}
