/** Keys pressed and released by name. */
module KeyNames {
  import opened Wrappers
  import opened Keyboard
  import opened Reports
  import opened Typing
  import opened HeldKeys

  function LowerAll(s: string): string
  {
    if s == [] then [] else [Lower(s[0])] + LowerAll(s[1..])
  }

  function NamedKey(name: string): Option<Key>
  {
    if name == "return" || name == "enter" then Some(ENTER)
    else if name == "backspace" then Some(BACKSPACE)
    else if name == "tab" then Some(TAB)
    else if name == "escape" || name == "esc" then Some(ESC)
    else if name == "space" then Some(SPACE)
    else if name == "up" then Some(UP)
    else if name == "down" then Some(DOWN)
    else if name == "left" then Some(LEFT)
    else if name == "right" then Some(RIGHT)
    else if name == "delete" || name == "del" then Some(DELETE)
    else if name == "home" then Some(HOME)
    else if name == "end" then Some(END)
    else if name == "pageup" then Some(PAGEUP)
    else if name == "pagedown" then Some(PAGEDOWN)
    else if name == "ctrl" || name == "control" then Some(LEFTCTRL)
    else if name == "shift" then Some(LEFTSHIFT)
    else if name == "alt" then Some(LEFTALT)
    else if name == "meta" || name == "cmd" || name == "win" then Some(LEFTMETA)
    else
      var first := if name == [] then '\0' else name[0];
      if AsciiKey(first).Some? then Some(AsciiKey(first).value.key) else None
  }

  /** The key that a name of any spelling stands for. */
  function KeyNamed(name: string): Option<Key>
  {
    NamedKey(LowerAll(name))
  }

  function NameEvents(name: string, down: bool): seq<Event>
  {
    match KeyNamed(name)
    case Some(k) => [KeyEv(k, down), Syn]
    case None => []
  }

  /** So is every key that a name can stand for. */
  lemma NamedKeyAnnounced(name: string)
    requires NamedKey(name).Some?
    ensures Announced(NamedKey(name).value)
  {
    var first := if name == [] then '\0' else name[0];
    if AsciiKey(first).Some? {
      StrokeAnnounced(first);
    }
  }

  /** The same letter in either case, or the same character. */
  predicate SameLetter(c: char, d: char)
  {
    c == d || ('A' <= c <= 'Z' && d as int == c as int + 32) || ('A' <= d <= 'Z' && c as int == d as int + 32)
  }

  predicate SameUpToCase(a: string, b: string)
  {
    |a| == |b| && forall i :: 0 <= i < |a| ==> SameLetter(a[i], b[i])
  }

  lemma {:induction false} LowerAllIgnoresCase(a: string, b: string)
    requires SameUpToCase(a, b)
    ensures LowerAll(a) == LowerAll(b)
  {
    if a != [] {
      assert SameLetter(a[0], b[0]);
      forall i | 0 <= i < |a[1..]|
        ensures SameLetter(a[1..][i], b[1..][i])
      {
        assert SameLetter(a[i + 1], b[i + 1]);
      }
      LowerAllIgnoresCase(a[1..], b[1..]);
    }
  }

  /** Two spellings that differ in case only emit the same events. */
  lemma NamesIgnoreCase(a: string, b: string, down: bool)
    requires SameUpToCase(a, b)
    ensures NameEvents(a, down) == NameEvents(b, down)
  {
    LowerAllIgnoresCase(a, b);
  }

  lemma NameLowers(name: string)
    requires name != []
    ensures LowerAll(name) != [] && LowerAll(name)[0] == Lower(name[0])
  {
  }

  /** Upper and lower case of a letter are on one key. */
  lemma CaseSharesKey(c: char)
    ensures AsciiKey(Lower(c)).Some? <==> AsciiKey(c).Some?
    ensures AsciiKey(c).Some? ==> AsciiKey(Lower(c)).value.key == AsciiKey(c).value.key
  {
  }

  /** A name is known exactly when it begins with a character of the layout, whatever follows. */
  lemma NameKnownIff(name: string)
    ensures KeyNamed(name).Some? <==> name != [] && AsciiKey(name[0]).Some?
  {
    if name != [] {
      NameLowers(name);
      CaseSharesKey(name[0]);
    }
  }

  lemma {:induction false} UntouchedStays(d: Desk, evs: seq<Event>, k: Key)
    requires k !in KeysIn(evs)
    ensures k in Play(d, evs).held <==> k in d.held
  {
    if evs != [] {
      var n := |evs| - 1;
      assert KeysIn(evs[..n]) <= KeysIn(evs);
      UntouchedStays(d, evs[..n], k);
      assert evs[n].KeyEv? ==> evs[n].key in KeysIn(evs);
    }
  }

  /** A name emits one closed report. */
  lemma NameNeat(name: string, down: bool)
    ensures Neat(NameEvents(name, down))
  {
    match KeyNamed(name)
    case None =>
    case Some(k) => OneMove(KeyEv(k, down));
  }

  /** On the desktop a press by name holds its key and no other, and a release by name releases it and no other. */
  lemma NamePlays(d: Desk, name: string, down: bool)
    ensures Show(d, NameEvents(name, down)).held ==
            match KeyNamed(name)
            case Some(k) => (if down then d.held + {k} else d.held - {k})
            case None => d.held
    ensures !down ==> Show(d, NameEvents(name, down)).text == d.text
  {
    NameNeat(name, down);
    ShowIsPlay(d, NameEvents(name, down));
    match KeyNamed(name)
    case None => assert Play(d, []) == d;
    case Some(k) =>
      PlayOne(d, KeyEv(k, down));
      PlayThen(d, [KeyEv(k, down)], Syn);
      assert [KeyEv(k, down), Syn] == [KeyEv(k, down)] + [Syn];
      assert k in d.held ==> d.held + {k} == d.held;
  }

  /**
   A key pressed by name is held through any reports that do not touch it, and
   up after a release by any spelling of the name.
   */
  lemma HeldUntilReleased(d: Desk, press: string, release: string, between: seq<Event>)
    requires KeyNamed(press).Some? && SameUpToCase(press, release)
    requires Unclosed(between) == [] && KeyNamed(press).value !in KeysIn(between)
    ensures var key, evs := KeyNamed(press).value, NameEvents(press, true) + between;
            key in Show(d, evs).held && Show(d, evs + NameEvents(release, false)).held == Show(d, evs).held - {key}
  {
    LowerAllIgnoresCase(press, release);
    var key, evs := KeyNamed(press).value, NameEvents(press, true) + between;
    NamePlays(d, press, true);
    NameNeat(press, true);
    ShowConcat(d, NameEvents(press, true), between);
    DeliveredKeys(between);
    UntouchedStays(Show(d, NameEvents(press, true)), Delivered(between), key);
    DeliveredConcat(NameEvents(press, true), between);
    ShowConcat(d, evs, NameEvents(release, false));
    NamePlays(Show(d, evs), release, false);
  }

  /** Press and release by name. */
  function NameTap(name: string): seq<Event>
  {
    NameEvents(name, true) + NameEvents(name, false)
  }

  /** It is the tap of the key. */
  lemma NameTapIs(name: string)
    requires KeyNamed(name).Some?
    ensures NameTap(name) == TapEvents(KeyNamed(name).value, false)
  {
    var k := KeyNamed(name).value;
    var evs: seq<Event> := [KeyEv(k, true), Syn, KeyEv(k, false)];
    assert NameTap(name) == evs + [Syn] && TapEvents(k, false) == evs + [Syn];
  }

  lemma NameTapShows(d: Desk, name: string)
    requires KeyNamed(name).Some? && !IsModifier(KeyNamed(name).value)
    ensures Show(d, NameTap(name)) == Play(d, TapEvents(KeyNamed(name).value, false))
  {
    NameTapIs(name);
    TapNeat(KeyNamed(name).value, false);
    ShowIsPlay(d, NameTap(name));
  }

  /** A name of one character stands for the key that the character is typed with. */
  lemma OneCharName(c: char)
    requires AsciiKey(c).Some?
    ensures KeyNamed([c]) == Some(AsciiKey(c).value.key)
  {
    NameLowers([c]);
    assert [c][0] == c && [c][1..] == [];
    assert LowerAll([c]) == [Lower(c)];
    CaseSharesKey(c);
  }

  /**
   With any keys held, a tap by the name of one character types that character
   exactly when its key is up, no command modifier is held, and Shift is held
   just when its stroke needs it; for a space Shift does not matter.
   */
  lemma OneCharNameTypesIff(held: set<Key>, text: string, c: char)
    requires AsciiKey(c).Some?
    ensures var Stroke(key, shift) := AsciiKey(c).value;
            Show(Desk(held, None, text), NameTap([c])).text == text + [c] <==>
            key !in held && !CommandHeld(held) && (shift == ShiftHeld(held) || c == ' ')
  {
    var Stroke(key, shift) := AsciiKey(c).value;
    OneCharName(c);
    StrokeRoundTrip(c);
    TypingKeyIsNoModifier(key, shift);
    NameTapShows(Desk(held, None, text), [c]);
    TapFrom(held, text, key, false);
    BothCharacters(c);
    var other := Types(key, ShiftHeld(held));
    assert other.Some? ==> (text + [other.value])[|text|] == other.value;
    assert (text + [c])[|text|] == c && text + [c] != text;
  }

  lemma LetterHasTwo(c: char)
    requires 'a' <= c <= 'z' || 'A' <= c <= 'Z'
    ensures var Stroke(key, shift) := AsciiKey(c).value;
            Types(key, !shift) != Some(c)
  {
    LetterRoundTrip(Lower(c));
  }

  lemma SignHasTwo(key: Key)
    requires SignsOn(key).Some?
    ensures SignsOn(key).value.0 == SignsOn(key).value.1 <==> key in {SPACE, ENTER, TAB, BACKSPACE}
  {
  }

  lemma SpaceBar(c: char)
    requires Carries(SPACE, true, c) || Carries(ENTER, true, c) || Carries(TAB, true, c) || Carries(BACKSPACE, true, c)
    ensures AsciiKey(c).Some? ==> c == ' '
  {
  }

  /** The two characters of a key differ, except on the space bar. */
  lemma BothCharacters(c: char)
    requires AsciiKey(c).Some?
    ensures var Stroke(key, shift) := AsciiKey(c).value;
            Types(key, !shift) == Some(c) <==> c == ' '
  {
    if 'a' <= c <= 'z' || 'A' <= c <= 'Z' {
      LetterHasTwo(c);
    } else {
      SignRoundTrip(c);
      var key := Sign(c).value.key;
      NoLetterOnSigns(key);
      SignHasTwo(key);
      if key in {SPACE, ENTER, TAB, BACKSPACE} {
        SpaceBar(c);
      }
    }
  }
}
