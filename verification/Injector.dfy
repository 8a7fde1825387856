/** The input injector of src/input.rs: a keyboard and a mouse that record the events emitted to them. */
module Injector {
  import opened Keyboard
  import opened Reports
  import opened Typing
  import opened KeyNames
  import opened Pointer

  datatype MouseEvent = RelX(v: int) | RelY(v: int) | MouseSyn

  class Injector {
    var kbd: seq<Event>
    var mouse: seq<MouseEvent>
    var x: int
    var y: int
    var screenW: int
    var screenH: int

    constructor (w: int, h: int)
      requires ScreenSize(w) && ScreenSize(h)
      ensures Valid() && kbd == [] && mouse == []
      ensures Position() == Point(w / 2, h / 2) && Size() == Screen(w, h) && OnScreen(Position(), Size())
    {
      kbd, mouse := [], [];
      x, y, screenW, screenH := w / 2, h / 2, w, h;
    }

    ghost predicate Valid()
      reads this
    {
      IsI32(x) && IsI32(y) && ScreenSize(screenW) && ScreenSize(screenH) && Neat(kbd)
    }

    ghost function Position(): Point
      reads this
    {
      Point(x, y)
    }

    ghost function Size(): Screen
      reads this
    {
      Screen(screenW, screenH)
    }

    /** Press and release, each in a report of its own. */
    method Tap(key: Key, shift: bool)
      requires Valid()
      modifies this`kbd
      ensures kbd == old(kbd) + TapEvents(key, shift)
      ensures key != LEFTSHIFT ==> Valid()
    {
      var evs := [];
      if shift {
        evs := evs + [KeyEv(LEFTSHIFT, true)];
      }
      evs := evs + [KeyEv(key, true)];
      evs := evs + [Syn];
      evs := evs + [KeyEv(key, false)];
      if shift {
        evs := evs + [KeyEv(LEFTSHIFT, false)];
      }
      evs := evs + [Syn];
      assert evs == TapEvents(key, shift);
      if key != LEFTSHIFT {
        TapNeat(key, shift);
        NeatConcat(kbd, evs);
      }
      kbd := kbd + evs;
    }

    method TypeChar(ch: char)
      requires Valid()
      modifies this`kbd
      ensures Valid() && kbd == old(kbd) + CharEvents(ch)
    {
      if ch == '\n' || ch == '\r' {
        Tap(ENTER, false);
        return;
      }
      if ch == '\t' {
        Tap(TAB, false);
        return;
      }
      if ch == '\U{8}' || ch == '\U{7F}' {
        Tap(BACKSPACE, false);
        return;
      }
      var stroke := AsciiKey(ch);
      if stroke.Some? {
        NoStrokeIsShift(ch);
        Tap(stroke.value.key, stroke.value.shift);
        return;
      }
      ComposeChar(ch);
    }

    static lemma NoStrokeIsShift(ch: char)
      requires AsciiKey(ch).Some?
      ensures AsciiKey(ch).value.key != LEFTSHIFT
    {
      StrokeRoundTrip(ch);
    }

    /** A character that no stroke types. */
    method ComposeChar(ch: char)
      requires Valid()
      modifies this`kbd
      ensures Valid() && kbd == old(kbd) + ComposeEvents(ch)
    {
      var hex := Hex(ch as int);
      ModifiersNeat(kbd);
      kbd := kbd + COMPOSE_ON;
      Tap(U, false);
      ModifiersNeat(kbd);
      kbd := kbd + COMPOSE_OFF;
      ghost var start := kbd;
      for i := 0 to |hex|
        invariant Valid() && kbd == start + TapAll(hex[..i])
      {
        TapAllLast(start, hex, i);
        var h := AsciiKey(hex[i]);
        if h.Some? {
          NoStrokeIsShift(hex[i]);
          Tap(h.value.key, false);
        }
      }
      assert hex[..|hex|] == hex;
      Tap(ENTER, false);
      ComposeParts(old(kbd), ch);
    }

    static lemma ModifiersNeat(before: seq<Event>)
      requires Neat(before)
      ensures Neat(before + COMPOSE_ON) && Neat(before + COMPOSE_OFF)
    {
      TwoMoves(KeyEv(LEFTCTRL, true), KeyEv(LEFTSHIFT, true));
      TwoMoves(KeyEv(LEFTCTRL, false), KeyEv(LEFTSHIFT, false));
      NeatConcat(before, COMPOSE_ON);
      NeatConcat(before, COMPOSE_OFF);
    }

    static lemma TapAllLast(start: seq<Event>, s: string, i: nat)
      requires i < |s|
      ensures start + TapAll(s[..i + 1]) ==
              if AsciiKey(s[i]).Some? then start + TapAll(s[..i]) + TapEvents(AsciiKey(s[i]).value.key, false)
              else start + TapAll(s[..i])
    {
      assert s[..i + 1][..i] == s[..i];
    }

    static lemma ComposeParts(before: seq<Event>, ch: char)
      ensures before + COMPOSE_ON + TapEvents(U, false) + COMPOSE_OFF + TapAll(Hex(ch as int)) + TapEvents(ENTER, false)
           == before + ComposeEvents(ch)
    {
      FiveParts(before, COMPOSE_ON, TapEvents(U, false), COMPOSE_OFF, TapAll(Hex(ch as int)), TapEvents(ENTER, false));
    }

    static lemma FiveParts<T>(o: seq<T>, a: seq<T>, b: seq<T>, c: seq<T>, d: seq<T>, e: seq<T>)
      ensures o + a + b + c + d + e == o + (a + b + c + d + e)
    {
    }

    /** Types a text: the desktop of module Typing, with no key held, then shows it, and holds no key. */
    method Text(s: string)
      requires Valid()
      modifies this`kbd
      ensures Valid() && kbd == old(kbd) + TextEvents(s)
      ensures forall d, text :: Show(d, old(kbd)) == Quiet(text) ==> Show(d, kbd) == Quiet(text + NormalText(s))
    {
      for i := 0 to |s|
        invariant Valid() && kbd == old(kbd) + TextEvents(s[..i])
      {
        TypeChar(s[i]);
        OneMoreChar(old(kbd), s, i);
      }
      assert s[..|s|] == s;
      forall d, text | Show(d, old(kbd)) == Quiet(text)
        ensures Show(d, kbd) == Quiet(text + NormalText(s))
      {
        TextShown(d, old(kbd), s, text);
      }
    }

    static lemma OneMoreChar(before: seq<Event>, s: string, i: nat)
      requires i < |s|
      ensures before + TextEvents(s[..i]) + CharEvents(s[i]) == before + TextEvents(s[..i + 1])
    {
      assert s[..i + 1][..i] == s[..i];
      TextEventsLast(s[..i + 1]);
    }

    static lemma TextEventsLast(s: string)
      requires s != []
      ensures TextEvents(s) == TextEvents(s[..|s| - 1]) + CharEvents(s[|s| - 1])
    {
    }

    static lemma TextShown(d: Desk, before: seq<Event>, s: string, text: string)
      requires Neat(before) && Show(d, before) == Quiet(text)
      ensures Show(d, before + TextEvents(s)) == Quiet(text + NormalText(s))
    {
      ShowConcat(d, before, TextEvents(s));
      TextRoundTrip(s, text);
    }

    /** Presses or releases a named key, and no other key; an unknown name does nothing. */
    method KeyByName(name: string, down: bool)
      requires Valid()
      modifies this`kbd
      ensures Valid() && kbd == old(kbd) + NameEvents(name, down)
      ensures KeyNamed(name).None? ==> kbd == old(kbd)
      ensures forall d :: KeyNamed(name).Some? ==>
                var held, k := Show(d, old(kbd)).held, KeyNamed(name).value;
                Show(d, kbd).held == if down then held + {k} else held - {k}
    {
      NameNeat(name, down);
      NeatConcat(kbd, NameEvents(name, down));
      var key := NamedKey(LowerAll(name));
      if key.None? {
        assert kbd == old(kbd) + [];
        return;
      }
      kbd := kbd + [KeyEv(key.value, down), Syn];
      forall d
        ensures Show(d, kbd).held == if down then Show(d, old(kbd)).held + {key.value}
                                     else Show(d, old(kbd)).held - {key.value}
      {
        ShowConcat(d, old(kbd), NameEvents(name, down));
        NamePlays(Show(d, old(kbd)), name, down);
      }
    }

    method Move(dx: int, dy: int)
      requires Valid() && IsI32(dx) && IsI32(dy)
      modifies this`x, this`y, this`mouse
      ensures Valid() && Position() == MoveRel(old(Position()), Point(dx, dy), Size())
      ensures dx != 0 || dy != 0 ==> OnScreen(Position(), Size())
      ensures mouse == old(mouse) +
                       if dx == 0 && dy == 0 then []
                       else (if dx != 0 then [RelX(dx)] else []) + (if dy != 0 then [RelY(dy)] else []) + [MouseSyn]
    {
      if dx == 0 && dy == 0 {
        return;
      }
      x := Clamp(WrappingAdd(x, dx), 0, screenW - 1);
      y := Clamp(WrappingAdd(y, dy), 0, screenH - 1);
      var evs := [];
      if dx != 0 {
        evs := evs + [RelX(dx)];
      }
      if dy != 0 {
        evs := evs + [RelY(dy)];
      }
      evs := evs + [MouseSyn];
      mouse := mouse + evs;
    }
  }
}
