/**
 What each word that names a key does to a desktop, said without the table of
 names: the keys that act on the page with the caret, and the modifiers.
 */
module WordKeys {
  import opened Wrappers
  import opened Keyboard
  import opened Typing
  import opened Editor
  import opened KeyNames

  predicate AllLower(word: string)
  {
    forall i :: 0 <= i < |word| ==> Lower(word[i]) == word[i]
  }

  lemma {:induction false} LowerAllStays(word: string)
    requires AllLower(word)
    ensures LowerAll(word) == word
  {
    if word != [] {
      LowerAllStays(word[1..]);
    }
  }

  lemma Spelled(name: string, word: string)
    requires AllLower(word) && SameUpToCase(name, word)
    ensures KeyNamed(name) == NamedKey(word)
  {
    LowerAllIgnoresCase(name, word);
    LowerAllStays(word);
  }

  // ----- Keys that act -----

  /** With no key held, a tap by any spelling of the word does just this to any page. */
  ghost predicate Does(word: string, i: Intent)
  {
    forall p: Page, name :: p.held == {} && SameUpToCase(name, word) ==> ShowPage(p, NameTap(name)) == Perform(p, i)
  }

  predicate MeansByTable(word: string, i: Intent)
  {
    && AllLower(word) && NamedKey(word).Some? && !IsModifier(NamedKey(word).value)
    && Meaning(NamedKey(word).value, false) == Some(i)
  }

  lemma {:induction false} TapDoes(word: string, i: Intent)
    requires MeansByTable(word, i)
    ensures Does(word, i)
  {
    forall p: Page, name | p.held == {} && SameUpToCase(name, word)
      ensures ShowPage(p, NameTap(name)) == Perform(p, i)
    {
      Spelled(name, word);
      NameTapIs(name);
      TapOnPage(p, NamedKey(word).value);
      PerformKeepsHeld(p, i);
      assert p.held - {NamedKey(word).value} == p.held;
    }
  }

  /** With any keys held it does that with the meaning under Shift, unless its key is down or a command modifier is held. */
  lemma {:induction false} NameTapOnPage(p: Page, name: string)
    requires KeyNamed(name).Some? && !IsModifier(KeyNamed(name).value)
    ensures var k := KeyNamed(name).value;
            ShowPage(p, NameTap(name)) == (if k in p.held then p else Struck(p, k)).(held := p.held - {k})
  {
    NameTapIs(name);
    TapOnPage(p, KeyNamed(name).value);
  }

  lemma WordReturn()
    ensures MeansByTable("return", BreakLine)
  {
  }

  lemma WordEnter()
    ensures MeansByTable("enter", BreakLine)
  {
  }

  lemma WordBackspace()
    ensures MeansByTable("backspace", EraseBefore)
  {
  }

  lemma WordTab()
    ensures MeansByTable("tab", Insert('\t'))
  {
  }

  lemma WordSpace()
    ensures MeansByTable("space", Insert(' '))
  {
  }

  lemma WordEscape()
    ensures MeansByTable("escape", CloseMenu)
  {
  }

  lemma WordEsc()
    ensures MeansByTable("esc", CloseMenu)
  {
  }

  lemma WordUp()
    ensures MeansByTable("up", MoveUp)
  {
  }

  lemma WordDown()
    ensures MeansByTable("down", MoveDown)
  {
  }

  lemma WordLeft()
    ensures MeansByTable("left", MoveLeft)
  {
  }

  lemma WordRight()
    ensures MeansByTable("right", MoveRight)
  {
  }

  lemma WordDelete()
    ensures MeansByTable("delete", EraseAfter)
  {
  }

  lemma WordDel()
    ensures MeansByTable("del", EraseAfter)
  {
  }

  lemma WordHome()
    ensures MeansByTable("home", LineStart)
  {
  }

  lemma WordEnd()
    ensures MeansByTable("end", LineEnd)
  {
  }

  lemma WordPageup()
    ensures MeansByTable("pageup", PageBack)
  {
  }

  lemma WordPagedown()
    ensures MeansByTable("pagedown", PageOn)
  {
  }

  /** Enter breaks the line, Backspace erases, Tab and the space bar insert themselves. */
  lemma LineWords()
    ensures Does("return", BreakLine)
    ensures Does("enter", BreakLine)
    ensures Does("backspace", EraseBefore)
    ensures Does("tab", Insert('\t'))
    ensures Does("space", Insert(' '))
  {
    WordReturn();
    TapDoes("return", BreakLine);
    WordEnter();
    TapDoes("enter", BreakLine);
    WordBackspace();
    TapDoes("backspace", EraseBefore);
    WordTab();
    TapDoes("tab", Insert('\t'));
    WordSpace();
    TapDoes("space", Insert(' '));
  }

  /** The arrow keys move the caret their way. */
  lemma ArrowWords()
    ensures Does("up", MoveUp)
    ensures Does("down", MoveDown)
    ensures Does("left", MoveLeft)
    ensures Does("right", MoveRight)
  {
    WordUp();
    TapDoes("up", MoveUp);
    WordDown();
    TapDoes("down", MoveDown);
    WordLeft();
    TapDoes("left", MoveLeft);
    WordRight();
    TapDoes("right", MoveRight);
  }

  /** Home and End go to the ends of the line, Page Up and Page Down by a page. */
  lemma JumpWords()
    ensures Does("home", LineStart)
    ensures Does("end", LineEnd)
    ensures Does("pageup", PageBack)
    ensures Does("pagedown", PageOn)
  {
    WordHome();
    TapDoes("home", LineStart);
    WordEnd();
    TapDoes("end", LineEnd);
    WordPageup();
    TapDoes("pageup", PageBack);
    WordPagedown();
    TapDoes("pagedown", PageOn);
  }

  /** Delete erases behind the caret, and Escape closes the menu. */
  lemma EraseWords()
    ensures Does("delete", EraseAfter)
    ensures Does("del", EraseAfter)
    ensures Does("escape", CloseMenu)
    ensures Does("esc", CloseMenu)
  {
    WordDelete();
    TapDoes("delete", EraseAfter);
    WordDel();
    TapDoes("del", EraseAfter);
    WordEscape();
    TapDoes("escape", CloseMenu);
    WordEsc();
    TapDoes("esc", CloseMenu);
  }

  // ----- Keys that type -----

  /** With no key held, a tap by any spelling of the word types the character on the desktop that only collects text. */
  ghost predicate Says(word: string, c: char)
  {
    forall text, name :: SameUpToCase(name, word) ==> Show(Quiet(text), NameTap(name)) == Quiet(text + [c])
  }

  predicate SaysByTable(word: string, c: char)
  {
    AllLower(word) && NamedKey(word).Some? && Types(NamedKey(word).value, false) == Some(c)
  }

  lemma {:induction false} SpelledTypes(word: string, c: char)
    requires SaysByTable(word, c)
    ensures Says(word, c)
  {
    forall text, name | SameUpToCase(name, word)
      ensures Show(Quiet(text), NameTap(name)) == Quiet(text + [c])
    {
      Spelled(name, word);
      TypingKeyIsNoModifier(NamedKey(word).value, false);
      NameTapShows(Quiet(text), name);
      TapTypes(text, NamedKey(word).value, false);
    }
  }

  lemma EnterSays()
    ensures SaysByTable("return", '\n') && SaysByTable("enter", '\n')
  {
  }

  lemma TabSays()
    ensures SaysByTable("tab", '\t')
  {
  }

  lemma BackspaceSays()
    ensures SaysByTable("backspace", '\U{8}')
  {
  }

  lemma SpaceSays()
    ensures SaysByTable("space", ' ')
  {
  }

  /** The names of the control keys and of the space bar say what they type. */
  lemma WordsSay()
    ensures Says("return", '\n') && Says("enter", '\n') && Says("tab", '\t')
    ensures Says("backspace", '\U{8}') && Says("space", ' ')
  {
    EnterSays();
    TabSays();
    BackspaceSays();
    SpaceSays();
    SpelledTypes("return", '\n');
    SpelledTypes("enter", '\n');
    SpelledTypes("tab", '\t');
    SpelledTypes("backspace", '\U{8}');
    SpelledTypes("space", ' ');
  }

  // ----- Modifiers -----

  /** A press by any spelling of the word holds just this key in addition, and a release just this key no longer. */
  ghost predicate Holds(word: string, k: Key)
  {
    forall d: Desk, name :: SameUpToCase(name, word) ==>
      && Show(d, NameEvents(name, true)).held == d.held + {k}
      && Show(d, NameEvents(name, false)).held == d.held - {k}
  }

  lemma {:induction false} PressHolds(word: string, k: Key)
    requires AllLower(word) && NamedKey(word) == Some(k)
    ensures Holds(word, k)
  {
    forall d: Desk, name | SameUpToCase(name, word)
      ensures Show(d, NameEvents(name, true)).held == d.held + {k}
      ensures Show(d, NameEvents(name, false)).held == d.held - {k}
    {
      Spelled(name, word);
      NamePlays(d, name, true);
      NamePlays(d, name, false);
    }
  }

  lemma WordCtrl()
    ensures AllLower("ctrl") && NamedKey("ctrl") == Some(LEFTCTRL)
  {
  }

  lemma WordControl()
    ensures AllLower("control") && NamedKey("control") == Some(LEFTCTRL)
  {
  }

  lemma WordShift()
    ensures AllLower("shift") && NamedKey("shift") == Some(LEFTSHIFT)
  {
  }

  lemma WordAlt()
    ensures AllLower("alt") && NamedKey("alt") == Some(LEFTALT)
  {
  }

  lemma WordMeta()
    ensures AllLower("meta") && NamedKey("meta") == Some(LEFTMETA)
  {
  }

  lemma WordCmd()
    ensures AllLower("cmd") && NamedKey("cmd") == Some(LEFTMETA)
  {
  }

  lemma WordWin()
    ensures AllLower("win") && NamedKey("win") == Some(LEFTMETA)
  {
  }

  /** The words for modifiers. */
  lemma ModifierWords()
    ensures Holds("ctrl", LEFTCTRL)
    ensures Holds("control", LEFTCTRL)
    ensures Holds("shift", LEFTSHIFT)
    ensures Holds("alt", LEFTALT)
    ensures Holds("meta", LEFTMETA)
    ensures Holds("cmd", LEFTMETA)
    ensures Holds("win", LEFTMETA)
  {
    WordCtrl();
    PressHolds("ctrl", LEFTCTRL);
    WordControl();
    PressHolds("control", LEFTCTRL);
    WordShift();
    PressHolds("shift", LEFTSHIFT);
    WordAlt();
    PressHolds("alt", LEFTALT);
    WordMeta();
    PressHolds("meta", LEFTMETA);
    WordCmd();
    PressHolds("cmd", LEFTMETA);
    WordWin();
    PressHolds("win", LEFTMETA);
  }

  // ----- Other names -----

  /** The words that stand for a key of their own. */
  predicate IsWord(s: string)
  {
    || s == "return" || s == "enter" || s == "backspace" || s == "tab" || s == "space" || s == "escape" || s == "esc"
    || s == "up" || s == "down" || s == "left" || s == "right" || s == "delete" || s == "del"
    || s == "home" || s == "end" || s == "pageup" || s == "pagedown"
    || s == "ctrl" || s == "control" || s == "shift" || s == "alt" || s == "meta" || s == "cmd" || s == "win"
  }

  /** Any other name emits what the name of its first character does. */
  lemma OtherNameIsFirst(name: string, down: bool)
    requires name != [] && !IsWord(LowerAll(name))
    ensures NameEvents(name, down) == NameEvents([name[0]], down)
  {
    NameLowers(name);
    OneLower(name[0]);
  }

  lemma OneLower(c: char)
    ensures LowerAll([c]) == [Lower(c)]
  {
    assert [c][1..] == [];
  }
}
