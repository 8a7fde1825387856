/**
 A second reference desktop, for the keys that type nothing: a text with a
 caret, which the arrow keys, Home, End, Page Up and Page Down move, at which
 Enter, Backspace, Delete and characters edit, and a menu that Escape closes.
 It reads key events in reports, like the first.
 */
module Editor {
  import opened Wrappers
  import opened Keyboard
  import opened Reports
  import opened Typing

  /** The lines above the caret's, the caret's line on its two sides, the lines below; the height of a page; the menu. */
  datatype Page = Page(held: set<Key>, above: seq<string>, left: string, right: string, below: seq<string>,
                       height: nat, menuOpen: bool)

  datatype Intent =
    | Insert(c: char) | BreakLine | EraseBefore | EraseAfter
    | MoveUp | MoveDown | MoveLeft | MoveRight | LineStart | LineEnd | PageBack | PageOn
    | CloseMenu

  function Up(p: Page): Page
  {
    if p.above == [] then p
    else
      var n := |p.above| - 1;
      var line := p.above[n];
      var col := if |p.left| < |line| then |p.left| else |line|;
      p.(above := p.above[..n], left := line[..col], right := line[col..], below := [p.left + p.right] + p.below)
  }

  function Down(p: Page): Page
  {
    if p.below == [] then p
    else
      var line := p.below[0];
      var col := if |p.left| < |line| then |p.left| else |line|;
      p.(above := p.above + [p.left + p.right], left := line[..col], right := line[col..], below := p.below[1..])
  }

  function UpBy(p: Page, n: nat): Page
  {
    if n == 0 then p else Up(UpBy(p, n - 1))
  }

  function DownBy(p: Page, n: nat): Page
  {
    if n == 0 then p else Down(DownBy(p, n - 1))
  }

  function Perform(p: Page, i: Intent): Page
  {
    match i
    case Insert(c) => p.(left := p.left + [c])
    case BreakLine => p.(above := p.above + [p.left], left := [])
    case EraseBefore =>
      if p.left != [] then p.(left := p.left[..|p.left| - 1])
      else if p.above != [] then p.(above := p.above[..|p.above| - 1], left := p.above[|p.above| - 1])
      else p
    case EraseAfter =>
      if p.right != [] then p.(right := p.right[1..])
      else if p.below != [] then p.(right := p.below[0], below := p.below[1..])
      else p
    case MoveUp => Up(p)
    case MoveDown => Down(p)
    case MoveLeft =>
      if p.left != [] then p.(left := p.left[..|p.left| - 1], right := [p.left[|p.left| - 1]] + p.right)
      else if p.above != [] then
        p.(above := p.above[..|p.above| - 1], left := p.above[|p.above| - 1], right := [], below := [p.right] + p.below)
      else p
    case MoveRight =>
      if p.right != [] then p.(left := p.left + [p.right[0]], right := p.right[1..])
      else if p.below != [] then
        p.(above := p.above + [p.left], left := [], right := p.below[0], below := p.below[1..])
      else p
    case LineStart => p.(left := [], right := p.left + p.right)
    case LineEnd => p.(left := p.left + p.right, right := [])
    case PageBack => UpBy(p, p.height)
    case PageOn => DownBy(p, p.height)
    case CloseMenu => p.(menuOpen := false)
  }

  /** What a key means where it is typed, with or without Shift. */
  function Meaning(k: Key, shift: bool): Option<Intent>
  {
    match k
    case ENTER => Some(BreakLine)
    case BACKSPACE => Some(EraseBefore)
    case DELETE => Some(EraseAfter)
    case UP => Some(MoveUp)
    case DOWN => Some(MoveDown)
    case LEFT => Some(MoveLeft)
    case RIGHT => Some(MoveRight)
    case HOME => Some(LineStart)
    case END => Some(LineEnd)
    case PAGEUP => Some(PageBack)
    case PAGEDOWN => Some(PageOn)
    case ESC => Some(CloseMenu)
    case _ =>
      match Types(k, shift)
      case Some(c) => Some(Insert(c))
      case None => None
  }

  /** A key goes down that was up. */
  function Struck(p: Page, k: Key): Page
  {
    if IsModifier(k) || CommandHeld(p.held) then p
    else
      match Meaning(k, ShiftHeld(p.held))
      case Some(i) => Perform(p, i)
      case None => p
  }

  function ReactPage(p: Page, e: Event): Page
  {
    match e
    case Syn => p
    case KeyEv(k, false) => p.(held := p.held - {k})
    case KeyEv(k, true) => if k in p.held then p else Struck(p, k).(held := p.held + {k})
  }

  function PlayPage(p: Page, evs: seq<Event>): Page
  {
    if evs == [] then p else ReactPage(PlayPage(p, evs[..|evs| - 1]), evs[|evs| - 1])
  }

  /** What becomes of the page: it reacts to what is delivered to it. */
  function ShowPage(p: Page, evs: seq<Event>): Page
  {
    PlayPage(p, Delivered(evs))
  }

  lemma {:induction false} PlayPageThen(p: Page, evs: seq<Event>, e: Event)
    ensures PlayPage(p, evs + [e]) == ReactPage(PlayPage(p, evs), e)
  {
    assert (evs + [e])[..|evs|] == evs;
  }

  lemma UpKeepsHeld(p: Page)
    ensures Up(p).held == Down(p).held == p.held
  {
  }

  lemma {:induction false} UpByKeepsHeld(p: Page, n: nat)
    ensures UpBy(p, n).held == DownBy(p, n).held == p.held
  {
    if n > 0 {
      UpByKeepsHeld(p, n - 1);
    }
  }

  lemma PerformKeepsHeld(p: Page, i: Intent)
    ensures Perform(p, i).held == p.held
  {
    UpByKeepsHeld(p, p.height);
  }

  lemma {:induction false} OneReport(p: Page, evs: seq<Event>, e: Event)
    ensures PlayPage(p, evs + [e, Syn]) == ReactPage(PlayPage(p, evs), e)
  {
    PlayPageThen(p, evs, e);
    PlayPageThen(p, evs + [e], Syn);
    assert evs + [e, Syn] == evs + [e] + [Syn];
  }

  lemma TapIsTwoReports(k: Key)
    requires k != LEFTSHIFT
    ensures Delivered(TapEvents(k, false)) == [] + [KeyEv(k, true), Syn] + [KeyEv(k, false), Syn]
  {
    TapNeat(k, false);
    NeatDelivered(TapEvents(k, false));
  }

  /** A tap of a key that is no modifier acts once, unless the key is down or a command modifier is held. */
  lemma {:induction false} TapOnPage(p: Page, k: Key)
    requires !IsModifier(k)
    ensures ShowPage(p, TapEvents(k, false)) ==
            (if k in p.held then p else Struck(p, k)).(held := p.held - {k})
  {
    TapIsTwoReports(k);
    OneReport(p, [], KeyEv(k, true));
    OneReport(p, [] + [KeyEv(k, true), Syn], KeyEv(k, false));
    DownAndUp(p, k);
  }

  lemma {:induction false} DownAndUp(p: Page, k: Key)
    requires !IsModifier(k)
    ensures ReactPage(ReactPage(p, KeyEv(k, true)), KeyEv(k, false)) ==
            (if k in p.held then p else Struck(p, k)).(held := p.held - {k})
  {
    assert p.held + {k} - {k} == p.held - {k};
  }

  // ----- What the intents are -----

  function Lines(p: Page): seq<string>
  {
    p.above + [p.left + p.right] + p.below
  }

  predicate MovesCaret(i: Intent)
  {
    match i
    case MoveUp | MoveDown | MoveLeft | MoveRight | LineStart | LineEnd | PageBack | PageOn | CloseMenu => true
    case _ => false
  }

  lemma {:induction false} UpKeepsLines(p: Page)
    ensures Lines(Up(p)) == Lines(p)
    ensures p.above != [] ==> |Up(p).above| == |p.above| - 1
  {
    if p.above != [] {
      var n := |p.above| - 1;
      assert p.above == p.above[..n] + [p.above[n]];
      assert Up(p).left + Up(p).right == p.above[n];
    }
  }

  lemma {:induction false} DownKeepsLines(p: Page)
    ensures Lines(Down(p)) == Lines(p)
    ensures p.below != [] ==> |Down(p).above| == |p.above| + 1
  {
    if p.below != [] {
      assert p.below == [p.below[0]] + p.below[1..];
      assert Down(p).left + Down(p).right == p.below[0];
    }
  }

  lemma {:induction false} UpByKeepsLines(p: Page, n: nat)
    ensures Lines(UpBy(p, n)) == Lines(DownBy(p, n)) == Lines(p)
  {
    if n > 0 {
      UpByKeepsLines(p, n - 1);
      UpKeepsLines(UpBy(p, n - 1));
      DownKeepsLines(DownBy(p, n - 1));
    }
  }

  /** Moving the caret changes no line. */
  lemma {:induction false} CaretKeepsLines(p: Page, i: Intent)
    requires MovesCaret(i)
    ensures Lines(Perform(p, i)) == Lines(p)
  {
    UpKeepsLines(p);
    DownKeepsLines(p);
    UpByKeepsLines(p, p.height);
    if i == MoveLeft {
      LeftKeepsLines(p);
    } else if i == MoveRight {
      RightKeepsLines(p);
    } else {
      assert [] + (p.left + p.right) == p.left + p.right == p.left + p.right + [];
    }
  }

  lemma {:induction false} LeftKeepsLines(p: Page)
    ensures Lines(Perform(p, MoveLeft)) == Lines(p)
  {
    var q := Perform(p, MoveLeft);
    if p.left != [] {
      assert q.left + q.right == p.left + p.right;
    } else if p.above != [] {
      assert p.above == q.above + [q.left];
      assert q.left + q.right == q.left && p.left + p.right == p.right;
    }
  }

  lemma {:induction false} RightKeepsLines(p: Page)
    ensures Lines(Perform(p, MoveRight)) == Lines(p)
  {
    var q := Perform(p, MoveRight);
    if p.right != [] {
      assert q.left + q.right == p.left + p.right;
    } else if p.below != [] {
      assert p.below == [q.right] + q.below;
      assert q.left + q.right == q.right && p.left + p.right == p.left;
    }
  }

  /** Backspace undoes a character and a line break. */
  lemma {:induction false} TypedIsUndone(p: Page, c: char)
    ensures Perform(Perform(p, Insert(c)), EraseBefore) == p
    ensures Perform(Perform(p, BreakLine), EraseBefore) == p
  {
  }

  lemma {:induction false} LeftIsUndone(p: Page)
    requires p.left != [] || p.above != []
    ensures Perform(Perform(p, MoveLeft), MoveRight) == p
  {
    var q := Perform(p, MoveLeft);
    if p.left != [] {
      assert q.left + [q.right[0]] == p.left && q.right[1..] == p.right;
    } else {
      assert q.above + [q.left] == p.above && q.below[0] == p.right && q.below[1..] == p.below;
    }
  }

  lemma {:induction false} RightIsUndone(p: Page)
    requires p.right != [] || p.below != []
    ensures Perform(Perform(p, MoveRight), MoveLeft) == p
  {
    var q := Perform(p, MoveRight);
    if p.right != [] {
      assert q.left[..|q.left| - 1] == p.left && [q.left[|q.left| - 1]] + q.right == p.right;
    } else {
      assert q.above[..|q.above| - 1] == p.above && [q.right] + q.below == p.below;
    }
  }

  /** The opposite arrow undoes a step, at the end of a line too. */
  lemma {:induction false} StepIsUndone(p: Page)
    ensures p.left != [] || p.above != [] ==> Perform(Perform(p, MoveLeft), MoveRight) == p
    ensures p.right != [] || p.below != [] ==> Perform(Perform(p, MoveRight), MoveLeft) == p
  {
    if p.left != [] || p.above != [] {
      LeftIsUndone(p);
    }
    if p.right != [] || p.below != [] {
      RightIsUndone(p);
    }
  }

  /** Delete erases what a step to the right and Backspace would. */
  lemma {:induction false} DeleteIsRightAndBack(p: Page)
    ensures Perform(p, EraseAfter) == Perform(Perform(p, MoveRight), EraseBefore) || (p.right == [] && p.below == [])
  {
    if p.right != [] {
      assert p.left + [p.right[0]] != [];
    } else if p.below != [] {
      assert (p.above + [p.left])[..|p.above|] == p.above;
    }
  }
}
