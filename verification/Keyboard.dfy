/**
 Typing as printing: the key events that src/input.rs emits for a text, and a
 reference desktop that reads key events back. The desktop has a US layout, is
 deaf to a key that is already down, and composes a code point from hex digits
 between Ctrl+Shift+U and Enter.
 */
module Keyboard {
  import opened Wrappers

  datatype Key =
    | A | B | C | D | E | F | G | H | I | J | K | L | M
    | N | O | P | Q | R | S | T | U | V | W | X | Y | Z
    | D0 | D1 | D2 | D3 | D4 | D5 | D6 | D7 | D8 | D9
    | MINUS | EQUAL | LEFTBRACE | RIGHTBRACE | BACKSLASH | SEMICOLON | APOSTROPHE | GRAVE | COMMA | DOT | SLASH | SPACE
    | ENTER | TAB | BACKSPACE | ESC | DELETE | HOME | END | PAGEUP | PAGEDOWN | UP | DOWN | LEFT | RIGHT
    | LEFTCTRL | LEFTSHIFT | RIGHTSHIFT | LEFTALT | RIGHTALT | LEFTMETA | RIGHTMETA
    | BTN_LEFT | BTN_RIGHT | BTN_MIDDLE | RIGHTCTRL | CAPSLOCK

  /** The keys that the virtual keyboard announces; any other key would not arrive. */
  predicate Announced(k: Key)
  {
    match k
    case ESC | D1 | D2 | D3 | D4 | D5 | D6 | D7 | D8 | D9 | D0 | MINUS | EQUAL | BACKSPACE | TAB => true
    case Q | W | E | R | T | Y | U | I | O | P | LEFTBRACE | RIGHTBRACE | ENTER | LEFTCTRL => true
    case A | S | D | F | G | H | J | K | L | SEMICOLON | APOSTROPHE | GRAVE | LEFTSHIFT | BACKSLASH => true
    case Z | X | C | V | B | N | M | COMMA | DOT | SLASH | RIGHTSHIFT | LEFTALT | SPACE | RIGHTALT => true
    case LEFTMETA | RIGHTMETA | UP | DOWN | LEFT | RIGHT | DELETE | HOME | END | PAGEUP | PAGEDOWN => true
    case BTN_LEFT | BTN_RIGHT | BTN_MIDDLE => true
    case _ => false
  }

  datatype Event = KeyEv(key: Key, down: bool) | Syn

  // ----- The host: characters to keys -----

  function Letter(ch: char): Key
  {
    match ch
    case 'a' => A case 'b' => B case 'c' => C case 'd' => D case 'e' => E case 'f' => F case 'g' => G
    case 'h' => H case 'i' => I case 'j' => J case 'k' => K case 'l' => L case 'm' => M case 'n' => N
    case 'o' => O case 'p' => P case 'q' => Q case 'r' => R case 's' => S case 't' => T case 'u' => U
    case 'v' => V case 'w' => W case 'x' => X case 'y' => Y case 'z' => Z
    case _ => A
  }

  function Lower(ch: char): char
  {
    if 'A' <= ch <= 'Z' then (ch as int + 32) as char else ch
  }

  /** A key and whether it needs Shift. */
  datatype Stroke = Stroke(key: Key, shift: bool)

  function AsciiKey(ch: char): Option<Stroke>
  {
    if 'a' <= ch <= 'z' then Some(Stroke(Letter(ch), false))
    else if 'A' <= ch <= 'Z' then Some(Stroke(Letter(Lower(ch)), true))
    else Sign(ch)
  }

  function Sign(ch: char): Option<Stroke>
  {
    if DigitKey(ch).Some? then Some(Stroke(DigitKey(ch).value, false))
    else if PlainKey(ch).Some? then Some(Stroke(PlainKey(ch).value, false))
    else if ShiftedKey(ch).Some? then Some(Stroke(ShiftedKey(ch).value, true))
    else if ShiftedDigitKey(ch).Some? then Some(Stroke(ShiftedDigitKey(ch).value, true))
    else None
  }

  function DigitKey(ch: char): Option<Key>
  {
    match ch
    case '0' => Some(D0) case '1' => Some(D1) case '2' => Some(D2) case '3' => Some(D3) case '4' => Some(D4)
    case '5' => Some(D5) case '6' => Some(D6) case '7' => Some(D7) case '8' => Some(D8) case '9' => Some(D9)
    case _ => None
  }

  function PlainKey(ch: char): Option<Key>
  {
    match ch
    case ' ' => Some(SPACE) case '-' => Some(MINUS) case '=' => Some(EQUAL)
    case '[' => Some(LEFTBRACE) case ']' => Some(RIGHTBRACE) case '\\' => Some(BACKSLASH)
    case ';' => Some(SEMICOLON) case '\'' => Some(APOSTROPHE) case '`' => Some(GRAVE)
    case ',' => Some(COMMA) case '.' => Some(DOT) case '/' => Some(SLASH)
    case _ => None
  }

  function ShiftedKey(ch: char): Option<Key>
  {
    match ch
    case '_' => Some(MINUS) case '+' => Some(EQUAL)
    case '{' => Some(LEFTBRACE) case '}' => Some(RIGHTBRACE) case '|' => Some(BACKSLASH)
    case ':' => Some(SEMICOLON) case '\"' => Some(APOSTROPHE) case '~' => Some(GRAVE)
    case '<' => Some(COMMA) case '>' => Some(DOT) case '?' => Some(SLASH)
    case _ => None
  }

  function ShiftedDigitKey(ch: char): Option<Key>
  {
    match ch
    case '!' => Some(D1) case '@' => Some(D2) case '#' => Some(D3) case '$' => Some(D4) case '%' => Some(D5)
    case '^' => Some(D6) case '&' => Some(D7) case '*' => Some(D8) case '(' => Some(D9) case ')' => Some(D0)
    case _ => None
  }

  // ----- The desktop: keys to characters -----

  /** The unshifted letter on a key. */
  function LetterOn(k: Key): Option<char>
  {
    match k
    case A => Some('a') case B => Some('b') case C => Some('c') case D => Some('d') case E => Some('e')
    case F => Some('f') case G => Some('g') case H => Some('h') case I => Some('i') case J => Some('j')
    case K => Some('k') case L => Some('l') case M => Some('m') case N => Some('n') case O => Some('o')
    case P => Some('p') case Q => Some('q') case R => Some('r') case S => Some('s') case T => Some('t')
    case U => Some('u') case V => Some('v') case W => Some('w') case X => Some('x') case Y => Some('y')
    case Z => Some('z')
    case _ => None
  }

  /** The two characters on any other key of the layout, plain and shifted. */
  function SignsOn(k: Key): Option<(char, char)>
  {
    match k
    case D0 => Some(('0', ')')) case D1 => Some(('1', '!')) case D2 => Some(('2', '@')) case D3 => Some(('3', '#'))
    case D4 => Some(('4', '$')) case D5 => Some(('5', '%')) case D6 => Some(('6', '^')) case D7 => Some(('7', '&'))
    case D8 => Some(('8', '*')) case D9 => Some(('9', '('))
    case MINUS => Some(('-', '_')) case EQUAL => Some(('=', '+'))
    case LEFTBRACE => Some(('[', '{')) case RIGHTBRACE => Some((']', '}'))
    case BACKSLASH => Some(('\\', '|')) case SEMICOLON => Some((';', ':'))
    case APOSTROPHE => Some(('\'', '\"')) case GRAVE => Some(('`', '~'))
    case COMMA => Some((',', '<')) case DOT => Some(('.', '>')) case SLASH => Some(('/', '?'))
    case SPACE => Some((' ', ' '))
    case ENTER => Some(('\n', '\n')) case TAB => Some(('\t', '\t')) case BACKSPACE => Some(('\U{8}', '\U{8}'))
    case _ => None
  }

  function Upper(ch: char): char
  {
    if 'a' <= ch <= 'z' then (ch as int - 32) as char else ch
  }

  function Types(k: Key, shift: bool): Option<char>
  {
    match LetterOn(k)
    case Some(c) => Some(if shift then Upper(c) else c)
    case None =>
      match SignsOn(k)
      case Some(pair) => Some(if shift then pair.1 else pair.0)
      case None => None
  }

  lemma LetterRoundTrip(ch: char)
    requires 'a' <= ch <= 'z'
    ensures LetterOn(Letter(ch)) == Some(ch)
  {
  }

  /** A key carries a character, with or without Shift. */
  predicate Carries(key: Key, shift: bool, ch: char)
  {
    SignsOn(key).Some? && ch == (if shift then SignsOn(key).value.1 else SignsOn(key).value.0)
  }

  lemma NoLetterOnSigns(key: Key)
    requires SignsOn(key).Some?
    ensures LetterOn(key) == None
  {
  }

  lemma DigitReadBack(ch: char)
    requires DigitKey(ch).Some?
    ensures Carries(DigitKey(ch).value, false, ch)
  {
  }

  lemma PlainReadBack(ch: char)
    requires PlainKey(ch).Some?
    ensures Carries(PlainKey(ch).value, false, ch)
  {
  }

  lemma ShiftedReadBack(ch: char)
    requires ShiftedKey(ch).Some?
    ensures Carries(ShiftedKey(ch).value, true, ch)
  {
  }

  lemma ShiftedDigitReadBack(ch: char)
    requires ShiftedDigitKey(ch).Some?
    ensures Carries(ShiftedDigitKey(ch).value, true, ch)
  {
  }

  lemma SignRoundTrip(ch: char)
    requires Sign(ch).Some?
    ensures Carries(Sign(ch).value.key, Sign(ch).value.shift, ch)
  {
    if DigitKey(ch).Some? {
      DigitReadBack(ch);
    } else if PlainKey(ch).Some? {
      PlainReadBack(ch);
    } else if ShiftedKey(ch).Some? {
      ShiftedReadBack(ch);
    } else {
      ShiftedDigitReadBack(ch);
    }
  }

  /** The desktop reads every stroke of the host as the character it was made for. */
  lemma StrokeRoundTrip(ch: char)
    requires AsciiKey(ch).Some?
    ensures Types(AsciiKey(ch).value.key, AsciiKey(ch).value.shift) == Some(ch)
  {
    if 'a' <= ch <= 'z' {
      LetterRoundTrip(ch);
    } else if 'A' <= ch <= 'Z' {
      LetterRoundTrip(Lower(ch));
    } else {
      SignRoundTrip(ch);
      NoLetterOnSigns(Sign(ch).value.key);
    }
  }

  /** So no two characters share a stroke. */
  lemma StrokesAreDistinct(c: char, d: char)
    requires AsciiKey(c).Some? && AsciiKey(c) == AsciiKey(d)
    ensures c == d
  {
    StrokeRoundTrip(c);
    StrokeRoundTrip(d);
  }

  /** A key that types anything is announced. */
  lemma TypingKeysAreAnnounced(k: Key, shift: bool)
    requires Types(k, shift).Some?
    ensures Announced(k)
  {
  }

  /** Of the keys here only two are not announced. */
  lemma AnnouncedIs(k: Key)
    ensures Announced(k) <==> k != RIGHTCTRL && k != CAPSLOCK
  {
  }
}
