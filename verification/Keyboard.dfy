/** The keyboard line editor: what one key does to the screen and the line being typed. */
module Keyboard {
  import opened CStrings
  import opened Console

  const MAX_BUF := 128

  const BACKSPACE: byte := 0x0E
  const MAX_PRESS_CODE: byte := 0x7F
  const F1: byte := 0x3B
  const F3: byte := 0x3D

  // ---------------------------------------------------------------- key map

  /** The letter keys, unshifted; NUL for every other key. */
  function Letter(code: byte): (c: byte)
    ensures c == NUL || 97 <= c <= 122
  {
    match code
    case 16 => 'q' as byte case 17 => 'w' as byte case 18 => 'e' as byte case 19 => 'r' as byte
    case 20 => 't' as byte case 21 => 'y' as byte case 22 => 'u' as byte case 23 => 'i' as byte
    case 24 => 'o' as byte case 25 => 'p' as byte
    case 30 => 'a' as byte case 31 => 's' as byte case 32 => 'd' as byte case 33 => 'f' as byte
    case 34 => 'g' as byte case 35 => 'h' as byte case 36 => 'j' as byte case 37 => 'k' as byte
    case 38 => 'l' as byte
    case 44 => 'z' as byte case 45 => 'x' as byte case 46 => 'c' as byte case 47 => 'v' as byte
    case 48 => 'b' as byte case 49 => 'n' as byte case 50 => 'm' as byte
    case _ => NUL
  }

  /** The other keys; NUL for a key without a character. */
  function Symbol(code: byte, shift: bool): (c: byte)
    ensures !(65 <= c <= 90) && !(97 <= c <= 122)
  {
    match code
    case 1 => 27
    case 2 => if shift then '!' as byte else '1' as byte
    case 3 => if shift then '@' as byte else '2' as byte
    case 4 => if shift then '#' as byte else '3' as byte
    case 5 => if shift then '$' as byte else '4' as byte
    case 6 => if shift then '%' as byte else '5' as byte
    case 7 => if shift then '^' as byte else '6' as byte
    case 8 => if shift then '&' as byte else '7' as byte
    case 9 => if shift then '*' as byte else '8' as byte
    case 10 => if shift then '(' as byte else '9' as byte
    case 11 => if shift then ')' as byte else '0' as byte
    case 12 => if shift then '_' as byte else '-' as byte
    case 13 => if shift then '+' as byte else '=' as byte
    case 14 => SPACE
    case 15 => TAB
    case 26 => if shift then '{' as byte else '[' as byte
    case 27 => if shift then '}' as byte else ']' as byte
    case 28 => NEWLINE
    case 39 => if shift then ':' as byte else ';' as byte
    case 40 => if shift then '"' as byte else '`' as byte
    case 41 => if shift then '~' as byte else '`' as byte
    case 43 => if shift then '|' as byte else '\\' as byte
    case 51 => if shift then '<' as byte else ',' as byte
    case 52 => if shift then '>' as byte else '.' as byte
    case 53 => if shift then '?' as byte else '/' as byte
    case 57 => SPACE
    case 74 => '-' as byte
    case 78 => '+' as byte
    case _ => NUL
  }

  /** keyboard_map */
  function Ascii(code: byte, shift: bool): (c: byte) {
    if Letter(code) == NUL then Symbol(code, shift)
    else if shift then Letter(code) - 32
    else Letter(code)
  }

  predicate IsLetter(c: byte) {
    97 <= c <= 122 || 65 <= c <= 90
  }

  // ---------------------------------------------------------------- keys

  datatype Modifiers = Modifiers(shift: bool, caps: bool, ctrl: bool, alt: bool)

  /** keyboard_buf with its two indices; the line being typed is `buf[..idx]`. */
  datatype Line = Line(buf: seq<byte>, idx: int, last: int)

  /** A terminal as its keyboard sees it. */
  datatype Editor = Editor(screen: Screen, line: Line)

  predicate LineOk(l: Line) {
    |l.buf| == MAX_BUF + 1 && 0 <= l.last == l.idx <= MAX_BUF
  }

  function Typed(l: Line): seq<byte>
    requires LineOk(l)
  {
    l.buf[..l.idx]
  }

  /** No newline and no NUL among the typed characters. */
  predicate TextOk(l: Line) {
    LineOk(l) && NUL !in Typed(l) && NEWLINE !in Typed(l)
  }

  predicate EditorOk(e: Editor) {
    Valid(e.screen) && TextOk(e.line)
  }

  datatype Action =
    | Nothing
    | Modify(mods: Modifiers)
    | Backspace
    | Switch(term: nat)
    | ClearScreen
    | Enter
    | Debug(digit: byte)
    | Type(ch: byte)

  /** The states in which an action can come about. */
  predicate CanDo(e: Editor, a: Action) {
    && (a.Backspace? ==> e.screen.x + e.screen.y != 0)
    && (a.Switch? ==> a.term < 3)
    && (a.Type? ==> a.ch != NUL && a.ch != NEWLINE && e.line.idx != MAX_BUF)
  }

  function Released(m: Modifiers, code: byte): Modifiers {
    if code == 0xAA || code == 0xB6 then m.(shift := false)
    else if code == 0x9D then m.(ctrl := false)
    else if code == 0xB8 then m.(alt := false)
    else m
  }

  function Pressed(m: Modifiers, code: byte): Modifiers {
    if code == 0x2A || code == 0x36 then m.(shift := true)
    else if code == 0x3A then m.(caps := !m.caps)
    else if code == 0x1D then m.(ctrl := true)
    else m.(alt := true)
  }

  /** The branches of keyboard_handler: what a key code means in the current state. */
  function Decode(m: Modifiers, e: Editor, code: byte): (a: Action)
    ensures CanDo(e, a)
  {
    if code == BACKSPACE && e.screen.x + e.screen.y != 0 then Backspace
    else if code > MAX_PRESS_CODE then Modify(Released(m, code))
    else if code in {0x2A, 0x36, 0x3A, 0x1D, 0x38} then Modify(Pressed(m, code))
    else if m.alt && F1 <= code <= F3 then Switch(code - F1)
    else DecodeChar(m, e, Ascii(code, m.shift), Ascii(code, !m.shift))
  }

  /** The same, once the key is known to be a character; `other` is its other case. */
  function DecodeChar(m: Modifiers, e: Editor, ascii: byte, other: byte): (a: Action)
    requires IsLetter(ascii) ==> IsLetter(other)
    ensures CanDo(e, a)
  {
    if ascii == NUL then Nothing
    else if m.ctrl && ascii == 'l' as byte then ClearScreen
    else if ascii == NEWLINE then Enter
    else if m.ctrl && 49 <= ascii <= 53 then Debug(ascii)
    else if e.line.idx == MAX_BUF then Nothing
    else Type(if m.caps && IsLetter(ascii) then other else ascii)
  }

  // ---------------------------------------------------------------- editing

  /** keyboard_write: echo the characters from `last` up to `idx`. */
  function Echo(s: Screen, l: Line): (r: Screen)
    requires Valid(s) && 0 <= l.last <= l.idx <= |l.buf|
    ensures Valid(r)
  {
    PutAll(s, l.buf[l.last..l.idx])
  }

  predicate AtEnd(s: Screen) {
    s.x == COLS - 1 && s.y == ROWS - 1
  }

  function TypeChar(e: Editor, ch: byte): (r: Editor)
    requires Valid(e.screen) && LineOk(e.line) && e.line.idx < MAX_BUF
    ensures Valid(r.screen) && LineOk(r.line)
  {
    var s := if AtEnd(e.screen) then ScrollUp(e.screen) else e.screen;
    var l := Line(e.line.buf[e.line.idx := ch], e.line.idx + 1, e.line.last);
    Editor(Echo(s, l), Line(l.buf, l.idx, l.last + 1))
  }

  function PressEnter(e: Editor): (r: Editor)
    requires Valid(e.screen) && LineOk(e.line)
    ensures Valid(r.screen) && LineOk(r.line)
  {
    Editor(EnterScreen(e.screen), Line(e.line.buf[e.line.idx := NEWLINE], e.line.idx, e.line.last))
  }

  function EnterScreen(s: Screen): (r: Screen)
    requires Valid(s)
    ensures Valid(r)
  {
    (if s.y != ROWS - 1 then s.(y := s.y + 1) else ScrollUp(s)).(x := 0)
  }

  /** The row above the cursor has no character. */
  predicate EmptyAbove(s: Screen)
    requires Valid(s)
  {
    s.x == 0 && s.y != 0 && LastChar(s.cells, s.y - 1, 0) == -1
  }

  /** Where handle_backspace puts the cursor once the row above is known not to be empty. */
  function StepBack(s: Screen): (r: Screen)
    requires Valid(s) && (s.x != 0 || s.y != 0) && !EmptyAbove(s)
    ensures Valid(r) && !AtEnd(r) && r.cells == s.cells
  {
    if s.x == 0 then s.(x := LastChar(s.cells, s.y - 1, 0) + 1, y := s.y - 1)
    else s.(x := s.x - 1)
  }

  function Erase(e: Editor): (r: Editor)
    requires Valid(e.screen) && LineOk(e.line)
    requires e.screen.x != 0 || e.screen.y != 0
    ensures Valid(r.screen) && LineOk(r.line)
  {
    if e.line.idx == 0 then e
    else if EmptyAbove(e.screen) then e.(screen := e.screen.(y := e.screen.y - 1))
    else
      EraseHere(Editor(StepBack(e.screen), e.line))
  }

  /** The rest of handle_backspace: echo a NUL, put the cursor back, shorten the line. */
  function EraseHere(e: Editor): (r: Editor)
    requires Valid(e.screen) && LineOk(e.line) && e.line.idx > 0
    ensures Valid(r.screen) && LineOk(r.line)
  {
    var s := e.screen;
    var l := Line(e.line.buf[e.line.idx - 1 := NUL], e.line.idx, e.line.last - 1);
    Editor(Echo(s, l).(x := s.x, y := s.y), Line(l.buf, l.idx - 1, l.last))
  }

  // ---------------------------------------------------------------- one echo per key

  lemma PutOne(s: Screen, c: byte)
    requires Valid(s)
    ensures PutAll(s, [c]) == Put(s, c)
  {
    assert [c][1..] == [];
    assert PutAll(Put(s, c), []) == Put(s, c);
  }

  /** Because both indices agree between keys, a typed key echoes exactly itself. */
  lemma TypeEchoesOne(e: Editor, ch: byte)
    requires EditorOk(e) && e.line.idx < MAX_BUF
    ensures TypeChar(e, ch).screen == Put(if AtEnd(e.screen) then ScrollUp(e.screen) else e.screen, ch)
    ensures Typed(TypeChar(e, ch).line) == Typed(e.line) + [ch]
  {
    var s := if AtEnd(e.screen) then ScrollUp(e.screen) else e.screen;
    var buf := e.line.buf[e.line.idx := ch];
    assert buf[e.line.idx..e.line.idx + 1] == [ch];
    PutOne(s, ch);
  }

  /** The screen after an effective backspace: one NUL at the stepped-back cursor. */
  function EraseScreen(s: Screen): (r: Screen)
    requires Valid(s) && (s.x != 0 || s.y != 0)
    ensures Valid(r)
  {
    if EmptyAbove(s) then s.(y := s.y - 1)
    else
      var b := StepBack(s);
      b.(cells := b.cells[COLS * b.y + b.x := BLANK])
  }

  lemma EraseEchoesOne(e: Editor)
    requires EditorOk(e) && e.line.idx > 0 && (e.screen.x != 0 || e.screen.y != 0)
    ensures Erase(e).screen == EraseScreen(e.screen)
    ensures Typed(Erase(e).line) == if EmptyAbove(e.screen) then Typed(e.line) else Typed(e.line)[..e.line.idx - 1]
  {
    if !EmptyAbove(e.screen) {
      var s := StepBack(e.screen);
      var buf := e.line.buf[e.line.idx - 1 := NUL];
      assert buf[e.line.idx - 1..e.line.idx] == [NUL];
      PutOne(s, NUL);
    }
  }

  lemma EditorStaysOk(e: Editor, ch: byte)
    requires EditorOk(e)
    ensures ch != NUL && ch != NEWLINE && e.line.idx < MAX_BUF ==> EditorOk(TypeChar(e, ch))
    ensures EditorOk(PressEnter(e))
    ensures e.screen.x != 0 || e.screen.y != 0 ==> EditorOk(Erase(e))
  {
    if ch != NUL && ch != NEWLINE && e.line.idx < MAX_BUF {
      TypeEchoesOne(e, ch);
    }
    assert Typed(PressEnter(e).line) == Typed(e.line);
    if (e.screen.x != 0 || e.screen.y != 0) && e.line.idx > 0 {
      EraseEchoesOne(e);
    }
  }

  // ---------------------------------------------------------------- reading a line

  /** `s` up to and including its first newline, or up to its first NUL. */
  function Upto(s: seq<byte>): (r: seq<byte>) {
    if s == [] || s[0] == NUL then []
    else if s[0] == NEWLINE then [NEWLINE]
    else [s[0]] + Upto(s[1..])
  }

  /** Where that stops: at a NUL, just after a newline, or at the end of `s`. */
  predicate StopsAt(s: seq<byte>, u: seq<byte>) {
    && u <= s && NUL !in u
    && (forall k :: 0 <= k < |u| - 1 ==> u[k] != NEWLINE)
    && (|u| == |s| || s[|u|] == NUL || (|u| > 0 && u[|u| - 1] == NEWLINE))
    && (NUL in s || NEWLINE in s ==> |u| < |s| || (|u| > 0 && u[|u| - 1] == NEWLINE))
  }

  lemma {:induction false} UptoStops(s: seq<byte>)
    ensures StopsAt(s, Upto(s))
  {
    if s != [] && s[0] != NUL && s[0] != NEWLINE {
      UptoStops(s[1..]);
      assert s == [s[0]] + s[1..];
    }
  }

  /** What keyboard_read hands to the program; `before` is the byte in front of the buffer. */
  function LineRead(l: Line, before: byte, nbytes: nat): seq<byte> {
    if before == NEWLINE then [] else Cut(Upto(l.buf), nbytes)
  }

  lemma {:induction false} UptoSplit(a: seq<byte>, b: seq<byte>)
    requires NUL !in a && NEWLINE !in a
    ensures Upto(a + b) == a + Upto(b)
  {
    if a == [] {
      assert a + b == b;
    } else {
      assert (a + b)[0] == a[0] && (a + b)[1..] == a[1..] + b;
      UptoSplit(a[1..], b);
    }
  }

  /** Reading directly after Enter returns the typed line and its newline, cut to `nbytes`. */
  lemma EnterThenRead(e: Editor, before: byte, nbytes: nat)
    requires EditorOk(e) && before != NEWLINE
    ensures LineRead(PressEnter(e).line, before, nbytes) == Cut(Typed(e.line) + [NEWLINE], nbytes)
  {
    var buf := PressEnter(e).line.buf;
    assert buf == Typed(e.line) + buf[e.line.idx..];
    assert buf[e.line.idx..][0] == NEWLINE;
    UptoSplit(Typed(e.line), buf[e.line.idx..]);
  }
}
