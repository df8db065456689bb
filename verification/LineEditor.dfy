/** Typing and backspacing, against a plain list of characters. */
module LineEditor {
  import opened CStrings
  import opened Console
  import opened Keyboard
  import opened Common
  import opened Terminals
  import Isolation

  /** The reference: the modifier keys and the characters typed so far. */
  datatype Draft = Draft(mods: Modifiers, text: seq<byte>)

  /** Letters are upper case when exactly one of shift and caps lock is on; caps lock spares the rest. */
  function CharOf(m: Modifiers, code: byte): byte {
    if Letter(code) == NUL then Symbol(code, m.shift)
    else if m.shift != m.caps then Letter(code) - 32
    else Letter(code)
  }

  function Pop(text: seq<byte>): seq<byte> {
    if text == [] then [] else text[..|text| - 1]
  }

  function Push(text: seq<byte>, c: byte): seq<byte> {
    if c == NUL || |text| >= MAX_BUF then text else text + [c]
  }

  function ModsAfter(m: Modifiers, code: byte): Modifiers {
    match code
    case 0x2A => m.(shift := true)
    case 0x36 => m.(shift := true)
    case 0xAA => m.(shift := false)
    case 0xB6 => m.(shift := false)
    case 0x1D => m.(ctrl := true)
    case 0x9D => m.(ctrl := false)
    case 0x38 => m.(alt := true)
    case 0xB8 => m.(alt := false)
    case 0x3A => m.(caps := !m.caps)
    case _ => m
  }

  function Strike(d: Draft, code: byte): Draft {
    if code == BACKSPACE then Draft(d.mods, Pop(d.text))
    else Draft(ModsAfter(d.mods, code), Push(d.text, CharOf(d.mods, code)))
  }

  function StrikeAll(d: Draft, codes: seq<byte>): Draft
    decreases |codes|
  {
    if codes == [] then d else StrikeAll(Strike(d, codes[0]), codes[1..])
  }

  function DraftOf(s: State): Draft
    requires Safe(s)
  {
    Draft(s.mods, Typed(s.live.line))
  }

  /** Backspace works unless the cursor is at the origin, or at the left edge below an empty row. */
  predicate BackOk(e: Editor)
    requires EditorOk(e)
  {
    var s := e.screen;
    && !(s.x == 0 && s.y == 0)
    && (e.line.idx == 0 || !(s.x == 0 && s.cells[COLS * (s.y - 1)].ch == NUL))
  }

  /** At the origin the key types a space, or does nothing on a full line. */
  lemma OriginNeverPops(s: State, outcome: Outcome, dump: seq<Output>)
    requires Safe(s) && s.live.screen.x == 0 && s.live.screen.y == 0
    ensures DraftOf(Press(s, BACKSPACE, outcome, dump)) != Strike(DraftOf(s), BACKSPACE)
  {
    assert Ascii(BACKSPACE, s.mods.shift) == SPACE;
    var a := Decode(s.mods, s.live, BACKSPACE);
    if s.live.line.idx < MAX_BUF {
      assert a == Type(SPACE);
      TypeEchoesOne(s.live, SPACE);
    } else {
      assert a == Nothing;
    }
  }

  lemma EmptyAboveExact(s: Screen)
    requires Valid(s) && s.x == 0 && s.y != 0
    ensures EmptyAbove(s) <==> s.cells[COLS * (s.y - 1)].ch == NUL
  {
  }

  /** Exactly then does the backspace key drop the last typed character and nothing else. */
  lemma BackspaceExact(s: State, outcome: Outcome, dump: seq<Output>)
    requires Safe(s)
    ensures DraftOf(Press(s, BACKSPACE, outcome, dump)) == Strike(DraftOf(s), BACKSPACE) <==> BackOk(s.live)
  {
    var e := s.live;
    if e.screen.x == 0 && e.screen.y == 0 {
      OriginNeverPops(s, outcome, dump);
    } else {
      assert Decode(s.mods, e, BACKSPACE) == Backspace;
      if e.line.idx > 0 {
        EraseEchoesOne(e);
        if e.screen.x == 0 {
          EmptyAboveExact(e.screen);
        }
      }
    }
  }

  /** The keys that type: every key but Enter, Alt+F1..F3, Ctrl+L and Ctrl+1..5. */
  predicate Types(s: State, code: byte) {
    var a := Decode(s.mods, s.live, code);
    code != BACKSPACE && (a.Nothing? || a.Modify? || a.Type?)
  }

  lemma CharAgrees(m: Modifiers, code: byte)
    ensures var ascii := Ascii(code, m.shift);
            (if m.caps && IsLetter(ascii) then Ascii(code, !m.shift) else ascii) == CharOf(m, code)
  {
  }

  /** What the reference makes of action `a`, into which the handler has decoded a typing key. */
  predicate Agrees(m: Modifiers, e: Editor, code: byte, a: Action) {
    && (a.Modify? ==> a.mods == ModsAfter(m, code) && CharOf(m, code) == NUL)
    && (a.Nothing? ==> ModsAfter(m, code) == m && (CharOf(m, code) == NUL || e.line.idx == MAX_BUF))
    && (a.Type? ==> ModsAfter(m, code) == m && CharOf(m, code) == a.ch)
  }

  lemma ModifiersAgree(m: Modifiers, e: Editor, code: byte)
    requires code > MAX_PRESS_CODE || code in {0x2A, 0x36, 0x3A, 0x1D, 0x38}
    ensures Agrees(m, e, code, Decode(m, e, code))
  {
  }

  lemma CharsAgree(m: Modifiers, e: Editor, code: byte, ascii: byte, other: byte)
    requires code <= MAX_PRESS_CODE && code !in {0x2A, 0x36, 0x3A, 0x1D, 0x38} && (IsLetter(ascii) ==> IsLetter(other))
    requires ascii == NUL ==> CharOf(m, code) == NUL
    requires CharOf(m, code) == if m.caps && IsLetter(ascii) then other else ascii
    ensures Agrees(m, e, code, DecodeChar(m, e, ascii, other))
  {
  }

  /** What the handler makes of a typing key, in the reference's terms. */
  lemma DecodeAgrees(m: Modifiers, e: Editor, code: byte)
    requires code != BACKSPACE && LineOk(e.line)
    ensures Agrees(m, e, code, Decode(m, e, code))
  {
    if code > MAX_PRESS_CODE || code in {0x2A, 0x36, 0x3A, 0x1D, 0x38} {
      ModifiersAgree(m, e, code);
    } else {
      CharAgrees(m, code);
      CharsAgree(m, e, code, Ascii(code, m.shift), Ascii(code, !m.shift));
    }
  }

  lemma TypedKey(s: State, code: byte, outcome: Outcome, dump: seq<Output>)
    requires Safe(s) && Types(s, code)
    ensures DraftOf(Press(s, code, outcome, dump)) == Strike(DraftOf(s), code)
  {
    DecodeAgrees(s.mods, s.live, code);
    TypedAction(s, Decode(s.mods, s.live, code), code, outcome, dump);
  }

  lemma TypedAction(s: State, a: Action, code: byte, outcome: Outcome, dump: seq<Output>)
    requires Safe(s) && code != BACKSPACE && CanDo(s.live, a)
    requires match a
             case Modify(m) => m == ModsAfter(s.mods, code) && CharOf(s.mods, code) == NUL
             case Nothing => ModsAfter(s.mods, code) == s.mods && (CharOf(s.mods, code) == NUL || s.live.line.idx == MAX_BUF)
             case Type(ch) => ModsAfter(s.mods, code) == s.mods && CharOf(s.mods, code) == ch
             case _ => false
    ensures DraftOf(Do(s, a, outcome, dump)) == Strike(DraftOf(s), code)
  {
    if a.Type? {
      TypeEchoesOne(s.live, a.ch);
    }
  }

  function Keys(s: State, codes: seq<byte>): (r: State)
    requires Safe(s)
    ensures Safe(r)
    decreases |codes|
  {
    if codes == [] then s else Keys(Press(s, codes[0], Started, []), codes[1..])
  }

  predicate Editing(s: State, codes: seq<byte>)
    requires Safe(s)
    decreases |codes|
  {
    codes == [] ||
    ((if codes[0] == BACKSPACE then BackOk(s.live) else Types(s, codes[0])) &&
     Editing(Press(s, codes[0], Started, []), codes[1..]))
  }

  /** Any run of typing and backspacing leaves exactly the push/pop list, capped at 128. */
  lemma {:induction false} EditsAreList(s: State, codes: seq<byte>)
    requires Safe(s) && Editing(s, codes)
    ensures DraftOf(Keys(s, codes)) == StrikeAll(DraftOf(s), codes)
    ensures var text := StrikeAll(DraftOf(s), codes).text;
            |text| <= MAX_BUF && NUL !in text && NEWLINE !in text
    decreases |codes|
  {
    if codes != [] {
      if codes[0] == BACKSPACE {
        BackspaceExact(s, Started, []);
      } else {
        TypedKey(s, codes[0], Started, []);
      }
      EditsAreList(Press(s, codes[0], Started, []), codes[1..]);
    }
  }

  const ENTER: byte := 28

  /** A line typed, edited and entered is the line keyboard_read returns. */
  lemma TypeEnterRead(s: State, codes: seq<byte>, before: byte, nbytes: nat)
    requires Safe(s) && Editing(s, codes) && before != NEWLINE
    ensures LineRead(Press(Keys(s, codes), ENTER, Started, []).live.line, before, nbytes)
            == Cut(StrikeAll(DraftOf(s), codes).text + [NEWLINE], nbytes)
  {
    var k := Keys(s, codes);
    EditsAreList(s, codes);
    assert Decode(k.mods, k.live, ENTER) == Enter;
    EnterThenRead(k.live, before, nbytes);
  }

  // ---------------------------------------------------------------- whose line a reader gets

  function Entered(s: State): (r: State)
    requires Safe(s)
    ensures Safe(r)
  {
    Do(s, Enter, Started, [])
  }

  /** What the program in the executing terminal gets from a read directly after Enter. */
  function ReadAfterEnter(s: State, before: byte, nbytes: nat): seq<byte>
    requires Safe(s)
  {
    LineRead(Entered(s).live.line, before, nbytes)
  }

  /** It is the line typed in the terminal shown, whichever terminal the reader belongs to. */
  lemma ReadsShownLine(s: State, before: byte, nbytes: nat)
    requires Safe(s) && before != NEWLINE
    ensures ReadAfterEnter(s, before, nbytes) == Cut(Isolation.LineOf(s, s.shown) + [NEWLINE], nbytes)
  {
    EnterThenRead(s.live, before, nbytes);
  }

  /** When the byte before the buffer happens to be a newline, nothing is read. */
  lemma NothingRead(l: Line, nbytes: nat)
    ensures LineRead(l, 10, nbytes) == []
  {
  }

  /** In every state with these terminals executing and shown, a reader whose wait is over gets its own line. */
  ghost predicate GetsOwnLine(exec: nat, shown: nat) {
    forall s: State, before: byte, nbytes: nat ::
      Safe(s) && s.exec == exec && s.shown == shown && Entered(s).terms[exec].enter && before != NEWLINE ==>
      ReadAfterEnter(s, before, nbytes) == Cut(Isolation.LineOf(s, exec) + [NEWLINE], nbytes)
  }

  /** After boot, with one character typed, terminal `shown` on display and a released reader in `exec`. */
  function Typing(exec: nat, shown: nat): (s: State)
    requires exec < TERMS && shown < TERMS
    ensures Safe(s)
  {
    var b := Boot();
    EditorStaysOk(b.live, 97);
    State(TypeChar(b.live, 97), b.terms[exec := b.terms[exec].(enter := true)], shown, exec, b.mods)
  }

  /** A reader always gets its own terminal's line if and only if its terminal is the one shown. */
  lemma OwnLineExact(exec: nat, shown: nat)
    requires exec < TERMS && shown < TERMS
    ensures GetsOwnLine(exec, shown) <==> exec == shown
  {
    if exec == shown {
      forall s: State, before: byte, nbytes: nat | Safe(s) && s.exec == exec && s.shown == shown && before != NEWLINE
        ensures ReadAfterEnter(s, before, nbytes) == Cut(Isolation.LineOf(s, exec) + [NEWLINE], nbytes)
      {
        ReadsShownLine(s, before, nbytes);
      }
    } else {
      var s := Typing(exec, shown);
      TypeEchoesOne(Boot().live, 97);
      assert Isolation.LineOf(s, shown) == [97] && Isolation.LineOf(s, exec) == [];
      ReadsShownLine(s, SPACE, 2);
    }
  }
}
