/** What the keys are and what backspace and Enter do, in terms of codes, cells and columns. */
module KeyLaws {
  import opened CStrings
  import opened Console
  import opened Keyboard

  // ---------------------------------------------------------------- the key map

  /** keyboard_map as the rows of a keyboard; every other key has no character. */
  lemma KeyTable(code: byte, shift: bool)
    ensures 2 <= code <= 13 ==> Ascii(code, shift) as char == (if shift then "!@#$%^&*()_+" else "1234567890-=")[code - 2]
    ensures 16 <= code <= 27 ==> Ascii(code, shift) as char == (if shift then "QWERTYUIOP{}" else "qwertyuiop[]")[code - 16]
    ensures 30 <= code <= 41 ==> Ascii(code, shift) as char == (if shift then "ASDFGHJKL:\"~" else "asdfghjkl;``")[code - 30]
    ensures 43 <= code <= 53 ==> Ascii(code, shift) as char == (if shift then "|ZXCVBNM<>?" else "\\zxcvbnm,./")[code - 43]
    ensures code == 28 ==> Ascii(code, shift) == 10
    ensures code == 14 || code == 57 ==> Ascii(code, shift) == 32
    ensures code == 1 ==> Ascii(code, shift) == 27
    ensures code == 15 ==> Ascii(code, shift) == 9
    ensures code == 74 ==> Ascii(code, shift) as char == '-'
    ensures code == 78 ==> Ascii(code, shift) as char == '+'
    ensures code in {0, 29, 42, 54, 55, 56} || (58 <= code && code != 74 && code != 78) ==> Ascii(code, shift) == 0
  {
  }

  predicate IsModifier(code: byte) {
    code > 0x7F || code in {0x2A, 0x36, 0x3A, 0x1D, 0x38}
  }

  /** Which keys are commands, and which terminal or digit they name. */
  lemma CommandsAre(m: Modifiers, e: Editor, code: byte)
    ensures var a := Decode(m, e, code);
            && (a.Backspace? <==> code == 14 && e.screen.x + e.screen.y != 0)
            && (a.Modify? <==> IsModifier(code))
            && (a.Switch? <==> m.alt && 59 <= code <= 61) && (a.Switch? ==> a.term == code - 59)
            && (a.Enter? <==> code == 28)
            && (a.ClearScreen? <==> m.ctrl && !m.shift && code == 38)
            && (a.Debug? <==> m.ctrl && !m.shift && 2 <= code <= 6) && (a.Debug? ==> a.digit == code + 47)
  {
    if code <= MAX_PRESS_CODE {
      LettersAre(code, m.shift);
    }
  }

  /** The keys that give the characters the handler looks for. */
  lemma LettersAre(code: byte, shift: bool)
    requires code <= MAX_PRESS_CODE
    ensures Ascii(code, shift) == 108 <==> code == 38 && !shift
    ensures Ascii(code, shift) == 10 <==> code == 28
    ensures 49 <= Ascii(code, shift) <= 53 <==> 2 <= code <= 6 && !shift
    ensures 49 <= Ascii(code, shift) <= 53 ==> Ascii(code, shift) == code + 47
    ensures Ascii(code, shift) != CARRIAGE_RETURN
  {
  }

  // ---------------------------------------------------------------- backspace

  lemma EraseNothing(e: Editor)
    requires EditorOk(e) && e.line.idx == 0 && (e.screen.x != 0 || e.screen.y != 0)
    ensures Erase(e) == e
  {
  }

  /** Within a row: back by one column, and the cell there becomes blank. */
  lemma EraseInRow(e: Editor, x: int, y: int)
    requires EditorOk(e) && e.line.idx > 0 && x == e.screen.x > 0 && y == e.screen.y
    ensures Erase(e).screen == Screen(e.screen.cells[80 * y + x - 1 := Cell(0, 7)], x - 1, y)
    ensures Typed(Erase(e).line) == Typed(e.line)[..e.line.idx - 1]
  {
    EraseEchoesOne(e);
  }

  /** `c` is the column of the first NUL of row `y`, 80 if it has none. */
  predicate FirstNulAt(cells: seq<Cell>, y: int, c: int)
    requires |cells| == CELLS && 0 <= y < ROWS
  {
    && 0 <= c <= 80
    && (forall k :: 80 * y <= k < 80 * y + c ==> cells[k].ch != 0)
    && (c < 80 ==> cells[80 * y + c].ch == 0)
  }

  lemma LastBeforeNul(cells: seq<Cell>, y: nat, c: int)
    requires |cells| == CELLS && y < ROWS && FirstNulAt(cells, y, c)
    ensures LastChar(cells, y, 0) == c - 1
  {
    LastCharIs(cells, y, 0, LastChar(cells, y, 0));
  }

  /** At the start of a row: to the column after the text of the row above, and that cell becomes blank. */
  lemma EraseAcross(e: Editor, y: int, c: int)
    requires EditorOk(e) && e.line.idx > 0 && e.screen.x == 0 && y == e.screen.y > 0
    requires FirstNulAt(e.screen.cells, y - 1, c)
    ensures c == 0 ==> Erase(e) == e.(screen := Screen(e.screen.cells, 0, y - 1))
    ensures c > 0 ==> Erase(e).screen == Screen(e.screen.cells[80 * (y - 1) + c := Cell(0, 7)], c, y - 1)
    ensures c > 0 ==> Typed(Erase(e).line) == Typed(e.line)[..e.line.idx - 1]
  {
    LastBeforeNul(e.screen.cells, y - 1, c);
    BackAcross(e.screen, y, c);
    EraseEchoesOne(e);
  }

  lemma BackAcross(s: Screen, y: int, c: int)
    requires Valid(s) && s.x == 0 && y == s.y > 0 && LastChar(s.cells, y - 1, 0) == c - 1
    ensures EraseScreen(s) ==
            if c == 0 then Screen(s.cells, 0, y - 1)
            else Screen(s.cells[80 * (y - 1) + c := Cell(0, 7)], c, y - 1)
    ensures EmptyAbove(s) <==> c == 0
  {
  }

  /** Where a typed character leaves the cursor, from each kind of place. */
  lemma TypedCursor(e: Editor, ch: byte)
    requires EditorOk(e) && e.line.idx < MAX_BUF && ch != NUL && ch != NEWLINE && ch != CARRIAGE_RETURN
    ensures var t, x, y := TypeChar(e, ch), e.screen.x, e.screen.y;
            && EditorOk(t) && t.line.idx == e.line.idx + 1 && Typed(t.line) == Typed(e.line) + [ch]
            && (x < 79 ==> t.screen == Screen(e.screen.cells[80 * y + x := Cell(ch, 7)], x + 1, y))
            && (x == 79 && y < 24 ==> t.screen == Screen(e.screen.cells[80 * y + 79 := Cell(ch, 7)], 0, y + 1))
            && (x == 79 && y == 24 ==> t.screen.x == 1 && t.screen.y == 24)
            && (x == 80 ==> t.screen.x == 1 && t.screen.y == y)
  {
    TypeEchoesOne(e, ch);
    EditorStaysOk(e, ch);
  }

  /**
   * Backspace directly after a typed key takes the cursor back if and only if the key was not typed in
   * the last column or beyond; then the typed cell is blank and all else is as before the key.
   */
  lemma TypeThenBackspace(e: Editor, ch: byte)
    requires EditorOk(e) && e.line.idx < MAX_BUF && ch != NUL && ch != NEWLINE && ch != CARRIAGE_RETURN
    ensures var t := TypeChar(e, ch);
            && (t.screen.x != 0 || t.screen.y != 0)
            && var r := Erase(t);
            && (r.screen.x == e.screen.x && r.screen.y == e.screen.y <==> e.screen.x < 79)
            && (e.screen.x < 79 ==>
                  && r.screen.cells == e.screen.cells[80 * e.screen.y + e.screen.x := Cell(0, 7)]
                  && Typed(r.line) == Typed(e.line))
  {
    var t, x, y := TypeChar(e, ch), e.screen.x, e.screen.y;
    TypedCursor(e, ch);
    if x == 79 && y < 24 {
      BackOverEdge(t, y + 1);
    } else {
      EraseInRow(t, t.screen.x, t.screen.y);
    }
  }

  /** A backspace over a row whose last cell is not NUL never goes to that cell. */
  lemma BackOverEdge(t: Editor, y: int)
    requires EditorOk(t) && t.line.idx > 0 && t.screen.x == 0 && y == t.screen.y > 0
    requires t.screen.cells[80 * (y - 1) + 79].ch != NUL
    ensures Erase(t).screen.x != 79
  {
    var r := LastChar(t.screen.cells, y - 1, 0);
    LastCharIs(t.screen.cells, y - 1, 0, r);
    assert r != 78;
    EraseAcross(t, y, r + 1);
  }

  // ---------------------------------------------------------------- Enter

  /** Enter does to the screen what a newline printed there does. */
  lemma EnterIsNewline(e: Editor)
    requires EditorOk(e)
    ensures PressEnter(e).screen == Put(e.screen, 10)
    ensures PressEnter(e).line.buf == e.line.buf[e.line.idx := 10] && Typed(PressEnter(e).line) == Typed(e.line)
  {
  }

  /** Exactly newline and carriage return end a line; anything else is written where the cursor is. */
  lemma LineEnds(s: Screen, c: byte)
    requires Valid(s) && s.y < 24
    ensures c == 10 || c == 13 ==> Put(s, c) == Screen(s.cells, 0, s.y + 1)
    ensures c != 10 && c != 13 ==> Put(s, c).cells == s.cells[80 * s.y + s.x := Cell(c, 7)]
  {
  }
}
