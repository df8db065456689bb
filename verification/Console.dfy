/** The text console of lib.c: one 80 by 25 screen, its cursor, and scrolling. */
module Console {
  import opened CStrings

  const COLS := 80
  const ROWS := 25
  const CELLS := 2000
  const ATTRIB: byte := 7

  /** A character cell of text-mode video memory: the character and its attribute byte. */
  datatype Cell = Cell(ch: byte, attr: byte)

  const BLANK := Cell(NUL, ATTRIB)

  /** What a terminal shows: its cells in row order and its cursor. */
  datatype Screen = Screen(cells: seq<Cell>, x: int, y: int)

  /**
   * Column 80 is reachable (backspacing over a full row), but never on the last
   * row, so the cell under the cursor always exists.
   */
  predicate CursorOk(x: int, y: int) {
    0 <= y < ROWS && 0 <= x <= COLS && (x == COLS ==> y < ROWS - 1)
  }

  predicate Valid(s: Screen) {
    |s.cells| == CELLS && CursorOk(s.x, s.y)
  }

  predicate IsLineEnd(c: byte) {
    c == NEWLINE || c == CARRIAGE_RETURN
  }

  function Cleared(): (r: Screen)
    ensures Valid(r) && forall k :: 0 <= k < CELLS ==> r.cells[k] == BLANK
  {
    Screen(seq(CELLS, _ => BLANK), 0, 0)
  }

  /** The cells after vert_scroll: every row moves up one and the last row is blank. */
  function Scrolled(cells: seq<Cell>): (r: seq<Cell>)
    requires |cells| == CELLS
    ensures |r| == CELLS
  {
    seq(CELLS, k requires 0 <= k < CELLS => ScrolledCell(cells, k))
  }

  function ScrolledCell(cells: seq<Cell>, k: nat): Cell
    requires |cells| == CELLS && k < CELLS
  {
    if k < CELLS - COLS then Cell(cells[k + COLS].ch, ATTRIB) else BLANK
  }

  function ScrollUp(s: Screen): (r: Screen)
    requires |s.cells| == CELLS
    ensures Valid(r)
  {
    Screen(Scrolled(s.cells), 0, ROWS - 1)
  }

  /** One character on one screen. */
  function Put(s: Screen, c: byte): (r: Screen)
    requires Valid(s)
    ensures Valid(r)
  {
    if IsLineEnd(c) then
      if s.y == ROWS - 1 then ScrollUp(s) else s.(x := 0, y := s.y + 1)
    else
      var written := s.(cells := s.cells[COLS * s.y + s.x := Cell(c, ATTRIB)]);
      if s.x == COLS - 1 && s.y == ROWS - 1 then ScrollUp(written)
      else
        var x := (s.x + 1) % COLS;
        written.(x := x, y := if x == 0 then s.y + 1 else s.y)
  }

  function PutAll(s: Screen, text: seq<byte>): (r: Screen)
    requires Valid(s)
    ensures Valid(r)
    decreases |text|
  {
    if text == [] then s else PutAll(Put(s, text[0]), text[1..])
  }

  lemma {:induction false} PutAllAppend(s: Screen, a: seq<byte>, b: seq<byte>)
    requires Valid(s)
    ensures PutAll(s, a + b) == PutAll(PutAll(s, a), b)
    decreases |a|
  {
    if a == [] {
      assert a + b == b;
    } else {
      assert (a + b)[0] == a[0] && (a + b)[1..] == a[1..] + b;
      PutAllAppend(Put(s, a[0]), a[1..], b);
    }
  }

  // ---------------------------------------------------------------- attributes

  /** All attribute bytes are ATTRIB; the scheduler's rewrite then changes nothing. */
  predicate Plain(s: Screen) {
    forall k :: 0 <= k < |s.cells| ==> s.cells[k].attr == ATTRIB
  }

  function Repainted(cells: seq<Cell>): (r: seq<Cell>)
    ensures |r| == |cells|
    ensures forall k :: 0 <= k < |r| ==> r[k] == Cell(cells[k].ch, ATTRIB)
  {
    seq(|cells|, k requires 0 <= k < |cells| => Cell(cells[k].ch, ATTRIB))
  }

  lemma RepaintPlain(s: Screen)
    requires Plain(s)
    ensures Repainted(s.cells) == s.cells
  {
    forall k | 0 <= k < |s.cells|
      ensures Repainted(s.cells)[k] == s.cells[k]
    {
      assert s.cells[k].attr == ATTRIB;
    }
  }

  // ---------------------------------------------------------------- the page

  /**
   * The reference console: paper without end. `rows` are the rows printed so far,
   * each COLS wide, and the next character goes to column `x` of the last one.
   */
  datatype Page = Page(rows: seq<seq<byte>>, x: nat)

  function BlankRow(): (r: seq<byte>)
    ensures |r| == COLS && forall i :: 0 <= i < COLS ==> r[i] == NUL
  {
    seq(COLS, _ => NUL)
  }

  const EmptyPage := Page([BlankRow()], 0)

  ghost predicate PageOk(p: Page) {
    |p.rows| > 0 && p.x < COLS && forall r :: 0 <= r < |p.rows| ==> |p.rows[r]| == COLS
  }

  function Feed(p: Page): Page {
    Page(p.rows + [BlankRow()], 0)
  }

  ghost function Type(p: Page, c: byte): (r: Page)
    requires PageOk(p)
    ensures PageOk(r)
  {
    Page(p.rows[|p.rows| - 1 := Overwrite(p.rows[|p.rows| - 1], p.x, c)], p.x)
  }

  ghost function Print(p: Page, c: byte): (r: Page)
    requires PageOk(p)
    ensures PageOk(r)
  {
    if IsLineEnd(c) then Feed(p)
    else
      var q := Type(p, c);
      if p.x == COLS - 1 then Feed(q) else q.(x := p.x + 1)
  }

  ghost function PrintAll(p: Page, text: seq<byte>): (r: Page)
    requires PageOk(p)
    ensures PageOk(r)
    decreases |text|
  {
    if text == [] then p else PrintAll(Print(p, text[0]), text[1..])
  }

  ghost function Top(p: Page): (top: nat)
    requires PageOk(p)
    ensures top == 0 || top + ROWS == |p.rows|
    ensures top < |p.rows| <= top + ROWS
  {
    if |p.rows| <= ROWS then 0 else |p.rows| - ROWS
  }

  ghost function WindowCell(p: Page, k: nat): Cell
    requires PageOk(p) && k < CELLS
  {
    var r := Top(p) + k / COLS;
    if r < |p.rows| then Cell(p.rows[r][k % COLS], ATTRIB) else BLANK
  }

  /** The last ROWS rows of the page, blank below the last printed row. */
  ghost function Window(p: Page): (s: Screen)
    requires PageOk(p)
    ensures Valid(s) && Plain(s)
  {
    Screen(seq(CELLS, k requires 0 <= k < CELLS => WindowCell(p, k)), p.x, |p.rows| - 1 - Top(p))
  }

  lemma WindowFeed(p: Page)
    requires PageOk(p)
    ensures var s := Window(p);
            Window(Feed(p)) == if s.y == ROWS - 1 then ScrollUp(s) else s.(x := 0, y := s.y + 1)
  {
    var s, q := Window(p), Feed(p);
    var t := if s.y == ROWS - 1 then ScrollUp(s) else s.(x := 0, y := s.y + 1);
    assert PageOk(q);
    forall k | 0 <= k < CELLS
      ensures Window(q).cells[k] == t.cells[k]
    {
      assert Window(q).cells[k] == WindowCell(q, k);
      assert s.cells[k] == WindowCell(p, k);
      if s.y == ROWS - 1 {
        assert Top(q) == Top(p) + 1;
        if k < CELLS - COLS {
          assert (k + COLS) / COLS == k / COLS + 1 && (k + COLS) % COLS == k % COLS;
          assert s.cells[k + COLS] == WindowCell(p, k + COLS);
        }
      }
    }
  }

  /** Putting a character on the screen is printing it on the page and looking at the last rows. */
  lemma WindowPrint(p: Page, c: byte)
    requires PageOk(p)
    ensures Put(Window(p), c) == Window(Print(p, c))
  {
    if IsLineEnd(c) {
      WindowFeed(p);
    } else {
      var s := Window(p);
      var q := Type(p, c);
      var at := COLS * s.y + s.x;
      assert PageOk(q) && Top(q) == Top(p);
      forall k | 0 <= k < CELLS
        ensures Window(q).cells[k] == s.cells[at := Cell(c, ATTRIB)][k]
      {
        assert Window(q).cells[k] == WindowCell(q, k);
        assert s.cells[k] == WindowCell(p, k);
        assert k == COLS * (k / COLS) + k % COLS;
      }
      assert Window(q).cells == s.cells[at := Cell(c, ATTRIB)];
      if p.x == COLS - 1 {
        WindowFeed(q);
      } else {
        var q' := q.(x := p.x + 1);
        assert Window(q').cells == Window(q).cells by {
          forall k | 0 <= k < CELLS ensures Window(q').cells[k] == Window(q).cells[k] {
            assert WindowCell(q', k) == WindowCell(q, k);
          }
        }
      }
    }
  }

  /** The screen always shows the tail of everything printed since it was cleared. */
  lemma {:induction false} ScreenIsWindow(p: Page, text: seq<byte>)
    requires PageOk(p)
    ensures PutAll(Window(p), text) == Window(PrintAll(p, text))
    decreases |text|
  {
    if text != [] {
      WindowPrint(p, text[0]);
      ScreenIsWindow(Print(p, text[0]), text[1..]);
    }
  }

  lemma ClearedIsWindow()
    ensures Window(EmptyPage) == Cleared()
  {
    forall k | 0 <= k < CELLS
      ensures Window(EmptyPage).cells[k] == Cleared().cells[k]
    {
      assert WindowCell(EmptyPage, k) == BLANK;
    }
  }

  // ---------------------------------------------------------------- buffers

  /** Cell `k` of a scroll in progress: columns before `i` are done, and column `i` down to row `j`. */
  function Scrolling(was: seq<Cell>, k: nat, i: nat, j: nat): Cell
    requires |was| == CELLS && k < CELLS
  {
    if k % COLS < i || (k % COLS == i && k / COLS < j) then ScrolledCell(was, k) else was[k]
  }

  /** The inner loop of vert_scroll: column `i`, row by row. */
  method ScrollColumn(a: array<Cell>, i: nat, ghost was: seq<Cell>)
    requires a.Length == CELLS == |was| && i < COLS
    requires forall k :: 0 <= k < CELLS ==> a[k] == Scrolling(was, k, i, 0)
    modifies a
    ensures forall k :: 0 <= k < CELLS ==> a[k] == Scrolling(was, k, i + 1, 0)
  {
    var j := 0;
    while j < ROWS
      invariant 0 <= j <= ROWS
      invariant forall k :: 0 <= k < CELLS ==> a[k] == Scrolling(was, k, i, j)
    {
      if j < ROWS - 1 {
        a[COLS * j + i] := a[COLS * j + i].(ch := a[COLS * (j + 1) + i].ch);
      } else {
        a[COLS * j + i] := a[COLS * j + i].(ch := NUL);
      }
      a[COLS * j + i] := a[COLS * j + i].(attr := ATTRIB);
      j := j + 1;
    }
  }

  /** vert_scroll and vert_scroll_nodisplay on their buffer, column by column. */
  method ScrollInPlace(a: array<Cell>)
    requires a.Length == CELLS
    modifies a
    ensures a[..] == Scrolled(old(a[..]))
  {
    ghost var was := a[..];
    var i := 0;
    while i < COLS
      invariant 0 <= i <= COLS
      invariant forall k :: 0 <= k < CELLS ==> a[k] == Scrolling(was, k, i, 0)
    {
      ScrollColumn(a, i, was);
      i := i + 1;
    }
    forall k | 0 <= k < CELLS
      ensures a[k] == ScrolledCell(was, k)
    {
      assert a[k] == Scrolling(was, k, COLS, 0);
    }
  }

  /** The clearing loops of clear and clear_nodisplay. */
  method ClearInPlace(a: array<Cell>)
    requires a.Length == CELLS
    modifies a
    ensures a[..] == Cleared().cells
  {
    for i := 0 to ROWS * COLS
      invariant forall k :: 0 <= k < i ==> a[k] == BLANK
    {
      a[i] := a[i].(ch := NUL);
      a[i] := a[i].(attr := ATTRIB);
    }
  }

  /** The attribute loop of switch_task. */
  method RepaintInPlace(a: array<Cell>)
    requires a.Length == CELLS
    modifies a
    ensures a[..] == Repainted(old(a[..]))
  {
    ghost var was := a[..];
    for i := 0 to ROWS * COLS
      invariant forall k :: 0 <= k < CELLS ==> a[k] == if k < i then Cell(was[k].ch, ATTRIB) else was[k]
    {
      a[i] := a[i].(attr := ATTRIB);
    }
  }

  /** The column of the last character on a row: one before its first NUL. */
  function LastChar(cells: seq<Cell>, line: nat, from: nat): (r: int)
    requires |cells| == CELLS && line < ROWS && from <= COLS
    ensures from - 1 <= r < COLS
    decreases COLS - from
  {
    if from == COLS then COLS - 1
    else if cells[COLS * line + from].ch == NUL then from - 1
    else LastChar(cells, line, from + 1)
  }

  lemma {:induction false} LastCharIs(cells: seq<Cell>, line: nat, from: nat, r: int)
    requires |cells| == CELLS && line < ROWS && from <= COLS && r == LastChar(cells, line, from)
    ensures forall k :: COLS * line + from <= k <= COLS * line + r ==> cells[k].ch != NUL
    ensures r < COLS - 1 ==> cells[COLS * line + r + 1].ch == NUL
    decreases COLS - from
  {
    if from < COLS && cells[COLS * line + from].ch != NUL {
      LastCharIs(cells, line, from + 1, r);
    }
  }

  /** find_last_char */
  method FindLastChar(a: array<Cell>, line: nat) returns (r: int)
    requires a.Length == CELLS && line < ROWS
    ensures r == LastChar(a[..], line, 0)
  {
    var i := 0;
    while i < COLS
      invariant 0 <= i <= COLS
      invariant LastChar(a[..], line, 0) == LastChar(a[..], line, i)
    {
      if a[COLS * line + i].ch == NUL {
        return i - 1;
      }
      i := i + 1;
    }
    return 79;
  }
}
