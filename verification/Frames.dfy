/** add_frames of the fish program: two text frames read side by side, one blinker per lit cell. */
module Frames {
  import opened CStrings
  import opened TextLines

  const COLS := 80
  const OFFSET := 40
  const WRAP := 0x10000

  /** One RTC_ADD: its 16-bit location and two characters, and the cell of the frames it comes from. */
  datatype Add = Add(row: nat, col: nat, location: nat, onChar: byte, offChar: byte)

  // ---------------------------------------------------------------- the reference

  /** Frames are padded with empty rows, rows with spaces. */
  function RowAt(rows: seq<seq<byte>>, r: nat): seq<byte> {
    if r < |rows| then rows[r] else []
  }

  function CharAt(row: seq<byte>, c: nat): byte {
    if c < |row| then row[c] else SPACE
  }

  predicate Lit(a: seq<byte>, b: seq<byte>, c: nat) {
    CharAt(a, c) != SPACE || CharAt(b, c) != SPACE
  }

  function AddAt(a: seq<byte>, b: seq<byte>, r: nat, c: nat): Add {
    Add(r, c, (r * COLS + c + OFFSET) % WRAP, CharAt(a, c), CharAt(b, c))
  }

  function Longer(m: nat, n: nat): nat {
    if m < n then n else m
  }

  /** The adds of the first `n` cells of a row. */
  function RowAdds(a: seq<byte>, b: seq<byte>, r: nat, n: nat): seq<Add> {
    if n == 0 then []
    else RowAdds(a, b, r, n - 1) + if Lit(a, b, n - 1) then [AddAt(a, b, r, n - 1)] else []
  }

  /** The adds of the first `n` rows of two frames. */
  function FrameAdds(x: seq<seq<byte>>, y: seq<seq<byte>>, n: nat): seq<Add> {
    if n == 0 then []
    else FrameAdds(x, y, n - 1) + RowAdds(RowAt(x, n - 1), RowAt(y, n - 1), n - 1, Width(x, y, n - 1))
  }

  function Width(x: seq<seq<byte>>, y: seq<seq<byte>>, r: nat): nat {
    Longer(|RowAt(x, r)|, |RowAt(y, r)|)
  }

  function AllAdds(f0: seq<byte>, f1: seq<byte>): seq<Add> {
    FrameAdds(Rows(f0, 0), Rows(f1, 0), Longer(|Rows(f0, 0)|, |Rows(f1, 0)|))
  }

  // ---------------------------------------------------------------- reading

  /**
   * One file in the middle of a row. The row starts at `start` unless the file had already ended
   * (`closed`); `row` is its text, and `col` of its columns have been passed. Between columns `c` is
   * the last character read, a newline once the row is over.
   */
  datatype Cursor = Cursor(pos: nat, c: byte, eof: bool)

  ghost predicate InRow(f: seq<byte>, start: nat, closed: bool, row: seq<byte>, col: nat, k: Cursor) {
    k.pos <= |f| &&
    if closed then row == [] && k.c == NEWLINE && k.eof
    else
      && start + |row| <= |f| && row == f[start..start + |row|] && NEWLINE !in row
      && (start + |row| < |f| ==> f[start + |row|] == NEWLINE)
      && (if k.c != NEWLINE then k.pos == start + col && col <= |row| && !k.eof
          else |row| <= col && k.eof == (start + |row| == |f|) && (!k.eof ==> k.pos == start + |row| + 1))
  }

  /** The guarded one-byte read add_frames does for each file. */
  method ReadNext(f: seq<byte>, k: Cursor, ghost start: nat, ghost closed: bool, ghost row: seq<byte>, ghost col: nat)
    returns (r: Cursor)
    requires InRow(f, start, closed, row, col, k)
    ensures InRow(f, start, closed, row, col + 1, r)
    ensures r.c == if col < |row| then row[col] else NEWLINE
    ensures r.c == NEWLINE <==> |row| <= col
  {
    r := k;
    if k.c != NEWLINE {
      if k.pos < |f| {
        r := Cursor(k.pos + 1, f[k.pos], k.eof);
        assert col < |row| ==> row[col] == f[start + col];
      } else {
        r := Cursor(k.pos, NEWLINE, true);
      }
    }
  }

  /** What is left of a file between rows. */
  ghost predicate Between(f: seq<byte>, rows: seq<seq<byte>>, r: nat, k: Cursor) {
    && k.pos <= |f| && (k.eof <==> r >= |rows|)
    && (k.eof ==> k.c == NEWLINE)
    && (!k.eof ==> k.c != NEWLINE && Rows(f, k.pos) == rows[r..])
  }

  /** The row at `start`, which ends at `end`, and what follows it. */
  lemma RowAtStart(f: seq<byte>, rows: seq<seq<byte>>, r: nat, start: nat, end: nat)
    requires start <= |f| && r < |rows| && Rows(f, start) == rows[r..] && end == EndOf(f, start)
    ensures rows[r] == f[start..end]
    ensures end < |f| ==> r + 1 < |rows| && Rows(f, end + 1) == rows[r + 1..]
    ensures end == |f| ==> r + 1 == |rows|
  {
    var row, after := f[start..end], if end < |f| then Rows(f, end + 1) else [];
    RowsStep(f, start, row, after);
    assert rows[r..][0] == rows[r];
    assert rows[r..][1..] == rows[r + 1..] && ([row] + after)[1..] == after;
  }

  lemma EnterRow(f: seq<byte>, rows: seq<seq<byte>>, r: nat, k: Cursor)
    requires Between(f, rows, r, k)
    ensures InRow(f, k.pos, k.eof, RowAt(rows, r), 0, k)
  {
    if !k.eof {
      RowAtStart(f, rows, r, k.pos, EndOf(f, k.pos));
    }
  }

  /** After the row, the file is at its next row, or at its end. */
  lemma LeaveRow(f: seq<byte>, rows: seq<seq<byte>>, r: nat, k: Cursor, col: nat, after: Cursor)
    requires Between(f, rows, r, k) && InRow(f, k.pos, k.eof, RowAt(rows, r), col, after) && after.c == NEWLINE
    ensures Between(f, rows, r + 1, Reset(after))
  {
    if !k.eof {
      var e := EndOf(f, k.pos);
      RowAtStart(f, rows, r, k.pos, e);
      assert |RowAt(rows, r)| == e - k.pos;
      assert e == |f| <==> after.eof;
    }
  }

  /** What add_frames does to a file's character at the end of a row. */
  function Reset(k: Cursor): Cursor {
    if k.eof then k.(c := NEWLINE) else k.(c := 48)
  }

  // ---------------------------------------------------------------- the program

  /** The inner loop of add_frames: one row of both files, `a` and `b`. */
  method ReadRow(f0: seq<byte>, f1: seq<byte>, k0: Cursor, k1: Cursor, row: nat, ghost a: seq<byte>, ghost b: seq<byte>)
    returns (r0: Cursor, r1: Cursor, adds: seq<Add>, ghost cols: nat)
    requires InRow(f0, k0.pos, k0.eof, a, 0, k0) && InRow(f1, k1.pos, k1.eof, b, 0, k1)
    requires !k0.eof || !k1.eof
    ensures InRow(f0, k0.pos, k0.eof, a, cols, r0) && InRow(f1, k1.pos, k1.eof, b, cols, r1)
    ensures r0.c == NEWLINE && r1.c == NEWLINE
    ensures adds == RowAdds(a, b, row, Longer(|a|, |b|))
  {
    r0, r1, adds := k0, k1, [];
    var col := 0;
    ghost var width := Longer(|a|, |b|);
    while true
      invariant col <= width
      invariant InRow(f0, k0.pos, k0.eof, a, col, r0) && InRow(f1, k1.pos, k1.eof, b, col, r1)
      invariant adds == RowAdds(a, b, row, col)
      decreases width - col
    {
      r0 := ReadNext(f0, r0, k0.pos, k0.eof, a, col);
      r1 := ReadNext(f1, r1, k1.pos, k1.eof, b, col);
      var c0, c1 := r0.c, r1.c;
      if c0 == NEWLINE && c1 == NEWLINE {
        cols := col + 1;
        return;
      }
      if (c0 != SPACE && c0 != NEWLINE) || (c1 != SPACE && c1 != NEWLINE) {
        var onChar := if c0 == NEWLINE then SPACE else c0;
        var offChar := if c1 == NEWLINE then SPACE else c1;
        adds := adds + [Add(row, col, (row * 80 + col + 40) % WRAP, onChar, offChar)];
      }
      col := col + 1;
    }
  }

  lemma FrameStep(x: seq<seq<byte>>, y: seq<seq<byte>>, r: nat, next: nat)
    requires next == r + 1
    ensures FrameAdds(x, y, next) == FrameAdds(x, y, r) + RowAdds(RowAt(x, r), RowAt(y, r), r, Width(x, y, r))
  {
  }

  /** One turn of the outer loop. */
  method DoRow(f0: seq<byte>, f1: seq<byte>, k0: Cursor, k1: Cursor, row: nat, before: seq<Add>,
               ghost x: seq<seq<byte>>, ghost y: seq<seq<byte>>)
    returns (r0: Cursor, r1: Cursor, next: nat, adds: seq<Add>)
    requires Between(f0, x, row, k0) && Between(f1, y, row, k1) && (!k0.eof || !k1.eof)
    requires before == FrameAdds(x, y, row)
    ensures next == row + 1 && Between(f0, x, next, r0) && Between(f1, y, next, r1)
    ensures adds == FrameAdds(x, y, next)
  {
    EnterRow(f0, x, row, k0);
    EnterRow(f1, y, row, k1);
    ghost var cols;
    var more;
    r0, r1, more, cols := ReadRow(f0, f1, k0, k1, row, RowAt(x, row), RowAt(y, row));
    LeaveRow(f0, x, row, k0, cols, r0);
    LeaveRow(f1, y, row, k1, cols, r1);
    r0 := Reset(r0);
    r1 := Reset(r1);
    next := row + 1;
    FrameStep(x, y, row, next);
    adds := before + more;
  }

  lemma FirstRow(f: seq<byte>)
    ensures Between(f, Rows(f, 0), 0, Cursor(0, 48, false))
  {
    assert Rows(f, 0)[0..] == Rows(f, 0);
  }

  /** add_frames, once both files are open */
  method AddFrames(f0: seq<byte>, f1: seq<byte>) returns (adds: seq<Add>)
    ensures adds == AllAdds(f0, f1)
  {
    adds := [];
    var k0, k1 := Cursor(0, 48, false), Cursor(0, 48, false);
    var row := 0;
    ghost var x, y := Rows(f0, 0), Rows(f1, 0);
    FirstRow(f0);
    FirstRow(f1);
    while !k0.eof || !k1.eof
      invariant Between(f0, x, row, k0) && Between(f1, y, row, k1)
      invariant row <= |x| || row <= |y|
      invariant adds == FrameAdds(x, y, row)
      decreases |x| + |y| - row
    {
      k0, k1, row, adds := DoRow(f0, f1, k0, k1, row, adds, x, y);
    }
    assert row == Longer(|x|, |y|);
  }

  // ---------------------------------------------------------------- what the adds are

  predicate Precedes(a: Add, b: Add) {
    a.row < b.row || (a.row == b.row && a.col < b.col)
  }

  predicate Ordered(adds: seq<Add>) {
    forall i, j :: 0 <= i < j < |adds| ==> Precedes(adds[i], adds[j])
  }

  predicate CellOf(x: seq<seq<byte>>, y: seq<seq<byte>>, r: nat, c: nat) {
    c < Width(x, y, r) && Lit(RowAt(x, r), RowAt(y, r), c)
  }

  function CellAdd(x: seq<seq<byte>>, y: seq<seq<byte>>, r: nat, c: nat): Add {
    AddAt(RowAt(x, r), RowAt(y, r), r, c)
  }

  lemma {:induction false} RowAddsAre(a: seq<byte>, b: seq<byte>, r: nat, n: nat, d: Add)
    ensures d in RowAdds(a, b, r, n) <==> d.col < n && Lit(a, b, d.col) && d == AddAt(a, b, r, d.col)
    ensures Ordered(RowAdds(a, b, r, n))
    ensures forall e :: e in RowAdds(a, b, r, n) ==> e.row == r && e.col < n
    decreases n
  {
    if n > 0 {
      RowAddsAre(a, b, r, n - 1, d);
    }
  }

  lemma OrderedJoin(a: seq<Add>, b: seq<Add>, n: nat)
    requires Ordered(a) && Ordered(b)
    requires (forall e :: e in a ==> e.row < n) && (forall e :: e in b ==> e.row == n)
    ensures Ordered(a + b) && forall e :: e in a + b ==> e.row < n + 1
  {
    forall i, j | 0 <= i < j < |a + b|
      ensures Precedes((a + b)[i], (a + b)[j])
    {
      if i < |a| <= j {
        assert a[i] in a && b[j - |a|] in b;
      }
    }
  }

  lemma {:induction false} FrameAddsAre(x: seq<seq<byte>>, y: seq<seq<byte>>, n: nat, d: Add)
    ensures d in FrameAdds(x, y, n) <==> d.row < n && CellOf(x, y, d.row, d.col) && d == CellAdd(x, y, d.row, d.col)
    ensures Ordered(FrameAdds(x, y, n))
    ensures forall e :: e in FrameAdds(x, y, n) ==> e.row < n
    decreases n
  {
    if n > 0 {
      var m := n - 1;
      FrameAddsAre(x, y, m, d);
      RowAddsAre(RowAt(x, m), RowAt(y, m), m, Width(x, y, m), d);
      OrderedJoin(FrameAdds(x, y, m), RowAdds(RowAt(x, m), RowAt(y, m), m, Width(x, y, m)), m);
    }
  }

  /** The character of a frame at row `r`, column `c`; frames are padded with spaces on all sides. */
  function Shown(rows: seq<seq<byte>>, r: nat, c: nat): byte {
    if r < |rows| && c < |rows[r]| then rows[r][c] else 32
  }

  /** `d` is the add of a cell that is not blank in both frames. */
  predicate IsShown(x: seq<seq<byte>>, y: seq<seq<byte>>, d: Add) {
    var on, off := Shown(x, d.row, d.col), Shown(y, d.row, d.col);
    && (on != 32 || off != 32)
    && d.onChar == on && d.offChar == off && d.location == (d.row * 80 + d.col + 40) % 65536
  }

  lemma ShownExactly(x: seq<seq<byte>>, y: seq<seq<byte>>, d: Add)
    ensures IsShown(x, y, d) <==>
            d.row < Longer(|x|, |y|) && CellOf(x, y, d.row, d.col) && d == CellAdd(x, y, d.row, d.col)
  {
    CellIs(x, y, d.row, d.col);
  }

  /**
   * The adds are exactly one per cell where either padded frame is not blank, with the characters of the
   * two frames there and location row * 80 + col + 40 as a 16-bit word, in reading order.
   */
  lemma OneAddPerCell(f0: seq<byte>, f1: seq<byte>, d: Add)
    ensures d in AllAdds(f0, f1) <==> IsShown(Rows(f0, 0), Rows(f1, 0), d)
    ensures Ordered(AllAdds(f0, f1))
  {
    var x, y := Rows(f0, 0), Rows(f1, 0);
    FrameAddsAre(x, y, Longer(|x|, |y|), d);
    ShownExactly(x, y, d);
  }

  lemma CellIs(x: seq<seq<byte>>, y: seq<seq<byte>>, r: nat, c: nat)
    ensures var on, off := Shown(x, r, c), Shown(y, r, c);
            && (r < Longer(|x|, |y|) && CellOf(x, y, r, c) <==> on != 32 || off != 32)
            && CellAdd(x, y, r, c) == Add(r, c, (r * 80 + c + 40) % 65536, on, off)
  {
  }
}
