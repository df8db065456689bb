/** The console and keyboard code itself, in place on its buffers, proved against Terminals. */
module Driver {
  import opened CStrings
  import opened Console
  import opened Keyboard
  import opened Common
  import opened Terminals
  import Scheduler

  /** terminal_t */
  class Terminal {
    var active: bool
    var x: int
    var y: int
    const screen: array<Cell>
    const input: array<byte>
    var keyIndex: int
    var keyLast: int
    var enter: bool

    ghost function Abs(): Saved
      reads this, screen, input
    {
      Saved(active, Screen(screen[..], x, y), Line(input[..], keyIndex, keyLast), enter)
    }

    /** One round of terminal_init's loop, for terminal `i`. */
    constructor (i: nat)
      requires i < TERMS
      ensures Abs() == Fresh(i)
      ensures fresh(screen) && fresh(input)
    {
      active, x, y, enter, keyLast, keyIndex := false, 0, 0, false, 0, 0;
      screen := new Cell[CELLS](_ => Cell(NUL, 0));
      input := new byte[MAX_BUF + 1](k => if k < MAX_BUF then SPACE else NUL);
      new;
      for j := 0 to ROWS * COLS
        invariant Abs() == Fresh(i).(screen := Abs().screen)
        invariant screen[..] == if j == 0 then seq(CELLS, _ => Cell(NUL, 0)) else Fresh(i).screen.cells
        invariant x == y == 0
      {
        screen[i] := BLANK;
      }
    }

    /** putc_nodisplay on the executing terminal */
    method PutChar(c: byte)
      requires Console.Valid(Abs().screen)
      modifies this, screen
      ensures Abs() == old(Abs()).(screen := Put(old(Abs()).screen, c))
    {
      if c == NEWLINE || c == CARRIAGE_RETURN {
        if y == ROWS - 1 {
          Scroll();
          return;
        }
        y := y + 1;
        x := 0;
      } else {
        screen[COLS * y + x] := Cell(c, ATTRIB);
        if x == COLS - 1 && y == ROWS - 1 {
          Scroll();
          return;
        }
        x := x + 1;
        x := x % COLS;
        if x == 0 {
          y := y + 1;
        }
      }
    }

    /** vert_scroll_nodisplay */
    method Scroll()
      requires screen.Length == CELLS
      modifies this, screen
      ensures Abs() == old(Abs()).(screen := ScrollUp(old(Abs()).screen))
    {
      ScrollInPlace(screen);
      x := 0;
      y := ROWS - 1;
    }

    /** save_terminal_state's assignments, from the live display and keyboard buffer */
    method Store(video: array<Cell>, screenX: int, screenY: int, buf: array<byte>, keyIdx: int, lastIdx: int)
      requires video.Length == screen.Length == CELLS && buf.Length == input.Length == MAX_BUF + 1
      requires video != screen && buf != input
      modifies this, screen, input
      ensures Abs() == Saved(old(active), Screen(video[..], screenX, screenY),
                             Line(buf[..MAX_BUF] + old(input[..])[MAX_BUF..], keyIdx, lastIdx), old(enter))
    {
      x := screenX;
      y := screenY;
      CopyCells(screen, video);
      CopyKeys(input, buf);
      keyLast := lastIdx;
      keyIndex := keyIdx;
    }

    /** clear_nodisplay */
    method Clear()
      requires screen.Length == CELLS
      modifies this, screen
      ensures Abs() == old(Abs()).(screen := Cleared())
    {
      ClearInPlace(screen);
      x := 0;
      y := 0;
    }
  }

  /** memcpy of a whole screen */
  method CopyCells(dest: array<Cell>, src: array<Cell>)
    requires dest.Length == src.Length == CELLS
    modifies dest
    ensures dest[..] == old(src[..])
  {
    forall k | 0 <= k < CELLS { dest[k] := src[k]; }
  }

  /** memcpy of the first MAX_BUF bytes of a keyboard buffer */
  method CopyKeys(dest: array<byte>, src: array<byte>)
    requires dest.Length == src.Length == MAX_BUF + 1
    modifies dest
    ensures dest[..] == old(src[..MAX_BUF]) + old(dest[..])[MAX_BUF..]
  {
    forall k | 0 <= k < MAX_BUF { dest[k] := src[k]; }
  }

  /** keyboard_read's first loop: just after the last newline but one, or the start of the buffer. */
  method LineStart(buf: array<byte>, keyIdx: int) returns (j: int)
    requires 0 <= keyIdx <= buf.Length
    ensures 0 <= j <= keyIdx
    ensures forall a, b :: j <= a < b < keyIdx ==> buf[a] != NEWLINE || buf[b] != NEWLINE
    ensures j > 0 ==> buf[j - 1] == NEWLINE && exists k :: j <= k < keyIdx && buf[k] == NEWLINE
  {
    j := 0;
    var count, i := 0, keyIdx - 1;
    ghost var seen := 0;
    while i >= 0
      invariant -1 <= i < keyIdx && 0 <= count <= 1
      invariant count == 0 ==> forall k :: i < k < keyIdx ==> buf[k] != NEWLINE
      invariant count == 1 ==> i < seen < keyIdx && buf[seen] == NEWLINE
      invariant count == 1 ==> forall k :: i < k < keyIdx && k != seen ==> buf[k] != NEWLINE
    {
      if buf[i] == NEWLINE {
        count := count + 1;
        if count == 2 {
          return i + 1;
        }
        seen := i;
      }
      i := i - 1;
    }
  }

  /** keyboard_read's second loop: copy the line `u`, at most `nbytes` of it, and a NUL. */
  method CopyLineOut(buf: array<byte>, user: array<byte>, nbytes: nat, before: byte, after: byte, ghost u: seq<byte>)
    returns (i: nat)
    requires buf.Length == MAX_BUF + 1 && user != buf
    requires NEWLINE in buf[..] || NUL in buf[..]
    requires StopsAt(buf[..], u) && |if before == NEWLINE then [] else Cut(u, nbytes)| < user.Length
    modifies user
    ensures var line := if before == NEWLINE then [] else Cut(u, nbytes);
            i == |line| && user[..] == line + [NUL] + old(user[..])[|line| + 1..]
  {
    i := 0;
    ghost var n := if before == NEWLINE then 0 else |Cut(u, nbytes)|;
    while (if i <= MAX_BUF then buf[i] else after) != NUL && (if i == 0 then before else buf[i - 1]) != NEWLINE
      invariant i <= n
      invariant forall k :: 0 <= k < i ==> user[k] == u[k]
      invariant forall k :: i <= k < user.Length ==> user[k] == old(user[k])
      decreases n - i
    {
      if i == nbytes {
        break;
      }
      assert i < |u| && u[i] == buf[i];
      user[i] := buf[i];
      i := i + 1;
    }
    assert i == n;
    user[i] := NUL;
  }

  class Machine {
    const video: array<Cell>
    const buf: array<byte>
    const terminals: seq<Terminal>
    var screenX: int
    var screenY: int
    var keyIdx: int
    var lastIdx: int
    var shown: nat
    var exec: nat
    var mods: Modifiers

    ghost predicate Separate()
    {
      && |terminals| == TERMS
      && (forall i :: 0 <= i < TERMS ==> terminals[i].screen != video && terminals[i].input != buf)
      && (forall i, j :: 0 <= i < j < TERMS ==>
            terminals[i] != terminals[j] && terminals[i].screen != terminals[j].screen && terminals[i].input != terminals[j].input)
    }

    ghost function Heap(): set<object>
      requires |terminals| == TERMS
    {
      {this, video, buf,
       terminals[0], terminals[0].screen, terminals[0].input,
       terminals[1], terminals[1].screen, terminals[1].input,
       terminals[2], terminals[2].screen, terminals[2].input}
    }

    ghost function Abs(): State
      requires |terminals| == TERMS
      reads Heap()
    {
      State(Editor(Screen(video[..], screenX, screenY), Line(buf[..], keyIdx, lastIdx)),
            [terminals[0].Abs(), terminals[1].Abs(), terminals[2].Abs()],
            shown, exec, mods)
    }

    ghost predicate Valid()
      requires |terminals| == TERMS
      reads Heap()
    {
      Separate() && Safe(Abs())
    }

    /** The kernel's clear, keyboard_init and terminal_init */
    constructor ()
      ensures |terminals| == TERMS && Valid() && Abs() == Boot()
    {
      video := new Cell[CELLS](_ => BLANK);
      buf := new byte[MAX_BUF + 1](k => if k < MAX_BUF then SPACE else NUL);
      var t0 := new Terminal(0);
      var t1 := new Terminal(1);
      var t2 := new Terminal(2);
      terminals := [t0, t1, t2];
      screenX, screenY, keyIdx, lastIdx, shown, exec := 0, 0, 0, 0, 0, 0;
      mods := Modifiers(false, false, false, false);
      new;
      assert buf[..] == Spaces() + [NUL];
      assert video[..] == Cleared().cells;
      assert [t0.Abs(), t1.Abs(), t2.Abs()] == [Fresh(0), Fresh(1), Fresh(2)];
      assert Abs() == Boot();
    }

    ghost function Display(): Screen
      reads this, video
    {
      Screen(video[..], screenX, screenY)
    }

    /** What drawing on the display needs. */
    ghost predicate Drawable()
      requires |terminals| == TERMS
      reads this, video
    {
      Separate() && Console.Valid(Display())
    }

    /** A change of the display and its cursor is just that. */
    twostate lemma OnlyDisplay()
      requires |terminals| == TERMS && Separate()
      requires unchanged(this`keyIdx, this`lastIdx, this`shown, this`exec, this`mods, buf)
      requires unchanged(terminals[0], terminals[0].screen, terminals[0].input)
      requires unchanged(terminals[1], terminals[1].screen, terminals[1].input)
      requires unchanged(terminals[2], terminals[2].screen, terminals[2].input)
      ensures Abs() == OnLive(old(Abs()), Display())
    {
    }

    /** A change of one terminal's struct is just that. */
    twostate lemma OnlyTerminal(n: nat)
      requires |terminals| == TERMS && Separate() && n < TERMS && unchanged(this, video, buf)
      requires forall i :: 0 <= i < TERMS && i != n ==> terminals[i].Abs() == old(terminals[i].Abs())
      ensures Abs() == old(Abs()).(terms := old(Abs()).terms[n := terminals[n].Abs()])
    {
    }

    /** putc */
    method PutC(c: byte)
      requires |terminals| == TERMS && Drawable()
      modifies this`screenX, this`screenY, video
      ensures Drawable() && Abs() == OnLive(old(Abs()), Put(old(Abs()).live.screen, c))
    {
      Draw(c);
      OnlyDisplay();
    }

    /** putc on video memory and the cursor */
    method Draw(c: byte)
      requires Console.Valid(Display())
      modifies this`screenX, this`screenY, video
      ensures Display() == Put(old(Display()), c)
    {
      if c == NEWLINE || c == CARRIAGE_RETURN {
        if screenY == ROWS - 1 {
          DrawScroll();
          return;
        }
        screenY := screenY + 1;
        screenX := 0;
      } else {
        video[COLS * screenY + screenX] := Cell(c, ATTRIB);
        if screenX == COLS - 1 && screenY == ROWS - 1 {
          DrawScroll();
          return;
        }
        screenX := screenX + 1;
        screenX := screenX % COLS;
        if screenX == 0 {
          screenY := screenY + 1;
        }
      }
    }

    /** vert_scroll */
    method VertScroll()
      requires |terminals| == TERMS && Drawable()
      modifies this`screenX, this`screenY, video
      ensures Drawable() && Abs() == OnLive(old(Abs()), ScrollUp(old(Abs()).live.screen))
    {
      DrawScroll();
      OnlyDisplay();
    }

    method DrawScroll()
      requires video.Length == CELLS
      modifies this`screenX, this`screenY, video
      ensures Display() == ScrollUp(old(Display()))
    {
      ScrollInPlace(video);
      screenX := 0;
      screenY := ROWS - 1;
    }

    /** putc_nodisplay */
    method PutCNoDisplay(c: byte)
      requires |terminals| == TERMS && Valid()
      modifies terminals[exec], terminals[exec].screen
      ensures Valid() && Abs() == OnSaved(old(Abs()), exec, Put(old(Abs()).terms[exec].screen, c))
    {
      ghost var was := Abs();
      assert EditorOk(Editor(was.terms[exec].screen, was.terms[exec].line));
      terminals[exec].PutChar(c);
      OnlyTerminal(exec);
    }

    ghost function Screens(): set<object>
      requires |terminals| == TERMS
    {
      {this, video,
       terminals[0], terminals[0].screen, terminals[1], terminals[1].screen, terminals[2], terminals[2].screen}
    }

    method WriteChar(c: byte)
      requires |terminals| == TERMS && Valid()
      modifies Screens()
      ensures Valid() && Abs() == OnView(old(Abs()), old(Abs()).exec, Put(View(old(Abs()), old(Abs()).exec), c))
    {
      if exec == shown {
        PutC(c);
      } else {
        PutCNoDisplay(c);
      }
    }

    /** The writing loop of terminal_write, one character of the buffer at a time. */
    method WriteChars(text: seq<byte>)
      requires |terminals| == TERMS && Valid()
      modifies Screens()
      ensures Valid() && Abs() == WriteText(old(Abs()), text)
    {
      ghost var was := Abs();
      assert text[..0] == [];
      for i := 0 to |text|
        invariant Valid()
        invariant Abs() == WriteText(was, text[..i])
      {
        WriteStep(was, text, i);
        WriteChar(text[i]);
      }
      assert text[..|text|] == text;
    }

    /** terminal_write */
    method TerminalWrite(text: array?<byte>, nbytes: int) returns (r: int)
      requires |terminals| == TERMS && Valid()
      requires text != null ==> NUL in text[..]
      modifies Screens()
      ensures Valid()
      ensures text == null || nbytes < 0 ==> r == -1 && Abs() == old(Abs())
      ensures text != null && nbytes >= 0 ==>
        var out := Cut(Text(old(text[..])), nbytes);
        r == |out| && Abs() == WriteText(old(Abs()), out)
    {
      if text == null || nbytes < 0 {
        return -1;
      }
      var len := StrLen(text[..]);
      if len < nbytes {
        assert text[..len] == Cut(Text(text[..]), nbytes);
        WriteChars(text[..len]);
        return len;
      }
      assert text[..nbytes] == Cut(Text(text[..]), nbytes);
      WriteChars(text[..nbytes]);
      return nbytes;
    }

    /** clear */
    method Clear()
      requires |terminals| == TERMS && Valid()
      modifies Screens()
      ensures Valid() && Abs() == ClearExec(old(Abs()))
    {
      if exec != shown {
        ClearSaved();
      } else {
        ClearDisplay();
      }
    }

    /** clear_nodisplay */
    method ClearSaved()
      requires |terminals| == TERMS && Valid()
      modifies terminals[exec], terminals[exec].screen
      ensures Valid() && Abs() == OnSaved(old(Abs()), exec, Cleared())
    {
      ghost var was := Abs();
      assert EditorOk(Editor(was.terms[exec].screen, was.terms[exec].line));
      terminals[exec].Clear();
      OnlyTerminal(exec);
    }

    /** The branch of clear for the terminal on display. */
    method ClearDisplay()
      requires |terminals| == TERMS && Valid()
      modifies this`screenX, this`screenY, video
      ensures Valid() && Abs() == OnLive(old(Abs()), Cleared())
    {
      ClearInPlace(video);
      screenX := 0;
      screenY := 0;
      OnlyDisplay();
    }

    /** save_terminal_state */
    method SaveTerminalState()
      requires |terminals| == TERMS && Valid()
      modifies terminals[shown], terminals[shown].screen, terminals[shown].input
      ensures Valid() && Abs() == Save(old(Abs()))
    {
      ghost var was := Abs();
      assert EditorOk(Editor(was.terms[shown].screen, was.terms[shown].line));
      terminals[shown].Store(video, screenX, screenY, buf, keyIdx, lastIdx);
      OnlyTerminal(shown);
    }

    /** restore_terminal_state */
    method RestoreTerminalState(n: nat)
      requires |terminals| == TERMS && Valid() && n < TERMS
      modifies this, video, buf
      ensures Valid() && Abs() == Restore(old(Abs()), n)
    {
      ghost var was := Abs();
      var t := terminals[n];
      assert EditorOk(Editor(was.terms[n].screen, was.terms[n].line));
      CopyCells(video, t.screen);
      screenX := t.x;
      screenY := t.y;
      CopyKeys(buf, t.input);
      lastIdx := t.keyLast;
      keyIdx := t.keyIndex;
      assert Abs() == Restore(was, n);
    }

    /** switch_terminal; `outcome` says how execute("shell") turns out. */
    method SwitchTerminal(n: nat, outcome: Outcome)
      requires |terminals| == TERMS && Valid() && n < TERMS
      modifies Heap()
      ensures Valid() && Abs() == SwitchTo(old(Abs()), n, outcome)
    {
      if n == shown {
        return;
      }
      SaveTerminalState();
      if !terminals[n].active {
        OpenTerminal(n, outcome);
        return;
      }
      ShowTerminal(n);
    }

    /** The branch of switch_terminal for an active terminal, once the one left has been saved. */
    method ShowTerminal(n: nat)
      requires |terminals| == TERMS && Valid() && n < TERMS
      modifies this, video, buf
      ensures Valid() && Abs() == Restore(old(Abs()), n).(shown := n)
    {
      RestoreTerminalState(n);
      ghost var was := Abs();
      shown := n;
      assert Abs() == was.(shown := n);
    }

    /** The branch of switch_terminal for a terminal that is not active. */
    method OpenTerminal(n: nat, outcome: Outcome)
      requires |terminals| == TERMS && Valid() && n < TERMS
      modifies Heap()
      ensures Valid()
      ensures Abs() == Opened(ClearExec(old(Abs()).(shown := n, exec := n)), outcome)
    {
      ghost var was := Abs();
      shown := n;
      exec := n;
      assert Abs() == was.(shown := n, exec := n);
      Clear();
      StartShell(outcome);
    }

    /** What execute("shell") does to the terminals and the screen. */
    method StartShell(outcome: Outcome)
      requires |terminals| == TERMS && Valid()
      modifies Screens()
      ensures Valid()
      ensures Abs() == Opened(old(Abs()), outcome)
    {
      match outcome
      case Started =>
        Activate();
      case Refused(message) =>
        PutS(message);
      case Failed =>
    }

    /** execute's mark on the terminal shown */
    method Activate()
      requires |terminals| == TERMS && Valid()
      modifies terminals[shown]
      ensures Valid() && Abs() == Opened(old(Abs()), Started)
    {
      terminals[shown].active := true;
      OnlyTerminal(shown);
    }

    /** puts, and the loop of keyboard_write */
    method PutS(text: seq<byte>)
      requires |terminals| == TERMS && Drawable()
      modifies this`screenX, this`screenY, video
      ensures Drawable() && Abs() == OnLive(old(Abs()), PutAll(old(Abs()).live.screen, text))
    {
      ghost var was := Abs();
      assert text[..0] == [];
      for i := 0 to |text|
        invariant Drawable()
        invariant Abs() == OnLive(was, PutAll(was.live.screen, text[..i]))
      {
        PutNext(was.live.screen, text, i);
        PutC(text[i]);
      }
      assert text[..|text|] == text;
    }

    /** switch_task, as far as the screens go; the entry past the third terminal reads as inactive. */
    method SwitchTask()
      requires |terminals| == TERMS && Valid() && Scheduler.SomeActive(Active(Abs()))
      modifies this, terminals[0].screen, terminals[1].screen, terminals[2].screen
      ensures Valid() && Abs() == TickTo(old(Abs()))
    {
      ghost var was := Abs();
      var active := [terminals[0].active, terminals[1].active, terminals[2].active];
      assert active == Active(was);
      exec := Scheduler.SelectNext(active, false, exec);
      assert Abs() == was.(exec := exec);
      Repaint();
    }

    /** The attribute loop on the executing terminal's saved screen. */
    method Repaint()
      requires |terminals| == TERMS && Valid()
      modifies terminals[exec].screen
      ensures Valid()
      ensures var s := old(Abs()).terms[exec].screen;
              Abs() == OnSaved(old(Abs()), exec, s.(cells := Repainted(s.cells)))
    {
      ghost var was := Abs();
      assert EditorOk(Editor(was.terms[exec].screen, was.terms[exec].line));
      RepaintInPlace(terminals[exec].screen);
      OnlyTerminal(exec);
    }

    /** keyboard_write */
    method KeyboardWrite() returns (r: int)
      requires |terminals| == TERMS && Drawable()
      requires 0 <= lastIdx <= keyIdx <= buf.Length
      modifies this`screenX, this`screenY, video
      ensures Drawable() && Abs() == OnLive(old(Abs()), Echo(old(Abs()).live.screen, old(Abs()).live.line))
      ensures r == if lastIdx == keyIdx then -1 else keyIdx - lastIdx
    {
      if lastIdx != keyIdx {
        PutS(buf[lastIdx..keyIdx]);
        return keyIdx - lastIdx;
      }
      return -1;
    }

    /** The end of handle_backspace, with the cursor already on the character to erase. */
    method EraseCell()
      requires |terminals| == TERMS && Valid() && keyIdx != 0
      modifies this, video, buf
      ensures Separate() && Abs() == old(Abs()).(live := EraseHere(old(Abs()).live))
    {
      ghost var was := Abs();
      var xTemp, yTemp := screenX, screenY;
      buf[keyIdx - 1] := NUL;
      lastIdx := lastIdx - 1;
      var _ := KeyboardWrite();
      screenX := xTemp;
      screenY := yTemp;
      keyIdx := keyIdx - 1;
      assert Abs() == was.(live := EraseHere(was.live));
    }

    /** The cursor movement of handle_backspace; `stuck` when the row above is empty. */
    method StepCursorBack() returns (stuck: bool)
      requires |terminals| == TERMS && Valid() && screenX + screenY != 0
      modifies this`screenX, this`screenY
      ensures Valid() && stuck == EmptyAbove(old(Abs()).live.screen)
      ensures var s := old(Abs()).live.screen;
              Abs() == OnLive(old(Abs()), if stuck then s.(y := s.y - 1) else StepBack(s))
    {
      ghost var was := Abs();
      ghost var caught;
      stuck, caught := MoveCursorBack();
      BackedIs(was.live.screen, caught);
      OnlyDisplay();
    }

    method MoveCursorBack() returns (stuck: bool, ghost caught: int)
      requires |terminals| == TERMS && Drawable() && screenX + screenY != 0
      modifies this`screenX, this`screenY
      ensures old(screenX) == 0 ==> caught == old(LastChar(video[..], screenY - 1, 0))
      ensures stuck == (old(screenX) == 0 && caught == -1)
      ensures screenX == BackedX(old(screenX), caught) && screenY == BackedY(old(screenX), old(screenY))
    {
      caught := 0;
      if screenX == 0 && screenY != 0 {
        var last := FindLastChar(video, screenY - 1);
        caught := last;
        if last == -1 {
          screenY := screenY - 1;
          stuck := true;
          return;
        }
        screenX := last + 2;
        screenY := screenY - 1;
      }
      screenX := screenX - 1;
      stuck := false;
    }

    /** handle_backspace, which keyboard_handler does not call at the origin */
    method HandleBackspace()
      requires |terminals| == TERMS && Valid() && screenX + screenY != 0
      modifies this, video, buf
      ensures Valid() && Abs() == Edited(old(Abs()), Erase(old(Abs()).live))
    {
      EditorStaysOk(Abs().live, SPACE);
      if keyIdx != 0 {
        Rubout();
      }
    }

    /** handle_backspace with something typed */
    method Rubout()
      requires |terminals| == TERMS && Valid() && screenX + screenY != 0 && keyIdx != 0
      modifies this, video, buf
      ensures Separate() && Abs() == old(Abs()).(live := Erase(old(Abs()).live))
    {
      var stuck := StepCursorBack();
      if !stuck {
        EraseCell();
      }
    }

    /** The ordinary branch of keyboard_handler: store the character and echo it. */
    method TypeKey(ch: byte, outcome: Outcome, dump: seq<Output>)
      requires |terminals| == TERMS && Valid() && keyIdx != MAX_BUF && ch != NUL && ch != NEWLINE
      modifies this, video, buf
      ensures Valid() && Abs() == Do(old(Abs()), Type(ch), outcome, dump)
    {
      EditorStaysOk(Abs().live, ch);
      StoreAndEcho(ch);
    }

    method StoreAndEcho(ch: byte)
      requires |terminals| == TERMS && Valid() && keyIdx != MAX_BUF
      modifies this, video, buf
      ensures Separate() && Abs() == old(Abs()).(live := TypeChar(old(Abs()).live, ch))
    {
      if screenX == COLS - 1 && screenY == ROWS - 1 {
        VertScroll();
      }
      ghost var was := Abs();
      buf[keyIdx] := ch;
      keyIdx := keyIdx + 1;
      assert Abs() == was.(live := Editor(was.live.screen, Line(buf[..], keyIdx, lastIdx)));
      var _ := KeyboardWrite();
      lastIdx := lastIdx + 1;
    }

    /** The Enter branch of keyboard_handler. */
    method EnterKey(outcome: Outcome, dump: seq<Output>)
      requires |terminals| == TERMS && Valid()
      modifies this, video, buf, terminals[shown]
      ensures Valid() && Abs() == Do(old(Abs()), Enter, outcome, dump)
    {
      EditorStaysOk(Abs().live, SPACE);
      EndLine();
      SetEnter(shown, true);
    }

    method EndLine()
      requires |terminals| == TERMS && Valid()
      modifies this, video, buf
      ensures Separate() && Abs() == old(Abs()).(live := PressEnter(old(Abs()).live))
    {
      if screenY != ROWS - 1 {
        screenY := screenY + 1;
        OnlyDisplay();
      } else {
        VertScroll();
      }
      ghost var was := Abs();
      screenX := 0;
      buf[keyIdx] := NEWLINE;
      assert Abs() == was.(live := Editor(was.live.screen.(x := 0), Line(buf[..], keyIdx, lastIdx)));
    }

    method SetEnter(n: nat, pressed: bool)
      requires |terminals| == TERMS && Valid() && n < TERMS
      modifies terminals[n]
      ensures var s := old(Abs()); Abs() == s.(terms := s.terms[n := s.terms[n].(enter := pressed)])
      ensures Valid()
    {
      ghost var was := Abs();
      terminals[n].enter := pressed;
      OnlyTerminal(n);
      assert forall t :: 0 <= t < TERMS ==>
          Editor(Abs().terms[t].screen, Abs().terms[t].line) == Editor(was.terms[t].screen, was.terms[t].line);
    }

    /** memset of the keyboard buffer and both indices to the start */
    method ForgetLine()
      requires |terminals| == TERMS && Valid()
      modifies this, buf
      ensures Valid() && Abs() == Edited(old(Abs()), Editor(old(Abs()).live.screen, ResetLine(old(Abs()).live.line)))
    {
      ghost var was := Abs();
      forall k | 0 <= k < MAX_BUF { buf[k] := SPACE; }
      keyIdx := 0;
      lastIdx := 0;
      assert buf[..] == Spaces() + was.live.line.buf[MAX_BUF..];
      assert Abs() == Edited(was, Editor(was.live.screen, ResetLine(was.live.line)));
    }

    /** The output of a debug key. */
    method PrintDump(dump: seq<Output>)
      requires |terminals| == TERMS && Valid()
      modifies Screens()
      ensures Valid() && Abs() == Dump(old(Abs()), dump)
      decreases |dump|
    {
      if dump != [] {
        match dump[0] {
          case Direct(c) => PutC(c);
          case Written(c) => WriteChar(c);
        }
        PrintDump(dump[1..]);
      }
    }

    method SetMods(m: Modifiers)
      requires |terminals| == TERMS && Valid()
      modifies this`mods
      ensures Valid() && Abs() == old(Abs()).(mods := m)
    {
      ghost var was := Abs();
      mods := m;
      assert Abs() == was.(mods := m);
    }

    /** Ctrl+L */
    method ClearKey(outcome: Outcome, dump: seq<Output>)
      requires |terminals| == TERMS && Valid()
      modifies Heap()
      ensures Valid() && Abs() == Do(old(Abs()), ClearScreen, outcome, dump)
    {
      Clear();
      ForgetLine();
    }

    /** Ctrl+1 to Ctrl+5 */
    method DebugKey(digit: byte, outcome: Outcome, dump: seq<Output>)
      requires |terminals| == TERMS && Valid()
      modifies Heap()
      ensures Valid() && Abs() == Do(old(Abs()), Debug(digit), outcome, dump)
    {
      ghost var was := Abs();
      Clear();
      PrintDump(dump);
      assert Abs() == Dump(ClearExec(was), dump);
    }

    /** The key releases keyboard_handler takes notice of. */
    method ReleaseKey(code: byte)
      requires |terminals| == TERMS && Valid()
      modifies this`mods
      ensures Valid()
      ensures Abs() == old(Abs()).(mods := Released(old(Abs()).mods, code))
    {
      if code == 0xAA || code == 0xB6 {
        SetMods(mods.(shift := false));
      } else if code == 0x9D {
        SetMods(mods.(ctrl := false));
      } else if code == 0xB8 {
        SetMods(mods.(alt := false));
      }
    }

    /** The modifier keys pressed down. */
    method ModifierKey(code: byte) returns (done: bool)
      requires |terminals| == TERMS && Valid()
      modifies this`mods
      ensures done <==> code in {0x2A, 0x36, 0x3A, 0x1D, 0x38}
      ensures Valid() && Abs() == if done then old(Abs()).(mods := Pressed(old(Abs()).mods, code)) else old(Abs())
    {
      if code == 0x2A || code == 0x36 {
        SetMods(mods.(shift := true));
        return true;
      }
      if code == 0x3A {
        SetMods(mods.(caps := !mods.caps));
        return true;
      }
      if code == 0x1D {
        SetMods(mods.(ctrl := true));
        return true;
      }
      if code == 0x38 {
        SetMods(mods.(alt := true));
        return true;
      }
      return false;
    }

    /** keyboard_handler, for one key code read from the data port. */
    method KeyboardHandler(code: byte, outcome: Outcome, dump: seq<Output>)
      requires |terminals| == TERMS && Valid()
      modifies Heap()
      ensures Valid() && Abs() == Press(old(Abs()), code, outcome, dump)
    {
      if code == BACKSPACE && screenX + screenY != 0 {
        HandleBackspace();
        return;
      }
      if code > MAX_PRESS_CODE {
        ReleaseKey(code);
        return;
      }
      PressKey(code, outcome, dump);
    }

    /** The rest of keyboard_handler, for a key pressed down. */
    method PressKey(code: byte, outcome: Outcome, dump: seq<Output>)
      requires |terminals| == TERMS && Valid() && code <= MAX_PRESS_CODE
      requires code != BACKSPACE || screenX + screenY == 0
      modifies Heap()
      ensures Separate() && Abs() == Press(old(Abs()), code, outcome, dump)
    {
      ghost var was := Abs();
      ghost var action := Decode(was.mods, was.live, code);
      var done := ModifierKey(code);
      if done {
        assert action == Modify(Pressed(was.mods, code));
        return;
      }
      if mods.alt && F1 <= code <= F3 {
        assert action == Switch(code - F1);
        SwitchTerminal(code - F1, outcome);
        return;
      }
      assert action == DecodeChar(was.mods, was.live, Ascii(code, mods.shift), Ascii(code, !mods.shift));
      CharKey(Ascii(code, mods.shift), Ascii(code, !mods.shift), outcome, dump);
    }

    /** The rest of keyboard_handler, for the character of a key and its other case. */
    method CharKey(ascii: byte, other: byte, outcome: Outcome, dump: seq<Output>)
      requires |terminals| == TERMS && Valid() && (IsLetter(ascii) ==> IsLetter(other))
      modifies Heap()
      ensures Valid()
      ensures Abs() == Do(old(Abs()), DecodeChar(old(Abs()).mods, old(Abs()).live, ascii, other), outcome, dump)
    {
      if ascii == NUL {
        return;
      }
      if mods.ctrl && ascii == 'l' as byte {
        ClearKey(outcome, dump);
        return;
      }
      if ascii == NEWLINE {
        EnterKey(outcome, dump);
        return;
      }
      if mods.ctrl && 49 <= ascii <= 53 {
        DebugKey(ascii, outcome, dump);
        return;
      }
      if keyIdx == MAX_BUF {
        return;
      }
      TypeKey(if mods.caps && IsLetter(ascii) then other else ascii, outcome, dump);
    }

    /**
     * keyboard_read once Enter has been pressed. The bytes just outside the buffer that its
     * scan can touch are `before` and `after`; a buffer with neither a newline nor a NUL would
     * let the copy run on, so one must be there.
     */
    method KeyboardRead(user: array<byte>, nbytes: nat, before: byte, after: byte) returns (r: int)
      requires |terminals| == TERMS && Valid()
      requires NEWLINE in buf[..] || NUL in buf[..]
      requires user !in Heap() && |LineRead(Abs().live.line, before, nbytes)| < user.Length
      modifies this, buf, user, terminals[exec]
      ensures Valid() && Abs() == AfterRead(old(Abs()))
      ensures var line := LineRead(old(Abs()).live.line, before, nbytes);
              r == |line| && user[..] == line + [NUL] + old(user[..])[|line| + 1..]
    {
      UptoStops(buf[..]);
      var j := LineStart(buf, keyIdx);
      assert j == 0 by {
        assert NEWLINE !in buf[..keyIdx];
      }
      r := CopyLineOut(buf, user, nbytes, before, after, Upto(buf[..]));
      r := r - j;
      assert Abs() == old(Abs());
      SetEnter(exec, false);
      ForgetLine();
    }
  }

  /** Where the cursor goes back to; `caught` is the last character of the row above. */
  function BackedX(x: int, caught: int): int {
    if x != 0 then x - 1 else caught + 1
  }

  function BackedY(x: int, y: int): int {
    if x != 0 then y else y - 1
  }

  lemma BackedIs(s: Screen, caught: int)
    requires Console.Valid(s) && (s.x != 0 || s.y != 0) && (s.x == 0 ==> caught == LastChar(s.cells, s.y - 1, 0))
    ensures EmptyAbove(s) <==> s.x == 0 && caught == -1
    ensures s.(x := BackedX(s.x, caught), y := BackedY(s.x, s.y)) ==
            if EmptyAbove(s) then s.(y := s.y - 1) else StepBack(s)
  {
  }

  lemma PutNext(s: Screen, text: seq<byte>, i: nat)
    requires Console.Valid(s) && i < |text|
    ensures PutAll(s, text[..i + 1]) == Put(PutAll(s, text[..i]), text[i])
  {
    assert text[..i + 1] == text[..i] + [text[i]];
    PutAllAppend(s, text[..i], [text[i]]);
    PutOne(PutAll(s, text[..i]), text[i]);
  }

  lemma WriteStep(s: State, text: seq<byte>, i: nat)
    requires Safe(s) && i < |text|
    ensures var r := WriteText(s, text[..i]);
            WriteText(s, text[..i + 1]) == OnView(r, r.exec, Put(View(r, r.exec), text[i]))
  {
    PutNext(View(s, s.exec), text, i);
  }
}
