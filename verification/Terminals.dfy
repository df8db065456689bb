/**
 * Three terminals on one screen and one keyboard: terminal.c, the screen part of
 * switch_task, and keyboard_handler, each handler or system call as one step.
 */
module Terminals {
  import opened CStrings
  import opened Console
  import opened Keyboard
  import opened Common
  import Scheduler

  /** A terminal_t: what a terminal keeps while it is not displayed. */
  datatype Saved = Saved(active: bool, screen: Screen, line: Line, enter: bool)

  /**
   * `live` is video memory with `screen_x`, `screen_y` and the keyboard buffer; `shown` is
   * curr_terminal_number and `exec` the scheduler's curr_term.
   */
  datatype State = State(live: Editor, terms: seq<Saved>, shown: nat, exec: nat, mods: Modifiers)

  /**
   * How the shell started in a newly opened terminal turns out; `message` is what execute
   * prints when all process slots are taken.
   */
  datatype Outcome = Started | Refused(message: seq<byte>) | Failed

  /** One character of a debug key's output: straight to the display or through terminal_write. */
  datatype Output = Direct(ch: byte) | Written(ch: byte)

  datatype Event =
    | Write(text: seq<byte>)
    | Tick
    | Key(code: byte, outcome: Outcome, dump: seq<Output>)
    | Read

  // ---------------------------------------------------------------- invariant

  function Active(s: State): (a: seq<bool>)
    ensures |a| == |s.terms| && forall t :: 0 <= t < |a| ==> a[t] == s.terms[t].active
  {
    seq(|s.terms|, t requires 0 <= t < |s.terms| => s.terms[t].active)
  }

  /** What terminal `t` looks like: the display if it is shown, its saved screen otherwise. */
  function View(s: State, t: nat): Screen
    requires t < |s.terms|
  {
    if t == s.shown then s.live.screen else s.terms[t].screen
  }

  predicate Shape(s: State) {
    |s.terms| == TERMS && s.shown < TERMS && s.exec < TERMS
  }

  /** Cursor safety and index agreement, for the live state and for every saved one. */
  predicate Safe(s: State) {
    && Shape(s)
    && EditorOk(s.live)
    && forall t :: 0 <= t < TERMS ==> EditorOk(Editor(s.terms[t].screen, s.terms[t].line))
  }

  predicate Ready(s: State) {
    && Safe(s)
    && Scheduler.SomeActive(Active(s))
    && forall t :: 0 <= t < TERMS && (t == s.shown || s.terms[t].active) ==> Plain(View(s, t))
  }

  /**
   * What terminal_init leaves in terminal `i`. Its inner loop uses the outer index, so only
   * cell `i` is blanked; the rest keeps the zero attributes of uninitialised memory.
   */
  function Fresh(i: nat): (r: Saved)
    ensures EditorOk(Editor(r.screen, r.line)) && !r.active
  {
    Saved(false, Screen(seq(CELLS, k => if k == i then BLANK else Cell(NUL, 0)), 0, 0),
          Line(Spaces() + [NUL], 0, 0), false)
  }

  /** After the kernel's clear, keyboard_init and terminal_init, before any program runs. */
  function Boot(): (s: State)
    ensures Safe(s)
  {
    State(Editor(Cleared(), Line(Spaces() + [NUL], 0, 0)), [Fresh(0), Fresh(1), Fresh(2)], 0, 0,
          Modifiers(false, false, false, false))
  }

  /** After the first shell has started in terminal 0. */
  function Booted(): (s: State)
    ensures Safe(s)
  {
    var b := Boot();
    b.(terms := b.terms[0 := b.terms[0].(active := true)])
  }

  // ---------------------------------------------------------------- steps

  function OnLive(s: State, screen: Screen): (r: State)
    ensures Safe(s) && Valid(screen) ==> Safe(r)
  {
    s.(live := Editor(screen, s.live.line))
  }

  function OnSaved(s: State, t: nat, screen: Screen): (r: State)
    requires t < |s.terms|
    ensures Safe(s) && Valid(screen) ==> Safe(r)
  {
    s.(terms := s.terms[t := s.terms[t].(screen := screen)])
  }

  /** Change the screen of `t` wherever it is kept. */
  function OnView(s: State, t: nat, screen: Screen): (r: State)
    requires Shape(s) && t < TERMS
    ensures Shape(r) && View(r, t) == screen
    ensures forall u :: 0 <= u < TERMS && u != t ==> View(r, u) == View(s, u)
    ensures Active(r) == Active(s)
    ensures Safe(s) && Valid(screen) ==> Safe(r)
  {
    if t == s.shown then OnLive(s, screen) else OnSaved(s, t, screen)
  }

  /** terminal_write's choice between putc and putc_nodisplay. */
  function WriteText(s: State, text: seq<byte>): (r: State)
    requires Safe(s)
    ensures Safe(r)
  {
    OnView(s, s.exec, PutAll(View(s, s.exec), text))
  }

  /** clear, which follows the executing terminal, not the one shown. */
  function ClearExec(s: State): (r: State)
    requires Safe(s)
    ensures Safe(r)
  {
    OnView(s, s.exec, Cleared())
  }

  /** memcpy of the first MAX_BUF bytes of a keyboard buffer; its last byte stays behind. */
  function CopyLine(from: Line, to: Line): (r: Line)
    requires LineOk(from) && LineOk(to)
    ensures LineOk(r) && Typed(r) == Typed(from)
  {
    var r := Line(from.buf[..MAX_BUF] + to.buf[MAX_BUF..], from.idx, from.last);
    assert r.buf[..r.idx] == from.buf[..r.idx];
    r
  }

  /** save_terminal_state */
  function Save(s: State): (r: State)
    requires Safe(s)
    ensures Safe(r)
  {
    var was := s.terms[s.shown];
    assert EditorOk(Editor(was.screen, was.line));
    s.(terms := s.terms[s.shown := Saved(was.active, s.live.screen, CopyLine(s.live.line, was.line), was.enter)])
  }

  /** restore_terminal_state */
  function Restore(s: State, t: nat): (r: State)
    requires Safe(s) && t < TERMS
    ensures Safe(r)
  {
    assert EditorOk(Editor(s.terms[t].screen, s.terms[t].line));
    s.(live := Editor(s.terms[t].screen, CopyLine(s.terms[t].line, s.live.line)))
  }

  /** What execute("shell") does to the terminals and the screen. */
  function Opened(s: State, outcome: Outcome): (r: State)
    requires Safe(s)
    ensures Safe(r)
  {
    match outcome
    case Started => s.(terms := s.terms[s.shown := s.terms[s.shown].(active := true)])
    case Refused(message) => OnLive(s, PutAll(s.live.screen, message))
    case Failed => s
  }

  /** switch_terminal; a terminal that is not active is opened with a shell. */
  function SwitchTo(s: State, t: nat, outcome: Outcome): (r: State)
    requires Safe(s) && t < TERMS
    ensures Safe(r)
  {
    if t == s.shown then s
    else if !s.terms[t].active then
      Opened(ClearExec(Save(s).(shown := t, exec := t)), outcome)
    else
      Restore(Save(s), t).(shown := t)
  }

  /** The screen part of switch_task. */
  function TickTo(s: State): (r: State)
    requires Safe(s) && Scheduler.SomeActive(Active(s))
    ensures Safe(r)
  {
    var t := Scheduler.Next(Active(s), s.exec);
    var screen := s.terms[t].screen;
    assert EditorOk(Editor(screen, s.terms[t].line));
    OnSaved(s, t, screen.(cells := Repainted(screen.cells))).(exec := t)
  }

  /** What the debug keys print after clearing. */
  function Dump(s: State, dump: seq<Output>): (r: State)
    requires Safe(s)
    ensures Safe(r)
    decreases |dump|
  {
    if dump == [] then s
    else
      var first := match dump[0]
        case Direct(c) => OnView(s, s.shown, Put(s.live.screen, c))
        case Written(c) => OnView(s, s.exec, Put(View(s, s.exec), c));
      Dump(first, dump[1..])
  }

  function Spaces(): (r: seq<byte>)
    ensures |r| == MAX_BUF && forall i :: 0 <= i < |r| ==> r[i] == SPACE
  {
    seq(MAX_BUF, _ => SPACE)
  }

  function ResetLine(l: Line): (r: Line)
    requires LineOk(l)
    ensures TextOk(r) && r.idx == 0
  {
    Line(Spaces() + l.buf[MAX_BUF..], 0, 0)
  }

  function Edited(s: State, e: Editor): (r: State)
    requires Safe(s) && EditorOk(e)
    ensures Safe(r)
  {
    s.(live := e)
  }

  /** keyboard_handler */
  function Press(s: State, code: byte, outcome: Outcome, dump: seq<Output>): (r: State)
    requires Safe(s)
    ensures Safe(r)
  {
    Do(s, Decode(s.mods, s.live, code), outcome, dump)
  }

  function Do(s: State, a: Action, outcome: Outcome, dump: seq<Output>): (r: State)
    requires Safe(s) && CanDo(s.live, a)
    ensures Safe(r)
  {
    EditorStaysOk(s.live, if a.Type? then a.ch else SPACE);
    match a
    case Nothing => s
    case Modify(m) => s.(mods := m)
    case Backspace => Edited(s, Erase(s.live))
    case Switch(t) => SwitchTo(s, t, outcome)
    case ClearScreen =>
      var c := ClearExec(s);
      Edited(c, Editor(c.live.screen, ResetLine(c.live.line)))
    case Enter =>
      var e := Edited(s, PressEnter(s.live));
      e.(terms := e.terms[e.shown := e.terms[e.shown].(enter := true)])
    case Debug(_) => Dump(ClearExec(s), dump)
    case Type(ch) => Edited(s, TypeChar(s.live, ch))
  }

  /** keyboard_read's effect on the kernel: it empties the line of the terminal shown. */
  function AfterRead(s: State): (r: State)
    requires Safe(s)
    ensures Safe(r)
  {
    var e := Edited(s, Editor(s.live.screen, ResetLine(s.live.line)));
    e.(terms := e.terms[e.exec := e.terms[e.exec].(enter := false)])
  }

  function Step(s: State, e: Event): (r: State)
    requires Safe(s) && Scheduler.SomeActive(Active(s))
    ensures Safe(r)
  {
    match e
    case Write(text) => WriteText(s, text)
    case Tick => TickTo(s)
    case Key(code, outcome, dump) => Press(s, code, outcome, dump)
    case Read => AfterRead(s)
  }
}
