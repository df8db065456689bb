/** Every run acts on each terminal's view as if that terminal were alone. */
module Isolation {
  import opened CStrings
  import opened Console
  import opened Keyboard
  import opened Common
  import opened Terminals
  import KeyLaws
  import Scheduler

  /** What can happen to one screen on its own. */
  datatype Act = Text(text: seq<byte>) | Clear | Typing(ch: byte) | Return | Rubout

  function Perform(s: Screen, a: Act): (r: Screen)
    requires Valid(s)
    ensures Valid(r)
  {
    match a
    case Text(text) => PutAll(s, text)
    case Clear => Cleared()
    case Typing(ch) => Put(if AtEnd(s) then ScrollUp(s) else s, ch)
    case Return => Put(s, NEWLINE)
    case Rubout => if s.x == 0 && s.y == 0 then s else EraseScreen(s)
  }

  function PerformAll(s: Screen, acts: seq<Act>): (r: Screen)
    requires Valid(s)
    ensures Valid(r)
    decreases |acts|
  {
    if acts == [] then s else PerformAll(Perform(s, acts[0]), acts[1..])
  }

  lemma {:induction false} PerformAllAppend(s: Screen, a: seq<Act>, b: seq<Act>)
    requires Valid(s)
    ensures PerformAll(s, a + b) == PerformAll(PerformAll(s, a), b)
    decreases |a|
  {
    if a == [] {
      assert a + b == b;
    } else {
      assert (a + b)[0] == a[0] && (a + b)[1..] == a[1..] + b;
      PerformAllAppend(Perform(s, a[0]), a[1..], b);
    }
  }

  lemma PerformOne(s: Screen, a: Act)
    requires Valid(s)
    ensures PerformAll(s, [a]) == Perform(s, a)
  {
    assert [a][1..] == [];
    assert PerformAll(Perform(s, a), []) == Perform(s, a);
  }

  // ---------------------------------------------------------------- plainness

  lemma {:induction false} PutAllPlain(s: Screen, text: seq<byte>)
    requires Valid(s) && Plain(s)
    ensures Plain(PutAll(s, text))
    decreases |text|
  {
    if text != [] {
      assert Plain(Put(s, text[0]));
      PutAllPlain(Put(s, text[0]), text[1..]);
    }
  }

  lemma PerformPlain(s: Screen, a: Act)
    requires Valid(s) && Plain(s)
    ensures Plain(Perform(s, a))
  {
    match a
    case Text(text) => PutAllPlain(s, text);
    case Clear =>
    case Typing(ch) => assert AtEnd(s) ==> Plain(ScrollUp(s));
    case Return => assert Plain(Put(s, NEWLINE));
    case Rubout =>
  }

  lemma {:induction false} PerformAllPlain(s: Screen, acts: seq<Act>)
    requires Valid(s) && Plain(s)
    ensures Plain(PerformAll(s, acts))
    decreases |acts|
  {
    if acts != [] {
      PerformPlain(s, acts[0]);
      PerformAllPlain(Perform(s, acts[0]), acts[1..]);
    }
  }

  // ---------------------------------------------------------------- whose act an event is

  function DumpActs(shown: nat, exec: nat, dump: seq<Output>, t: nat): seq<Act> {
    if dump == [] then []
    else
      var owner := if dump[0].Direct? then shown else exec;
      (if t == owner then [Text([dump[0].ch])] else []) + DumpActs(shown, exec, dump[1..], t)
  }

  /** The acts an event performs on terminal `t`; none unless the event is that terminal's own. */
  function Acts(s: State, e: Event, t: nat): seq<Act>
    requires Shape(s)
  {
    match e
    case Write(text) => if t == s.exec then [Text(text)] else []
    case Tick => []
    case Read => []
    case Key(code, outcome, dump) => KeyActs(s, Decode(s.mods, s.live, code), outcome, dump, t)
  }

  function KeyActs(s: State, a: Action, outcome: Outcome, dump: seq<Output>, t: nat): seq<Act>
    requires Shape(s) && (a.Switch? ==> a.term < TERMS)
  {
    match a
    case Nothing => []
    case Modify(_) => []
    case Backspace => if t == s.shown && s.live.line.idx != 0 then [Rubout] else []
    case Switch(n) =>
      if t != n || n == s.shown || s.terms[n].active then []
      else if outcome.Refused? then [Clear, Text(outcome.message)]
      else [Clear]
    case ClearScreen => if t == s.exec then [Clear] else []
    case Enter => if t == s.shown then [Return] else []
    case Debug(_) => (if t == s.exec then [Clear] else []) + DumpActs(s.shown, s.exec, dump, t)
    case Type(ch) => if t == s.shown then [Typing(ch)] else []
  }

  /** A debug key's output, character by character. */
  lemma {:induction false} DumpIsolated(s: State, dump: seq<Output>, t: nat)
    requires Safe(s) && t < TERMS
    ensures View(Dump(s, dump), t) == PerformAll(View(s, t), DumpActs(s.shown, s.exec, dump, t))
    ensures Active(Dump(s, dump)) == Active(s) && Dump(s, dump).shown == s.shown
    decreases |dump|
  {
    if dump != [] {
      var c := dump[0].ch;
      var owner := if dump[0].Direct? then s.shown else s.exec;
      var first := OnView(s, owner, Put(View(s, owner), c));
      DumpIsolated(first, dump[1..], t);
      PutOne(View(s, owner), c);
      PerformOne(View(s, t), Text([c]));
      if t == owner {
        PerformAllAppend(View(s, t), [Text([c])], DumpActs(s.shown, s.exec, dump[1..], t));
      } else {
        assert [] + DumpActs(s.shown, s.exec, dump[1..], t) == DumpActs(s.shown, s.exec, dump[1..], t);
      }
    }
  }

  /** A switch to an active terminal changes no view; opening one changes only the new one's. */
  lemma SwitchIsolated(s: State, n: nat, outcome: Outcome, t: nat)
    requires Safe(s) && n < TERMS && t < TERMS
    ensures View(SwitchTo(s, n, outcome), t) ==
            if t != n || n == s.shown || s.terms[n].active then View(s, t)
            else if outcome.Refused? then PutAll(Cleared(), outcome.message)
            else Cleared()
  {
  }

  /** The line being typed in terminal `t`, wherever its buffer is kept. */
  function LineOf(s: State, t: nat): seq<byte>
    requires Safe(s) && t < TERMS
  {
    if t == s.shown then Typed(s.live.line)
    else
      assert EditorOk(Editor(s.terms[t].screen, s.terms[t].line));
      Typed(s.terms[t].line)
  }

  /**
   * A switch to an active terminal keeps every terminal's typed line. Opening a terminal keeps all
   * lines but the new one's, which starts with what had been typed in the terminal left behind.
   */
  lemma SwitchKeepsLines(s: State, n: nat, outcome: Outcome, t: nat)
    requires Safe(s) && n < TERMS && t < TERMS
    ensures LineOf(SwitchTo(s, n, outcome), t) ==
            if t == n && n != s.shown && !s.terms[n].active then LineOf(s, s.shown) else LineOf(s, t)
  {
    assert EditorOk(Editor(s.terms[t].screen, s.terms[t].line));
    assert EditorOk(Editor(s.terms[n].screen, s.terms[n].line));
  }

  /** Away and back: both the screens and the typed lines are as they were. */
  lemma ThereAndBack(s: State, n: nat, t: nat, o1: Outcome, o2: Outcome)
    requires Safe(s) && n < TERMS && t < TERMS && s.terms[n].active && s.terms[s.shown].active
    ensures var r := SwitchTo(SwitchTo(s, n, o1), s.shown, o2);
            r.shown == s.shown && View(r, t) == View(s, t) && LineOf(r, t) == LineOf(s, t)
  {
    var away := SwitchTo(s, n, o1);
    assert Active(away) == Active(s);
    assert away.terms[s.shown].active;
    SwitchIsolated(s, n, o1, t);
    SwitchIsolated(away, s.shown, o2, t);
    SwitchKeepsLines(s, n, o1, t);
    SwitchKeepsLines(away, s.shown, o2, t);
  }

  /** A tick changes no view. */
  lemma TickIsolated(s: State, t: nat)
    requires Ready(s) && t < TERMS
    ensures View(TickTo(s), t) == View(s, t)
  {
    var n := Scheduler.Next(Active(s), s.exec);
    if t == n && t != s.shown {
      RepaintPlain(View(s, t));
    }
  }

  lemma TypeIsolated(s: State, ch: byte)
    requires Safe(s) && s.live.line.idx < MAX_BUF
    ensures TypeChar(s.live, ch).screen == PerformAll(s.live.screen, [Typing(ch)])
  {
    TypeEchoesOne(s.live, ch);
    PerformOne(s.live.screen, Typing(ch));
  }

  lemma RuboutIsolated(s: State)
    requires Safe(s) && s.live.screen.x + s.live.screen.y != 0
    ensures Erase(s.live).screen == PerformAll(s.live.screen, if s.live.line.idx != 0 then [Rubout] else [])
  {
    if s.live.line.idx != 0 {
      EraseEchoesOne(s.live);
      PerformOne(s.live.screen, Rubout);
    }
  }

  lemma EditIsolated(s: State, a: Action, outcome: Outcome, dump: seq<Output>, t: nat)
    requires Safe(s) && CanDo(s.live, a) && t < TERMS
    requires a.Backspace? || a.Enter? || a.Type?
    ensures View(Do(s, a, outcome, dump), t) == PerformAll(View(s, t), KeyActs(s, a, outcome, dump, t))
  {
    if t == s.shown {
      match a
      case Backspace => RuboutIsolated(s);
      case Enter =>
        KeyLaws.EnterIsNewline(s.live);
        PerformOne(View(s, t), Return);
      case Type(ch) => TypeIsolated(s, ch);
    }
  }

  lemma OpenIsolated(s: State, n: nat, outcome: Outcome, dump: seq<Output>, t: nat)
    requires Safe(s) && n < TERMS && t < TERMS
    ensures View(Do(s, Switch(n), outcome, dump), t) ==
            PerformAll(View(s, t), KeyActs(s, Switch(n), outcome, dump, t))
  {
    var v := View(s, t);
    SwitchIsolated(s, n, outcome, t);
    PerformOne(v, Clear);
    if outcome.Refused? {
      PerformOne(Cleared(), Text(outcome.message));
      PerformAllAppend(v, [Clear], [Text(outcome.message)]);
      assert [Clear, Text(outcome.message)] == [Clear] + [Text(outcome.message)];
    }
  }

  lemma DebugIsolated(s: State, a: Action, outcome: Outcome, dump: seq<Output>, t: nat)
    requires Safe(s) && a.Debug? && t < TERMS
    ensures View(Do(s, a, outcome, dump), t) == PerformAll(View(s, t), KeyActs(s, a, outcome, dump, t))
  {
    DumpIsolated(ClearExec(s), dump, t);
    PerformOne(View(s, t), Clear);
    PerformAllAppend(View(s, t), if t == s.exec then [Clear] else [], DumpActs(s.shown, s.exec, dump, t));
  }

  lemma DoIsolated(s: State, a: Action, outcome: Outcome, dump: seq<Output>, t: nat)
    requires Safe(s) && CanDo(s.live, a) && t < TERMS
    ensures View(Do(s, a, outcome, dump), t) == PerformAll(View(s, t), KeyActs(s, a, outcome, dump, t))
  {
    match a
    case Switch(n) => OpenIsolated(s, n, outcome, dump, t);
    case ClearScreen => PerformOne(View(s, t), Clear);
    case Debug(_) => DebugIsolated(s, a, outcome, dump, t);
    case Nothing =>
    case Modify(_) =>
    case _ => EditIsolated(s, a, outcome, dump, t);
  }

  /** The kernel comes up in a state the theorems below start from. */
  lemma BootReady()
    ensures Ready(Booted())
  {
    assert Active(Booted())[0];
  }

  /** One event: every view changes by its own acts only. */
  lemma StepIsolated(s: State, e: Event, t: nat)
    requires Ready(s) && t < TERMS
    ensures View(Step(s, e), t) == PerformAll(View(s, t), Acts(s, e, t))
  {
    match e
    case Write(text) => PerformOne(View(s, t), Text(text));
    case Tick => TickIsolated(s, t);
    case Key(code, outcome, dump) => DoIsolated(s, Decode(s.mods, s.live, code), outcome, dump, t);
    case Read =>
  }

  predicate Lit(s: State, t: nat)
    requires Shape(s) && t < TERMS
  {
    t == s.shown || s.terms[t].active
  }

  lemma SwitchActive(s: State, n: nat, outcome: Outcome, t: nat)
    requires Safe(s) && n < TERMS && t < TERMS
    ensures var r := SwitchTo(s, n, outcome);
            && (s.terms[t].active ==> r.terms[t].active)
            && (Lit(r, t) ==> Lit(s, t) || (t == n && n != s.shown && !s.terms[n].active))
  {
  }

  /** No step deactivates a terminal, and one that comes up starts by being cleared. */
  lemma DoActive(s: State, a: Action, outcome: Outcome, dump: seq<Output>, t: nat)
    requires Safe(s) && CanDo(s.live, a) && t < TERMS
    ensures s.terms[t].active ==> Do(s, a, outcome, dump).terms[t].active
    ensures var acts := KeyActs(s, a, outcome, dump, t);
            Lit(Do(s, a, outcome, dump), t) ==> Lit(s, t) || (acts != [] && acts[0] == Clear)
  {
    if a.Switch? {
      SwitchActive(s, a.term, outcome, t);
    } else {
      KeepsActive(s, a, outcome, dump, t);
    }
  }

  lemma KeepsActive(s: State, a: Action, outcome: Outcome, dump: seq<Output>, t: nat)
    requires Safe(s) && CanDo(s.live, a) && t < TERMS && !a.Switch?
    ensures var r := Do(s, a, outcome, dump); r.terms[t].active == s.terms[t].active && r.shown == s.shown
  {
    if a.Debug? {
      var c := ClearExec(s);
      DumpIsolated(c, dump, t);
      assert Active(Dump(c, dump))[t] == Active(s)[t];
    } else if a.ClearScreen? {
      assert Active(ClearExec(s))[t] == Active(s)[t];
    }
  }

  lemma StepActive(s: State, e: Event, t: nat)
    requires Ready(s) && t < TERMS
    ensures s.terms[t].active ==> Step(s, e).terms[t].active
    ensures Lit(Step(s, e), t) ==> Lit(s, t) || (Acts(s, e, t) != [] && Acts(s, e, t)[0] == Clear)
  {
    if e.Key? {
      DoActive(s, Decode(s.mods, s.live, e.code), e.outcome, e.dump, t);
    } else if e.Write? {
      assert Active(WriteText(s, e.text))[t] == Active(s)[t];
    }
  }

  lemma StepReady(s: State, e: Event)
    requires Ready(s)
    ensures Ready(Step(s, e))
  {
    var r := Step(s, e);
    var k :| 0 <= k < TERMS && Active(s)[k];
    StepActive(s, e, k);
    assert Active(r)[k];
    forall t | 0 <= t < TERMS && (t == r.shown || r.terms[t].active)
      ensures Plain(View(r, t))
    {
      StepIsolated(s, e, t);
      StepActive(s, e, t);
      var a := Acts(s, e, t);
      if t == s.shown || s.terms[t].active {
        PerformAllPlain(View(s, t), a);
      } else {
        PerformAllPlain(Cleared(), a[1..]);
      }
    }
  }

  // ---------------------------------------------------------------- runs

  function Run(s: State, es: seq<Event>): (r: State)
    requires Ready(s)
    ensures Ready(r)
    decreases |es|
  {
    if es == [] then s
    else
      StepReady(s, es[0]);
      Run(Step(s, es[0]), es[1..])
  }

  function RunActs(s: State, es: seq<Event>, t: nat): seq<Act>
    requires Ready(s)
    decreases |es|
  {
    if es == [] then []
    else
      StepReady(s, es[0]);
      Acts(s, es[0], t) + RunActs(Step(s, es[0]), es[1..], t)
  }

  /**
   * Terminal isolation: after any run the view of any terminal is what its own acts alone
   * make of it, however they were interleaved with other terminals' output, with ticks and
   * with switches, and whether or not the terminal was displayed meanwhile.
   */
  lemma {:induction false} Isolated(s: State, es: seq<Event>, t: nat)
    requires Ready(s) && t < TERMS
    ensures View(Run(s, es), t) == PerformAll(View(s, t), RunActs(s, es, t))
    decreases |es|
  {
    if es != [] {
      StepReady(s, es[0]);
      StepIsolated(s, es[0], t);
      var next := Step(s, es[0]);
      Isolated(next, es[1..], t);
      PerformAllAppend(View(s, t), Acts(s, es[0], t), RunActs(next, es[1..], t));
    }
  }

  // ---------------------------------------------------------------- programs' output

  /** Output, ticks, and switches among active terminals. */
  predicate OutputRun(s: State, es: seq<Event>)
    requires Ready(s)
    decreases |es|
  {
    es == [] ||
    (StepReady(s, es[0]);
     (match es[0]
      case Write(_) => true
      case Tick => true
      case Read => true
      case Key(code, _, _) =>
        var a := Decode(s.mods, s.live, code);
        a.Modify? || (a.Switch? && s.terms[a.term].active)) &&
     OutputRun(Step(s, es[0]), es[1..]))
  }

  /** What the programs of terminal `t` printed during the run. */
  function Printed(s: State, es: seq<Event>, t: nat): seq<byte>
    requires Ready(s)
    decreases |es|
  {
    if es == [] then []
    else
      StepReady(s, es[0]);
      (if es[0].Write? && t == s.exec then es[0].text else []) + Printed(Step(s, es[0]), es[1..], t)
  }

  /** The view is one console function folded over the terminal's own characters. */
  lemma {:induction false} OutputIsolated(s: State, es: seq<Event>, t: nat)
    requires Ready(s) && t < TERMS && OutputRun(s, es)
    ensures View(Run(s, es), t) == PutAll(View(s, t), Printed(s, es, t))
    decreases |es|
  {
    if es != [] {
      StepReady(s, es[0]);
      StepIsolated(s, es[0], t);
      var next := Step(s, es[0]);
      OutputIsolated(next, es[1..], t);
      var text := if es[0].Write? && t == s.exec then es[0].text else [];
      PutAllAppend(View(s, t), text, Printed(next, es[1..], t));
      PerformOne(View(s, t), Text(text));
    }
  }

  /**
   * A terminal that starts cleared always shows the last rows of the page that its own
   * output, and nothing else, would fill.
   */
  lemma TerminalIsWindow(s: State, es: seq<Event>, t: nat)
    requires Ready(s) && t < TERMS && OutputRun(s, es) && View(s, t) == Cleared()
    ensures View(Run(s, es), t) == Window(PrintAll(EmptyPage, Printed(s, es, t)))
  {
    OutputIsolated(s, es, t);
    ClearedIsWindow();
    ScreenIsWindow(EmptyPage, Printed(s, es, t));
  }
}
