/** What each event does to the three terminals, item by item, and who executes when. */
module TerminalLaws {
  import opened CStrings
  import opened Common
  import opened Console
  import opened Keyboard
  import opened Terminals
  import opened Isolation
  import Scheduler

  // ---------------------------------------------------------------- one event

  /** The flags of terminal `t` are as they were. */
  predicate SameFlags(s: State, r: State, t: nat)
    requires Shape(s) && Shape(r) && t < TERMS
  {
    r.terms[t].active == s.terms[t].active && r.terms[t].enter == s.terms[t].enter
  }

  predicate SameControl(s: State, r: State) {
    r.shown == s.shown && r.exec == s.exec && r.mods == s.mods
  }

  /** Output goes to the executing terminal's view and changes nothing else. */
  lemma WriteLaw(s: State, text: seq<byte>, t: nat)
    requires Ready(s) && t < TERMS
    ensures var r := Step(s, Write(text));
            && SameControl(s, r) && SameFlags(s, r, t) && LineOf(r, t) == LineOf(s, t)
            && View(r, t) == if t == s.exec then PutAll(View(s, t), text) else View(s, t)
  {
  }

  /** A tick makes the next active terminal the executing one and changes nothing a user could see. */
  lemma TickLaw(s: State, t: nat)
    requires Ready(s) && t < TERMS
    ensures var r := Step(s, Tick);
            && r.exec == Scheduler.Next(Active(s), s.exec)
            && r.shown == s.shown && r.mods == s.mods && r.live == s.live
            && SameFlags(s, r, t) && View(r, t) == View(s, t) && LineOf(r, t) == LineOf(s, t)
  {
    TickIsolated(s, t);
  }

  /** A read empties the line of the terminal shown, and the executing terminal waits for Enter again. */
  lemma ReadLaw(s: State, t: nat)
    requires Ready(s) && t < TERMS
    ensures var r := Step(s, Read);
            && SameControl(s, r) && View(r, t) == View(s, t)
            && LineOf(r, t) == (if t == s.shown then [] else LineOf(s, t))
            && r.terms[t].active == s.terms[t].active
            && r.terms[t].enter == (t != s.exec && s.terms[t].enter)
            && forall k :: 0 <= k < 128 ==> r.live.line.buf[k] == 32
  {
  }

  /** A switch to an active terminal shows it, and changes no view, line, flag or executing terminal. */
  lemma SwitchLaw(s: State, n: nat, outcome: Outcome, t: nat)
    requires Safe(s) && n < TERMS && t < TERMS && s.terms[n].active
    ensures var r := SwitchTo(s, n, outcome);
            && r.shown == n && r.exec == s.exec && r.mods == s.mods
            && SameFlags(s, r, t) && View(r, t) == View(s, t) && LineOf(r, t) == LineOf(s, t)
  {
    SwitchIsolated(s, n, outcome, t);
    SwitchKeepsLines(s, n, outcome, t);
  }

  /** Opening a terminal shows it, makes it execute, clears it, and activates it if its shell starts. */
  lemma OpenLaw(s: State, n: nat, outcome: Outcome, t: nat)
    requires Safe(s) && n < TERMS && t < TERMS && n != s.shown && !s.terms[n].active
    ensures var r := SwitchTo(s, n, outcome);
            && r.shown == n && r.exec == n && r.mods == s.mods
            && r.terms[t].active == (s.terms[t].active || (t == n && outcome == Started))
            && r.terms[t].enter == s.terms[t].enter
            && View(r, t) == (if t != n then View(s, t)
                              else PutAll(Cleared(), if outcome.Refused? then outcome.message else []))
            && LineOf(r, t) == LineOf(s, if t == n then s.shown else t)
  {
    SwitchIsolated(s, n, outcome, t);
    SwitchKeepsLines(s, n, outcome, t);
  }

  lemma ShownStays(s: State, outcome: Outcome)
    requires Safe(s)
    ensures SwitchTo(s, s.shown, outcome) == s
  {
  }

  /** Enter prints a newline in the terminal shown, and releases that terminal's reader. */
  lemma EnterLaw(s: State, outcome: Outcome, dump: seq<Output>, t: nat)
    requires Safe(s) && t < TERMS
    ensures var r := Do(s, Enter, outcome, dump);
            && SameControl(s, r) && LineOf(r, t) == LineOf(s, t)
            && View(r, t) == (if t == s.shown then Put(View(s, t), 10) else View(s, t))
            && r.terms[t].active == s.terms[t].active
            && r.terms[t].enter == (t == s.shown || s.terms[t].enter)
  {
    KeyLaws.EnterIsNewline(s.live);
  }

  /** Ctrl+L clears the executing terminal, and empties the line of the one shown. */
  lemma ClearLaw(s: State, outcome: Outcome, dump: seq<Output>, t: nat)
    requires Safe(s) && t < TERMS
    ensures var r := Do(s, ClearScreen, outcome, dump);
            && SameControl(s, r) && SameFlags(s, r, t)
            && View(r, t) == (if t == s.exec then Cleared() else View(s, t))
            && LineOf(r, t) == (if t == s.shown then [] else LineOf(s, t))
  {
  }

  /** A debug key clears the executing terminal; of its output, each character goes where it was sent. */
  lemma DebugLaw(s: State, digit: byte, outcome: Outcome, o: Output, t: nat)
    requires Safe(s) && t < TERMS
    ensures var c, r := Do(s, Debug(digit), outcome, []), Do(s, Debug(digit), outcome, [o]);
            && View(c, t) == (if t == s.exec then Cleared() else View(s, t))
            && View(r, t) == (if t == (if o.Direct? then s.shown else s.exec) then Put(View(c, t), o.ch) else View(c, t))
  {
    var c := ClearExec(s);
    assert [o][0] == o && [o][1..] == [];
    var next := OnView(c, if o.Direct? then s.shown else s.exec,
                       Put(View(c, if o.Direct? then s.shown else s.exec), o.ch));
    assert Dump(c, [o]) == Dump(next, []) == next;
  }

  /** Typing and backspacing act on the terminal shown only. */
  lemma EditLaw(s: State, a: Action, outcome: Outcome, dump: seq<Output>, t: nat)
    requires Safe(s) && CanDo(s.live, a) && t < TERMS && (a.Type? || a.Backspace?)
    ensures var r := Do(s, a, outcome, dump);
            && SameControl(s, r) && SameFlags(s, r, t)
            && (t != s.shown ==> View(r, t) == View(s, t) && LineOf(r, t) == LineOf(s, t))
            && r.live == if a.Type? then TypeChar(s.live, a.ch) else Erase(s.live)
  {
  }

  /** A modifier key changes the modifiers only, and a key without meaning nothing. */
  lemma ModifyLaw(s: State, m: Modifiers, outcome: Outcome, dump: seq<Output>)
    requires Safe(s)
    ensures Do(s, Modify(m), outcome, dump) == s.(mods := m) && Do(s, Nothing, outcome, dump) == s
  {
  }

  /** At boot the display is blank, the other terminals are unused, and nothing has been typed. */
  lemma BootLaw(t: nat)
    requires t < TERMS
    ensures var b := Booted();
            && View(b, 0) == Cleared() && LineOf(b, t) == [] && b.shown == 0 && b.exec == 0
            && (b.terms[t].active <==> t == 0) && !b.terms[t].enter
            && b.mods == Modifiers(false, false, false, false)
  {
  }

  // ---------------------------------------------------------------- who executes

  /** No event opens a terminal. */
  predicate NoneOpened(s: State, es: seq<Event>)
    requires Ready(s)
    decreases |es|
  {
    es == [] ||
    (StepReady(s, es[0]);
     (es[0].Key? ==>
        var a := Decode(s.mods, s.live, es[0].code);
        a.Switch? ==> a.term == s.shown || s.terms[a.term].active) &&
     NoneOpened(Step(s, es[0]), es[1..]))
  }

  function TickCount(es: seq<Event>): nat {
    if es == [] then 0 else (if es[0].Tick? then 1 else 0) + TickCount(es[1..])
  }

  lemma StepExec(s: State, e: Event)
    requires Ready(s) && NoneOpened(s, [e])
    ensures var r := Step(s, e);
            && Active(r) == Active(s)
            && r.exec == if e.Tick? then Scheduler.Next(Active(s), s.exec) else s.exec
  {
    var r := Step(s, e);
    forall t | 0 <= t < TERMS
      ensures r.terms[t].active == s.terms[t].active && (!e.Tick? ==> r.exec == s.exec)
    {
      if e.Tick? {
        TickLaw(s, t);
      } else if e.Key? {
        DoExec(s, Decode(s.mods, s.live, e.code), e.outcome, e.dump, t);
      }
    }
    assert Active(r) == Active(s);
  }

  lemma DoExec(s: State, a: Action, outcome: Outcome, dump: seq<Output>, t: nat)
    requires Safe(s) && CanDo(s.live, a) && t < TERMS
    requires a.Switch? ==> a.term == s.shown || s.terms[a.term].active
    ensures var r := Do(s, a, outcome, dump); r.terms[t].active == s.terms[t].active && r.exec == s.exec
  {
    if a.Switch? {
      if s.terms[a.term].active {
        SwitchLaw(s, a.term, outcome, t);
      }
    } else {
      KeepsActive(s, a, outcome, dump, t);
      if a.Debug? {
        DumpExec(ClearExec(s), dump);
      }
    }
  }

  lemma {:induction false} DumpExec(s: State, dump: seq<Output>)
    requires Safe(s)
    ensures Dump(s, dump).exec == s.exec
    decreases |dump|
  {
    if dump != [] {
      var owner := if dump[0].Direct? then s.shown else s.exec;
      DumpExec(OnView(s, owner, Put(View(s, owner), dump[0].ch)), dump[1..]);
    }
  }

  /** While no terminal is opened, only the ticks say which terminal executes. */
  lemma {:induction false} ExecIsTicks(s: State, es: seq<Event>)
    requires Ready(s) && NoneOpened(s, es)
    ensures Active(Run(s, es)) == Active(s)
    ensures Run(s, es).exec == Scheduler.Ticks(Active(s), s.exec, TickCount(es))
    decreases |es|
  {
    if es != [] {
      var e, rest := es[0], es[1..];
      StepReady(s, e);
      StepExec(s, e);
      var r := Step(s, e);
      ExecIsTicks(r, rest);
      var k := if e.Tick? then 1 else 0;
      assert Scheduler.Ticks(Active(s), s.exec, 0) == s.exec;
      assert r.exec == Scheduler.Ticks(Active(s), s.exec, k);
      Scheduler.TicksAdd(Active(s), s.exec, k, TickCount(rest));
    }
  }


  /**
   * Round robin over runs: of the k active terminals each executes after exactly one of any k
   * consecutive ticks, number `turn` for terminal `t`, whatever output, keys and reads come between.
   */
  lemma RunRoundRobin(s: State, m: nat, t: nat) returns (turn: nat)
    requires Ready(s) && t < TERMS && s.terms[t].active
    ensures m < turn <= m + Scheduler.Count(Active(s))
    ensures forall es :: NoneOpened(s, es) && m < TickCount(es) <= m + Scheduler.Count(Active(s)) ==>
              (Run(s, es).exec == t <==> TickCount(es) == turn)
  {
    turn := Scheduler.TurnOf(Active(s), s.exec, m, t);
    forall es | NoneOpened(s, es) && m < TickCount(es) <= m + Scheduler.Count(Active(s))
      ensures Run(s, es).exec == t <==> TickCount(es) == turn
    {
      ExecIsTicks(s, es);
    }
  }
}
