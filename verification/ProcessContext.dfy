/** The running process's page and kernel stack stay in step with curr_process. */
module ProcessContext {
  import opened Common
  import opened Paging
  import opened Processes
  import opened ProcessForest
  import Scheduler

  lemma EnterContext(m: Space, p: int)
    requires SpaceOk(m)
    ensures Context(EnterSpace(m, p), p)
  {
    forall va: address | InUserPage(va)
      ensures Translate(EnterSpace(m, p).tables, va) == Place(Frame(p), va % FOUR_MB)
    {
      MapRefines(m.tables, USER_PAGE, Frame(p), va);
    }
  }

  lemma UserEntryLarge(m: Space, p: int, va: address)
    requires SpaceOk(m) && Context(m, p) && InUserPage(va)
    ensures var pde := m.tables.dir[Region(va)]; Present(pde) && Large(pde)
  {
    // The last byte of the page is farther in than a 4 KB page reaches.
    var end: address := USER_PAGE + FOUR_MB - 1;
    assert InUserPage(end);
    assert Translate(m.tables, end).offset == FOUR_MB - 1;
  }

  /** Mapping the display leaves the user page alone, aligned frame or not. */
  lemma ShowContext(m: Space, phys: bv32, p: int)
    requires SpaceOk(m) && Context(m, p)
    ensures Context(ShowSpace(m, phys), p)
  {
    forall va: address | InUserPage(va)
      ensures Translate(ShowSpace(m, phys).tables, va) == Translate(m.tables, va)
    {
      assert Region(USER_VIDEO) != Region(va);
      UserEntryLarge(m, p, va);
    }
  }

  /**
   * Context agreement: through every execute, halt, tick and switch, failed ones included, the
   * user page shows curr_process's frame and the kernel stack is its own.
   */
  lemma StepContext(s: State, e: Event)
    requires Possible(s.table, e) && SpaceOk(s.space) && Context(s.space, s.table.curr)
    ensures Context(Step(s, e).space, Step(s, e).table.curr)
  {
    var t, m := s.table, s.space;
    match e
    case Execute(o) => ExecuteContext(t, m, o);
    case Halt(o) => EnterContext(m, DoHalt(t, o).curr);
    case Tick =>
      var n := Scheduler.Next(t.active, t.exec);
      EnterContext(ShowSpace(m, VIDEO), t.top[n]);
      ShowContext(EnterSpace(ShowSpace(m, VIDEO), t.top[n]), m.shadows[n], t.top[n]);
    case SwitchTerminal(n, o) =>
      if n != t.shown {
        ExecuteContext(t.(shown := n, exec := n), m, o);
        ShowContext(m, VIDEO, t.curr);
        ShowContext(ShowSpace(m, VIDEO), m.shadows[n], t.curr);
      }
  }

  lemma ExecuteContext(t: Table, m: Space, o: Outcome)
    requires Shape(t) && SpaceOk(m) && Context(m, t.curr)
    ensures Context(ExecuteSpace(t, m, o), DoExecute(t, o).curr)
  {
    if o.Runs? && HasFree(t) {
      EnterContext(m, FirstFree(t.marked));
    }
  }

  /** The first successful execute establishes it, whatever was mapped before. */
  lemma FirstContext(t: Table, m: Space)
    requires Shape(t) && SpaceOk(m) && HasFree(t)
    ensures Context(ExecuteSpace(t, m, Runs), DoExecute(t, Runs).curr)
  {
    EnterContext(m, FirstFree(t.marked));
  }

  // ---------------------------------------------------------------- the user's video page

  /** An address of the page vidmap hands out. */
  predicate InVideoPage(va: address) {
    USER_VIDEO <= va < USER_VIDEO + FOUR_KB
  }

  lemma VideoPage(va: address)
    requires InVideoPage(va)
    ensures Region(va) == Region(USER_VIDEO) != Region(USER_PAGE) && PageInRegion(va) == 0 && va % FOUR_KB == va - USER_VIDEO
  {
  }

  lemma ShowIs(m: Space, phys: bv32, va: address)
    requires SpaceOk(m) && InVideoPage(va)
    ensures Translate(ShowSpace(m, phys).tables, va) == Place(Base4K(phys), va - USER_VIDEO)
  {
    VideoPage(va);
    MapVideoRefines(m.tables, USER_VIDEO, phys, va);
  }

  lemma EnterKeepsVideo(m: Space, p: int, va: address)
    requires SpaceOk(m) && InVideoPage(va)
    ensures Translate(EnterSpace(m, p).tables, va) == Translate(m.tables, va)
  {
    VideoPage(va);
    MapRefines(m.tables, USER_PAGE, Frame(p), va);
  }

  /** After a tick the page shows the display if the executing terminal is shown, its saved screen if not. */
  lemma TickShows(s: State, va: address, n: nat)
    requires Possible(s.table, Tick) && SpaceOk(s.space) && InVideoPage(va)
    requires n == Step(s, Tick).table.exec
    ensures Translate(Step(s, Tick).space.tables, va) ==
            Place(if n == s.table.shown then Base4K(VIDEO) else Base4K(s.space.shadows[n]), va - USER_VIDEO)
  {
    var m := s.space;
    var entered := EnterSpace(ShowSpace(m, VIDEO), s.table.top[n]);
    if n == s.table.shown {
      ShowIs(m, VIDEO, va);
      EnterKeepsVideo(ShowSpace(m, VIDEO), s.table.top[n], va);
    } else {
      ShowIs(entered, m.shadows[n], va);
    }
  }

  /** After a switch to an active terminal, likewise; the saved screen it shows is the one switched to. */
  lemma SwitchShows(s: State, va: address, n: nat, o: Outcome)
    requires Possible(s.table, SwitchTerminal(n, o)) && SpaceOk(s.space) && InVideoPage(va)
    requires n != s.table.shown && s.table.active[n]
    ensures Translate(Step(s, SwitchTerminal(n, o)).space.tables, va) ==
            Place(if n == s.table.exec then Base4K(VIDEO) else Base4K(s.space.shadows[n]), va - USER_VIDEO)
  {
    ShowIs(s.space, VIDEO, va);
    ShowIs(ShowSpace(s.space, VIDEO), s.space.shadows[n], va);
  }

  /** Slot `p` has the `p`-th 4 MB frame above 8 MB, and the `p`-th 8 KB of stack below. */
  lemma FrameIs(p: int)
    requires IsSlot(p)
    ensures Frame(p) as int == 0x800000 + 0x400000 * p && StackTop(p) == 0x800000 - 0x2000 * p - 4
  {
  }

  // ---------------------------------------------------------------- every run

  /**
   * What outlives failed executes: the current process, and that of each active terminal, is a slot that
   * has been entered (`ran`), and so is every parent of such a slot. Nothing is said of the marks.
   */
  ghost predicate Entered(t: Table, ran: set<int>)
    requires Shape(t)
  {
    && t.curr in ran
    && (forall p :: p in ran ==> IsSlot(p) && (t.ppid[p] == -1 || t.ppid[p] in ran))
    && (forall u :: 0 <= u < TERMS && (t.active[u] || IsSlot(t.top[u])) ==> t.top[u] in ran)
  }

  ghost predicate Sturdy(t: Table) {
    Shape(t) && Scheduler.SomeActive(t.active) && exists ran :: Entered(t, ran)
  }

  /** The terminal shown is active, or becomes so together with its current process. */
  predicate Anchored(t: Table)
    requires Shape(t)
  {
    t.active[t.shown] || t.shown == t.exec || IsSlot(t.top[t.shown])
  }

  /**
   * The guard: only the restart of a terminal's last shell must not fail. (And when a failed opening has
   * left an inactive terminal on display, no other terminal may execute a program meanwhile.)
   */
  predicate Steady(t: Table, e: Event)
    requires Possible(t, e)
  {
    match e
    case Execute(o) => o.Runs? && HasFree(t) ==> Anchored(t)
    case Halt(o) => t.ppid[t.curr] == -1 ==> o.Runs? && Anchored(t)
    case Tick => true
    case SwitchTerminal(_, _) => true
  }

  lemma ExecuteSturdy(t: Table, ran: set<int>, o: Outcome)
    requires Shape(t) && Entered(t, ran) && (o.Runs? && HasFree(t) ==> Anchored(t))
    ensures exists now :: Entered(DoExecute(t, o), now)
  {
    var n := FirstFree(t.marked);
    var r := DoExecute(t, o);
    if o.Runs? && HasFree(t) {
      assert Entered(r, ran + {n});
    } else {
      assert Entered(r, ran);
    }
  }

  lemma ExecuteSome(t: Table, o: Outcome)
    requires Shape(t) && (Scheduler.SomeActive(t.active) || (o.Runs? && HasFree(t)))
    ensures Scheduler.SomeActive(DoExecute(t, o).active)
  {
    var r := DoExecute(t, o);
    if Scheduler.SomeActive(t.active) {
      var u :| 0 <= u < TERMS && t.active[u];
      assert r.active[u];
    } else {
      assert r.active[t.shown];
    }
  }

  /** An execute that runs where nothing holds the terminal shown leaves an active terminal without a process. */
  lemma Unanchored(t: Table, ran: set<int>)
    requires Shape(t) && HasFree(t) && !Anchored(t)
    ensures !Entered(DoExecute(t, Runs), ran)
  {
    var r := DoExecute(t, Runs);
    assert r.active[t.shown] && !IsSlot(r.top[t.shown]);
  }

  lemma HaltChildSturdy(t: Table, o: Outcome, ran: set<int>)
    requires Sturdy(t) && Entered(t, ran) && t.ppid[t.curr] != -1
    ensures Sturdy(DoHalt(t, o))
  {
    assert Entered(DoHalt(t, o), ran);
  }

  /** Restarting the shell: the table in which execute is called. */
  function Vacated(t: Table): (r: Table)
    requires Shape(t)
    ensures Shape(r) && HasFree(r) && (Anchored(r) ==> Anchored(t))
  {
    assert !t.marked[t.curr := false][t.curr];
    t.(marked := t.marked[t.curr := false], active := t.active[t.shown := false])
  }

  lemma RestartExact(t: Table, ran: set<int>)
    requires Shape(t) && Entered(t, ran) && t.ppid[t.curr] == -1
    ensures Sturdy(DoHalt(t, Runs)) <==> Anchored(t)
  {
    var v := Vacated(t);
    assert DoHalt(t, Runs) == DoExecute(v, Runs);
    assert Entered(v, ran);
    ExecuteSome(v, Runs);
    assert Anchored(v) == Anchored(t);
    if Anchored(v) {
      ExecuteSturdy(v, ran, Runs);
    } else {
      forall now ensures !Entered(DoExecute(v, Runs), now) {
        Unanchored(v, now);
      }
    }
  }

  /** One step of any kind keeps the table sturdy if and only if it is steady. */
  lemma SturdyExact(t: Table, e: Event)
    requires Sturdy(t) && Possible(t, e)
    ensures Sturdy(TableStep(t, e)) <==> Steady(t, e)
  {
    var ran :| Entered(t, ran);
    match e
    case Execute(o) =>
      ExecuteSome(t, o);
      if Steady(t, e) {
        ExecuteSturdy(t, ran, o);
      } else {
        forall now ensures !Entered(DoExecute(t, o), now) {
          Unanchored(t, now);
        }
      }
    case Halt(o) =>
      if t.ppid[t.curr] != -1 {
        HaltChildSturdy(t, o, ran);
      } else if o.Runs? {
        RestartExact(t, ran);
      }
    case Tick => assert Entered(DoTick(t), ran);
    case SwitchTerminal(n, o) =>
      if n != t.shown && !t.active[n] {
        var m := t.(shown := n, exec := n);
        assert Entered(m, ran);
        ExecuteSturdy(m, ran, o);
        ExecuteSome(m, o);
      } else {
        assert Entered(DoSwitch(t, n, o), ran);
      }
  }

  ghost predicate PossibleRun(t: Table, es: seq<Event>)
    decreases |es|
  {
    es == [] || (Possible(t, es[0]) && PossibleRun(TableStep(t, es[0]), es[1..]))
  }

  ghost predicate AlwaysSturdy(t: Table, es: seq<Event>)
    decreases |es|
  {
    Sturdy(t) && (es == [] || (Possible(t, es[0]) && AlwaysSturdy(TableStep(t, es[0]), es[1..])))
  }

  ghost predicate SteadyRun(t: Table, es: seq<Event>)
    decreases |es|
  {
    es == [] || (Possible(t, es[0]) && Steady(t, es[0]) && SteadyRun(TableStep(t, es[0]), es[1..]))
  }

  /** Over every run the table stays sturdy if and only if every event is steady; then no event is impossible. */
  lemma {:induction false} SturdyRunExact(t: Table, es: seq<Event>)
    requires Sturdy(t) && Feasible(es)
    ensures AlwaysSturdy(t, es) <==> SteadyRun(t, es)
    ensures SteadyRun(t, es) ==> PossibleRun(t, es)
    decreases |es|
  {
    if es != [] {
      SturdyExact(t, es[0]);
      if Steady(t, es[0]) {
        SturdyRunExact(TableStep(t, es[0]), es[1..]);
      }
    }
  }

  /** The context of the current process is in place in every state of the run, and every event was possible. */
  ghost predicate Agrees(s: State, es: seq<Event>)
    decreases |es|
  {
    && SpaceOk(s.space) && Context(s.space, s.table.curr)
    && (es == [] || (Possible(s.table, es[0]) && Agrees(Step(s, es[0]), es[1..])))
  }

  /** Through every run whatever, as long as there is a current process and an active terminal. */
  lemma {:induction false} ContextAlways(s: State, es: seq<Event>)
    requires SpaceOk(s.space) && Context(s.space, s.table.curr) && PossibleRun(s.table, es)
    ensures Agrees(s, es)
    decreases |es|
  {
    if es != [] {
      StepContext(s, es[0]);
      ContextAlways(Step(s, es[0]), es[1..]);
    }
  }

  /** Context agreement over every steady run, failed executes included. */
  lemma RunAgrees(s: State, es: seq<Event>)
    requires SpaceOk(s.space) && Context(s.space, s.table.curr)
    requires Sturdy(s.table) && Feasible(es) && SteadyRun(s.table, es)
    ensures Agrees(s, es) && AlwaysSturdy(s.table, es)
  {
    SturdyRunExact(s.table, es);
    ContextAlways(s, es);
  }

  /** The first shell, started from the empty table at boot, gives a sturdy table with its context in place. */
  lemma FirstSturdy(t: Table, m: Space)
    requires Shape(t) && SpaceOk(m) && t.marked == NoneMarked() && t.shown == t.exec == 0
    requires forall u :: 0 <= u < TERMS ==> !t.active[u] && t.top[u] == -1
    ensures Sturdy(DoExecute(t, Runs)) && Context(ExecuteSpace(t, m, Runs), DoExecute(t, Runs).curr)
  {
    assert FirstFree(t.marked) == 0;
    assert Entered(DoExecute(t, Runs), {0});
    assert DoExecute(t, Runs).active[0];
    FirstContext(t, m);
  }

  // ---------------------------------------------------------------- good runs

  ghost function RunAll(s: State, es: seq<Event>): (r: State)
    requires SpaceOk(s.space) && Inv(s.table) && Feasible(es) && GoodRun(s.table, es)
    ensures SpaceOk(r.space) && Inv(r.table)
    decreases |es|
  {
    if es == [] then s
    else
      InvPossible(s.table, es[0]);
      GoodKeeps(s.table, es[0]);
      RunAll(Step(s, es[0]), es[1..])
  }

  /** Over every good run the current process heads its terminal's chain and its context is in place. */
  lemma {:induction false} RunContext(s: State, es: seq<Event>)
    requires SpaceOk(s.space) && Inv(s.table) && Feasible(es) && GoodRun(s.table, es)
    requires Context(s.space, s.table.curr)
    ensures var r := RunAll(s, es); Context(r.space, r.table.curr) && r.table.curr == r.table.top[r.table.exec]
    decreases |es|
  {
    if es != [] {
      var e, rest := es[0], es[1..];
      InvPossible(s.table, e);
      GoodKeeps(s.table, e);
      StepContext(s, e);
      RunContext(Step(s, e), rest);
    }
  }

  /** Frames and kernel stacks of distinct slots do not overlap. */
  lemma SlotsApart(p: int, q: int, a: int)
    requires IsSlot(p) && IsSlot(q) && p != q
    ensures Frame(p) != Frame(q)
    ensures InStack(p, StackTop(p)) && InStack(p, StackTop(p) + 3) && !InStack(p, StackTop(p) + 4)
    ensures !(InStack(p, a) && InStack(q, a))
  {
    if p < q {
      assert STACK * (p + 1) <= STACK * q;
    } else {
      assert STACK * (q + 1) <= STACK * p;
    }
  }
}
