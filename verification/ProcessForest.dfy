/** The parent links form one chain per active terminal, on exactly the runs that meet no failed execute. */
module ProcessForest {
  import opened ChainMachine
  import opened Common
  import opened Processes
  import Scheduler

  // ---------------------------------------------------------------- chains

  /** A chain is determined by its head. */
  lemma {:induction false} ChainUnique(ppid: seq<int>, a: seq<int>, b: seq<int>)
    requires |ppid| == SLOTS && IsChain(ppid, a) && IsChain(ppid, b) && a[0] == b[0]
    ensures a == b
    decreases |a|
  {
    if |a| > 1 {
      assert IsSlot(a[1]) && ppid[a[0]] == a[1];
      assert |b| > 1;
      ChainTail(ppid, a);
      ChainTail(ppid, b);
      assert ppid[b[0]] == b[1];
      ChainUnique(ppid, a[1..], b[1..]);
      assert a == [a[0]] + a[1..] && b == [b[0]] + b[1..];
    } else {
      assert |b| == 1 by {
        if |b| > 1 {
          ChainTail(ppid, b);
        }
      }
    }
  }

  lemma ChainTail(ppid: seq<int>, c: seq<int>)
    requires |ppid| == SLOTS && IsChain(ppid, c) && |c| > 1
    ensures IsChain(ppid, c[1..]) && c[1] == ppid[c[0]]
  {
    forall i | 0 <= i < |c[1..]| - 1
      ensures ppid[c[1..][i]] == c[1..][i + 1]
    {
      assert ppid[c[i + 1]] == c[i + 2];
    }
  }

  lemma ChainHead(ppid: seq<int>, n: int, c: seq<int>)
    requires |ppid| == SLOTS && IsSlot(n)
    requires if c == [] then ppid[n] == -1 else IsChain(ppid, c) && ppid[n] == c[0]
    ensures IsChain(ppid, [n] + c)
  {
    var d := [n] + c;
    forall i | 0 <= i < |d| - 1
      ensures ppid[d[i]] == d[i + 1]
    {
      assert i > 0 ==> ppid[c[i - 1]] == c[i];
    }
  }

  lemma ChainElsewhere(ppid: seq<int>, c: seq<int>, n: int, x: int)
    requires |ppid| == SLOTS && IsChain(ppid, c) && IsSlot(n) && n !in c
    ensures IsChain(ppid[n := x], c)
  {
  }

  // ---------------------------------------------------------------- steps of the table

  /** Slot `n` goes on top of terminal `u`'s chain, or starts one: links and heads of table `r`. */
  ghost predicate PushLinks(t: Table, chains: seq<seq<int>>, r: Table, u: nat, n: nat)
    requires Shape(t) && Shape(r) && u < TERMS && IsSlot(n) && |chains| == TERMS
  {
    && (forall w :: 0 <= w < TERMS && w != u ==>
          r.active[w] == t.active[w] && r.top[w] == t.top[w] && Owns(t, w, chains[w]))
    && r.active[u] && r.top[u] == n
    && (if chains[u] == [] then r.ppid == t.ppid[n := -1]
        else IsChain(t.ppid, chains[u]) && r.ppid == t.ppid[n := chains[u][0]])
  }

  lemma PushedOwns(t: Table, chains: seq<seq<int>>, r: Table, u: nat, n: nat, w: nat)
    requires Shape(t) && Shape(r) && u < TERMS && w < TERMS && IsSlot(n) && |chains| == TERMS
    requires PushLinks(t, chains, r, u, n) && n !in chains[u] && n !in chains[w]
    ensures Owns(r, w, if w == u then [n] + chains[u] else chains[w])
  {
    var below := chains[u];
    var link := if below == [] then -1 else below[0];
    if w == u {
      if below != [] {
        ChainElsewhere(t.ppid, below, n, link);
      }
      ChainHead(r.ppid, n, below);
    } else {
      assert Owns(t, w, chains[w]);
      if t.active[w] {
        ChainElsewhere(t.ppid, chains[w], n, link);
      }
    }
  }

  lemma PushedApart(chains: seq<seq<int>>, u: nat, n: int)
    requires u < |chains| && Disjoint(chains) && !OnSome(chains, n)
    requires forall w :: 0 <= w < |chains| ==> NoRepeat(chains[w])
    ensures forall w :: 0 <= w < |chains| ==> n !in chains[w]
    ensures var after := chains[u := [n] + chains[u]];
            Disjoint(after) && forall w :: 0 <= w < |after| ==> NoRepeat(after[w])
  {
    forall w | 0 <= w < |chains|
      ensures n !in chains[w]
    {
      assert !OnSome(chains, n);
    }
    var after := chains[u := [n] + chains[u]];
    forall w, v, p | 0 <= w < v < |after| && p in after[w]
      ensures p !in after[v]
    {
      assert p in chains[w] ==> p !in chains[v];
    }
  }

  /** The forest with slot `n` added. */
  lemma Pushed(t: Table, chains: seq<seq<int>>, r: Table, u: nat, n: nat)
    requires Shape(t) && Shape(r) && u < TERMS && IsSlot(n)
    requires |chains| == TERMS && Disjoint(chains) && !OnSome(chains, n)
    requires forall w :: 0 <= w < TERMS ==> NoRepeat(chains[w])
    requires PushLinks(t, chains, r, u, n)
    requires forall p :: IsSlot(p) ==> (r.marked[p] <==> OnSome(chains, p) || p == n)
    ensures Forest(r, chains[u := [n] + chains[u]])
  {
    var after := chains[u := [n] + chains[u]];
    PushedApart(chains, u, n);
    forall w | 0 <= w < TERMS
      ensures Owns(r, w, after[w])
    {
      PushedOwns(t, chains, r, u, n, w);
    }
    forall p | IsSlot(p)
      ensures OnSome(after, p) <==> OnSome(chains, p) || p == n
    {
      PushedMarks(chains, u, n, p);
    }
  }

  lemma PushedMarks(chains: seq<seq<int>>, u: nat, n: int, p: int)
    requires u < |chains|
    ensures OnSome(chains[u := [n] + chains[u]], p) <==> OnSome(chains, p) || p == n
  {
    var after := chains[u := [n] + chains[u]];
    if OnSome(chains, p) {
      var w :| 0 <= w < |chains| && p in chains[w];
      assert p in after[w];
    }
    if p == n {
      assert p in after[u];
    }
  }

  /** Taking the head off terminal `u`'s chain takes exactly that slot off the forest. */
  lemma PoppedMarks(chains: seq<seq<int>>, u: nat, p: int)
    requires u < |chains| && Disjoint(chains) && NoRepeat(chains[u]) && chains[u] != []
    ensures OnSome(chains[u := chains[u][1..]], p) <==> OnSome(chains, p) && p != chains[u][0]
  {
    var after := chains[u := chains[u][1..]];
    if OnSome(chains, p) && p != chains[u][0] {
      var w :| 0 <= w < |chains| && p in chains[w];
      assert p in after[w];
    }
    if OnSome(after, p) {
      var w :| 0 <= w < |chains| && p in after[w];
      assert p in chains[w];
      assert chains[u][0] in chains[u];
    }
  }

  /** A free slot put on top of terminal `u`'s chain, in the forest `chains` of the slots `marked`. */
  lemma Grown(t: Table, chains: seq<seq<int>>, r: Table, u: nat, n: nat, marked: seq<bool>)
    requires Shape(t) && Shape(r) && u < TERMS && |marked| == SLOTS && IsSlot(n) && !marked[n]
    requires |chains| == TERMS && Disjoint(chains) && forall w :: 0 <= w < TERMS ==> NoRepeat(chains[w])
    requires forall p :: IsSlot(p) ==> (marked[p] <==> OnSome(chains, p))
    requires r.marked == marked[n := true] && PushLinks(t, chains, r, u, n)
    ensures Forest(r, chains[u := [n] + chains[u]])
  {
    Pushed(t, chains, r, u, n);
  }

  /** A successful execute puts the free slot it takes on top of the executing terminal's chain, as current process. */
  lemma ExecuteKeeps(t: Table, chains: seq<seq<int>>)
    requires Shape(t) && Current(t) && Forest(t, chains) && HasFree(t)
    ensures var n, r := FirstFree(t.marked), DoExecute(t, Runs);
            && !OnSome(chains, n) && Forest(r, chains[t.exec := [n] + chains[t.exec]])
            && Current(r) && r.curr == n && r.shown == t.shown && r.exec == t.exec
  {
    var n := FirstFree(t.marked);
    var r := DoExecute(t, Runs);
    assert t.active[t.shown := true] == t.active;
    assert Owns(t, t.exec, chains[t.exec]);
    assert PushLinks(t, chains, r, t.exec, n);
    Grown(t, chains, r, t.exec, n, t.marked);
  }

  /** Opening terminal `u` gives it a chain of one free slot, and shows and runs it. */
  lemma OpenKeeps(t: Table, chains: seq<seq<int>>, u: nat)
    requires Shape(t) && Current(t) && Forest(t, chains) && u < TERMS && !t.active[u] && HasFree(t)
    ensures var n, r := FirstFree(t.marked), DoExecute(t.(shown := u, exec := u), Runs);
            && !OnSome(chains, n) && chains[u] == [] && Forest(r, chains[u := [n]])
            && Current(r) && r.curr == n && r.shown == u && r.exec == u
  {
    var n := FirstFree(t.marked);
    Opened(t, chains, DoExecute(t.(shown := u, exec := u), Runs), u, n);
  }

  lemma Opened(t: Table, chains: seq<seq<int>>, r: Table, u: nat, n: nat)
    requires Shape(t) && Forest(t, chains) && u < TERMS && !t.active[u] && IsSlot(n) && !t.marked[n]
    requires r == Table(t.marked[n := true], t.ppid[n := -1], n, t.active[u := true], t.top[u := n], u, u)
    ensures !OnSome(chains, n) && chains[u] == [] && Forest(r, chains[u := [n]])
  {
    assert Owns(t, u, chains[u]);
    assert PushLinks(t, chains, r, u, n);
    Grown(t, chains, r, u, n, t.marked);
    assert [n] + [] == [n];
  }

  lemma PoppedApart(chains: seq<seq<int>>, u: nat)
    requires u < |chains| && chains[u] != [] && Disjoint(chains)
    requires forall w :: 0 <= w < |chains| ==> NoRepeat(chains[w])
    ensures var after := chains[u := chains[u][1..]];
            Disjoint(after) && forall w :: 0 <= w < |after| ==> NoRepeat(after[w])
  {
    var after := chains[u := chains[u][1..]];
    forall w, v, p | 0 <= w < v < |after| && p in after[w]
      ensures p !in after[v]
    {
      assert p in chains[w] && p !in chains[v];
    }
  }

  lemma PoppedOwns(t: Table, chains: seq<seq<int>>, r: Table, u: nat)
    requires Shape(t) && Current(t) && Forest(t, chains) && t.ppid[t.curr] != -1 && u < TERMS
    requires Shape(r) && r.ppid == t.ppid && r.active == t.active && r.top == t.top[t.exec := t.ppid[t.curr]]
    ensures |chains[t.exec]| > 1 && chains[t.exec][0] == t.curr
    ensures Owns(r, u, chains[t.exec := chains[t.exec][1..]][u])
  {
    assert Owns(t, t.exec, chains[t.exec]) && Owns(t, u, chains[u]);
    ChainTail(t.ppid, chains[t.exec]);
  }

  /** The forest without the current process, which is not the last of its chain. */
  lemma Popped(t: Table, chains: seq<seq<int>>, r: Table)
    requires Shape(t) && Current(t) && Forest(t, chains) && t.ppid[t.curr] != -1
    requires Shape(r) && r.ppid == t.ppid && r.active == t.active && r.top == t.top[t.exec := t.ppid[t.curr]]
    requires r.marked == t.marked[t.curr := false]
    ensures chains[t.exec] != [] && Forest(r, chains[t.exec := chains[t.exec][1..]])
  {
    PoppedOwns(t, chains, r, t.exec);
    PoppedApart(chains, t.exec);
    var after := chains[t.exec := chains[t.exec][1..]];
    forall u | 0 <= u < TERMS
      ensures Owns(r, u, after[u])
    {
      PoppedOwns(t, chains, r, u);
    }
    forall p | IsSlot(p)
      ensures r.marked[p] <==> OnSome(after, p)
    {
      PoppedMarks(chains, t.exec, p);
    }
  }

  /** Halting a process with a parent takes it off its chain; its parent, the next one, becomes current. */
  lemma HaltChildKeeps(t: Table, chains: seq<seq<int>>, o: Outcome)
    requires Shape(t) && Current(t) && Forest(t, chains) && t.ppid[t.curr] != -1
    ensures var r, c := DoHalt(t, o), chains[t.exec];
            && |c| > 1 && c[0] == t.curr && Shape(r) && Forest(r, chains[t.exec := c[1..]])
            && Current(r) && r.curr == c[1] && r.shown == t.shown && r.exec == t.exec
            && r.marked == t.marked[t.curr := false]
  {
    assert IsSlot(t.ppid[t.curr]) by {
      assert Owns(t, t.exec, chains[t.exec]);
      ChainTail(t.ppid, chains[t.exec]);
    }
    PoppedOwns(t, chains, DoHalt(t, o), t.exec);
    ChainTail(t.ppid, chains[t.exec]);
    Popped(t, chains, DoHalt(t, o));
  }

  /** A chain whose head has no parent is just that head. */
  lemma RootAlone(t: Table, chains: seq<seq<int>>, p: int)
    requires Shape(t) && Current(t) && Forest(t, chains) && t.ppid[t.curr] == -1 && IsSlot(p)
    ensures chains[t.exec] == [t.curr]
    ensures t.marked[t.curr := false][p] <==> OnSome(chains[t.exec := []], p)
  {
    var c := chains[t.exec];
    assert Owns(t, t.exec, c);
    assert |c| == 1 by {
      if |c| > 1 {
        ChainTail(t.ppid, c);
      }
    }
    assert c[1..] == [];
    PoppedMarks(chains, t.exec, p);
  }

  lemma RestartIs(t: Table, marked: seq<bool>, n: nat)
    requires Shape(t) && t.ppid[t.curr] == -1 && t.active[t.shown]
    requires marked == t.marked[t.curr := false] && n == FirstFree(marked)
    ensures IsSlot(n) && !marked[n]
    ensures DoHalt(t, Runs) ==
            Table(marked[n := true], t.ppid[n := -1], n, t.active, t.top[t.exec := n], t.shown, t.exec)
  {
    assert !marked[t.curr];
    assert t.active[t.shown := false][t.shown := true] == t.active;
  }

  /** Halting a terminal's last shell replaces it with a new one, in the lowest slot free by then. */
  lemma HaltRootKeeps(t: Table, chains: seq<seq<int>>, marked: seq<bool>, n: nat)
    requires Shape(t) && Current(t) && Forest(t, chains) && t.ppid[t.curr] == -1
    requires marked == t.marked[t.curr := false] && n == FirstFree(marked)
    ensures var r := DoHalt(t, Runs);
            && chains[t.exec] == [t.curr] && Shape(r) && Forest(r, chains[t.exec := [n]])
            && Current(r) && r.curr == n && r.shown == t.shown && r.exec == t.exec
  {
    RootAlone(t, chains, t.curr);
    RestartIs(t, marked, n);
    Replanted(t, chains, DoHalt(t, Runs), n, marked);
  }

  lemma PlantedOn(chains: seq<seq<int>>, u: nat, n: int)
    requires u < |chains|
    ensures var without := chains[u := []]; without[u := [n] + without[u]] == chains[u := [n]]
  {
    assert [n] + [] == [n];
  }

  /** A terminal's last process gives way to slot `n`, which may be its own. */
  lemma Replanted(t: Table, chains: seq<seq<int>>, r: Table, n: nat, marked: seq<bool>)
    requires Shape(t) && Current(t) && Forest(t, chains) && t.ppid[t.curr] == -1
    requires marked == t.marked[t.curr := false] && IsSlot(n) && !marked[n]
    requires r == Table(marked[n := true], t.ppid[n := -1], n, t.active, t.top[t.exec := n], t.shown, t.exec)
    ensures Shape(r) && Forest(r, chains[t.exec := [n]])
  {
    var without := chains[t.exec := []];
    forall p | IsSlot(p)
      ensures marked[p] <==> OnSome(without, p)
    {
      RootAlone(t, chains, p);
    }
    assert PushLinks(t, without, r, t.exec, n) by {
      assert forall w :: 0 <= w < TERMS ==> Owns(t, w, chains[w]);
    }
    Grown(t, without, r, t.exec, n, marked);
    PlantedOn(chains, t.exec, n);
  }

  /** A tick makes the head of the next active terminal's chain current, and moves no process. */
  lemma TickKeeps(t: Table, chains: seq<seq<int>>)
    requires Shape(t) && Current(t) && Forest(t, chains) && Scheduler.SomeActive(t.active)
    ensures var r := DoTick(t);
            && Shape(r) && Forest(r, chains) && Current(r) && r.shown == t.shown
            && r.exec == Scheduler.Next(t.active, t.exec) && r.curr == t.top[r.exec]
  {
    var n := Scheduler.Next(t.active, t.exec);
    assert Owns(t, n, chains[n]);
    assert forall u :: 0 <= u < TERMS ==> Owns(DoTick(t), u, chains[u]) == Owns(t, u, chains[u]);
    assert Forest(DoTick(t), chains);
  }

  // ---------------------------------------------------------------- exactly when

  /**
   * The guard: no execute fails after taking a slot, and a slot is free where a new terminal
   * needs one for its shell.
   */
  predicate Good(t: Table, e: Event)
    requires Possible(t, e)
  {
    match e
    case Execute(o) => o.Runs? || !HasFree(t)
    case Halt(o) => o.Runs? || t.ppid[t.curr] != -1
    case Tick => true
    case SwitchTerminal(n, o) => n == t.shown || t.active[n] || (o.Runs? && HasFree(t))
  }

  lemma InvPossible(t: Table, e: Event)
    requires Inv(t) && (e.SwitchTerminal? ==> e.n < TERMS)
    ensures Possible(t, e)
  {
    assert t.active[t.shown];
  }

  /** The table stands for the machine: its chains are the machine's lists. */
  ghost predicate Tells(t: Table, m: Machine) {
    && Shape(t) && Current(t) && Sound(m) && Forest(t, m.chains)
    && t.shown == m.shown && t.exec == m.exec
  }

  lemma TellsBusy(t: Table, m: Machine)
    requires Tells(t, m)
    ensures t.active == Busy(m) && m.chains[m.exec] != [] && m.chains[m.exec][0] == t.curr
  {
    forall u | 0 <= u < TERMS
      ensures t.active[u] == Busy(m)[u]
    {
      assert Owns(t, u, m.chains[u]);
    }
    assert Owns(t, t.exec, m.chains[t.exec]);
  }

  /** The lowest free slot is the lowest slot on no chain. */
  lemma SameLowest(marked: seq<bool>, chains: seq<seq<int>>)
    requires |marked| == SLOTS && forall p :: IsSlot(p) ==> (marked[p] <==> OnSome(chains, p))
    ensures FirstFree(marked) == LowestOff(chains, 0)
  {
    var a, b := FirstFree(marked), LowestOff(chains, 0);
    assert a < SLOTS ==> !OnSome(chains, a);
    assert b < SLOTS ==> !marked[b];
  }

  lemma PushTells(t: Table, m: Machine, o: Outcome)
    requires Tells(t, m) && (o.Runs? || !HasFree(t))
    ensures Tells(DoExecute(t, o), Push(m))
  {
    SameLowest(t.marked, m.chains);
    if HasFree(t) {
      ExecuteKeeps(t, m.chains);
    }
  }

  lemma OpenTells(t: Table, m: Machine, u: nat)
    requires Tells(t, m) && u < TERMS && !t.active[u] && HasFree(t)
    ensures Tells(DoExecute(t.(shown := u, exec := u), Runs), Push(m.(shown := u, exec := u)))
  {
    SameLowest(t.marked, m.chains);
    OpenKeeps(t, m.chains, u);
    assert [FirstFree(t.marked)] + [] == [FirstFree(t.marked)];
  }

  lemma PopTells(t: Table, m: Machine, o: Outcome)
    requires Tells(t, m) && (o.Runs? || t.ppid[t.curr] != -1)
    ensures Tells(DoHalt(t, o), Pop(m))
  {
    if t.ppid[t.curr] != -1 {
      HaltChildKeeps(t, m.chains, o);
    } else {
      RestartTells(t, m);
    }
  }

  lemma RestartTells(t: Table, m: Machine)
    requires Tells(t, m) && t.ppid[t.curr] == -1
    ensures Tells(DoHalt(t, Runs), Pop(m))
  {
    var without := m.chains[m.exec := []];
    forall p | IsSlot(p)
      ensures t.marked[t.curr := false][p] <==> OnSome(without, p)
    {
      RootAlone(t, m.chains, p);
    }
    SameLowest(t.marked[t.curr := false], without);
    HaltRootKeeps(t, m.chains, t.marked[t.curr := false], LowestOff(without, 0));
    PlantedOn(m.chains, m.exec, LowestOff(without, 0));
  }

  /** Every good event does to the table exactly what it does to the lists. */
  lemma StepTells(t: Table, m: Machine, e: Event)
    requires Tells(t, m) && Possible(t, e) && Good(t, e)
    ensures Scheduler.SomeActive(Busy(m)) && Tells(TableStep(t, e), MachineStep(m, e))
  {
    TellsBusy(t, m);
    match e
    case Execute(o) => PushTells(t, m, o);
    case Halt(o) => PopTells(t, m, o);
    case Tick => TickKeeps(t, m.chains);
    case SwitchTerminal(n, o) =>
      if n != t.shown && !t.active[n] {
        OpenTells(t, m, n);
      } else {
        ShowTells(t, m, n);
      }
  }

  lemma ShowTells(t: Table, m: Machine, n: nat)
    requires Tells(t, m) && n < TERMS && t.active[n]
    ensures Tells(t.(shown := n), m.(shown := n))
  {
    var r := t.(shown := n);
    assert forall u :: 0 <= u < TERMS ==> Owns(r, u, m.chains[u]) == Owns(t, u, m.chains[u]);
  }

  lemma GoodKeeps(t: Table, e: Event)
    requires Inv(t) && Possible(t, e) && Good(t, e)
    ensures Inv(TableStep(t, e))
  {
    var chains :| Forest(t, chains);
    StepTells(t, Machine(chains, t.shown, t.exec), e);
  }

  /** Links and heads alone determine the chains, hence the marks. */
  lemma SameMarks(t: Table, r: Table, a: seq<seq<int>>, b: seq<seq<int>>, p: int)
    requires Shape(t) && Shape(r) && Forest(t, a) && Forest(r, b) && IsSlot(p)
    requires r.ppid == t.ppid && r.active == t.active && r.top == t.top
    ensures a == b && r.marked[p] == t.marked[p]
  {
    forall u | 0 <= u < TERMS
      ensures a[u] == b[u]
    {
      assert Owns(t, u, a[u]) && Owns(r, u, b[u]);
      if t.active[u] {
        ChainUnique(t.ppid, a[u], b[u]);
      }
    }
    assert a == b;
  }

  /** A failed execute leaves marks and chains apart: all marks lost, or one too many. */
  lemma FailedExecuteBreaks(t: Table, o: Outcome)
    requires Inv(t) && !o.Runs? && HasFree(t)
    ensures !Inv(DoExecute(t, o))
  {
    var r := DoExecute(t, o);
    var was :| Forest(t, was);
    assert Owns(t, t.exec, was[t.exec]);
    assert t.curr in was[t.exec];
    assert OnSome(was, t.curr);
    var p := if o.NoFile? then t.curr else FirstFree(t.marked);
    assert r.marked[p] != t.marked[p];
    forall chains
      ensures !Forest(r, chains)
    {
      if Forest(r, chains) {
        SameMarks(t, r, was, chains, p);
      }
    }
  }

  /**
   * One step of any kind, from any table with the invariant, keeps it if and only if the step
   * is good: the forest lasts exactly as long as no execute fails.
   */
  lemma StepExact(t: Table, e: Event)
    requires Inv(t) && Possible(t, e)
    ensures Inv(TableStep(t, e)) <==> Good(t, e)
  {
    if Good(t, e) {
      GoodKeeps(t, e);
    } else if e.Execute? {
      FailedExecuteBreaks(t, e.o);
    } else if e.Halt? {
      assert !Shape(DoHalt(t, e.o));
    } else {
      assert !Shape(DoSwitch(t, e.n, e.o)) || !Current(DoSwitch(t, e.n, e.o));
    }
  }

  // ---------------------------------------------------------------- runs

  predicate Feasible(es: seq<Event>) {
    forall i :: 0 <= i < |es| && es[i].SwitchTerminal? ==> es[i].n < TERMS
  }

  ghost predicate AlwaysInv(t: Table, es: seq<Event>)
    requires Inv(t) && Feasible(es)
    decreases |es|
  {
    es == [] ||
    (InvPossible(t, es[0]);
     var r := TableStep(t, es[0]);
     Inv(r) && AlwaysInv(r, es[1..]))
  }

  ghost predicate GoodRun(t: Table, es: seq<Event>)
    requires Inv(t) && Feasible(es)
    decreases |es|
  {
    es == [] ||
    (InvPossible(t, es[0]);
     Good(t, es[0]) && (GoodKeeps(t, es[0]); GoodRun(TableStep(t, es[0]), es[1..])))
  }

  /** Over every run the forest holds in every state exactly when every event of the run is good. */
  lemma {:induction false} RunExact(t: Table, es: seq<Event>)
    requires Inv(t) && Feasible(es)
    ensures AlwaysInv(t, es) <==> GoodRun(t, es)
    decreases |es|
  {
    if es != [] {
      InvPossible(t, es[0]);
      StepExact(t, es[0]);
      if Good(t, es[0]) {
        RunExact(TableStep(t, es[0]), es[1..]);
      }
    }
  }

  /** The machine a table stands for is the only one. */
  lemma TellsOne(t: Table, a: Machine, b: Machine)
    requires Tells(t, a) && Tells(t, b)
    ensures a == b
  {
    SameMarks(t, t, a.chains, b.chains, 0);
  }

  function MachineRun(m: Machine, es: seq<Event>): (r: Machine)
    requires Sound(m) && Feasible(es)
    ensures Sound(r)
    decreases |es|
  {
    if es == [] || !Scheduler.SomeActive(Busy(m)) then m
    else MachineRun(MachineStep(m, es[0]), es[1..])
  }

  ghost function TableRun(t: Table, es: seq<Event>): (r: Table)
    requires Inv(t) && Feasible(es) && GoodRun(t, es)
    ensures Inv(r)
    decreases |es|
  {
    if es == [] then t
    else
      InvPossible(t, es[0]);
      GoodKeeps(t, es[0]);
      TableRun(TableStep(t, es[0]), es[1..])
  }

  /** Over every good run the table stands for the lists that the plain push/pop machine ends with. */
  lemma {:induction false} RunTells(t: Table, m: Machine, es: seq<Event>)
    requires Inv(t) && Tells(t, m) && Feasible(es) && GoodRun(t, es)
    ensures Tells(TableRun(t, es), MachineRun(m, es))
    decreases |es|
  {
    if es != [] {
      var e, rest := es[0], es[1..];
      InvPossible(t, e);
      GoodKeeps(t, e);
      StepTells(t, m, e);
      var r, n := TableStep(t, e), MachineStep(m, e);
      RunTells(r, n, rest);
      assert TableRun(t, es) == TableRun(r, rest);
      assert MachineRun(m, es) == MachineRun(n, rest);
    }
  }

  /** The first shell, started from the empty table at boot, is the machine with slot 0 in terminal 0. */
  lemma FirstShell(t: Table)
    requires Shape(t) && t.marked == NoneMarked() && t.shown == t.exec == 0
    requires forall u :: 0 <= u < TERMS ==> !t.active[u]
    ensures Tells(DoExecute(t, Runs), Machine([[0], [], []], 0, 0)) && Inv(DoExecute(t, Runs))
  {
    var r := DoExecute(t, Runs);
    var none := [[], [], []];
    assert FirstFree(t.marked) == 0;
    assert PushLinks(t, none, r, 0, 0);
    Grown(t, none, r, 0, 0, t.marked);
    assert [0] + none[0] == [0];
    assert none[0 := [0]] == [[0], [], []];
  }

  // ---------------------------------------------------------------- what a failed execute leaves

  /** A failed lookup frees every slot, a bad executable takes one; nothing else changes. */
  lemma FailedExecuteIs(t: Table, o: Outcome, p: int)
    requires Shape(t) && !o.Runs? && HasFree(t) && IsSlot(p)
    ensures var r := DoExecute(t, o);
            && r == t.(marked := r.marked)
            && r.marked[p] == (if o.NoFile? then false else t.marked[p] || p == FirstFree(t.marked))
  {
  }

  /** With no slot left, execute changes nothing, whatever it is asked for. */
  lemma FullExecuteIs(t: Table, o: Outcome)
    requires Shape(t) && !HasFree(t)
    ensures DoExecute(t, o) == t
  {
  }

  /** When the restart of a last shell fails, the terminal shown is inactive and nothing runs. */
  lemma FailedRestartIs(t: Table, o: Outcome)
    requires Shape(t) && !o.Runs? && t.ppid[t.curr] == -1
    ensures var r := DoHalt(t, o);
            r.curr == -1 && r.active == t.active[t.shown := false] && r.top == t.top[t.exec := -1] && r.ppid == t.ppid
  {
  }

  // ---------------------------------------------------------------- ticks, whatever went before

  /** A tick runs the current process of the next active terminal and changes nothing else. */
  lemma TickIs(t: Table)
    requires Possible(t, Tick)
    ensures var r := TableStep(t, Tick);
            r == t.(exec := Scheduler.Next(t.active, t.exec), curr := t.top[r.exec])
  {
  }

  function TicksOf(t: Table, k: nat): (r: Table)
    requires Shape(t) && Scheduler.SomeActive(t.active)
    requires forall u :: 0 <= u < TERMS && t.active[u] ==> IsSlot(t.top[u])
    ensures Shape(r) && r.active == t.active && r.top == t.top
  {
    if k == 0 then t else TableStep(TicksOf(t, k - 1), Tick)
  }

  /** After `k` ticks the terminal of the `k`-th turn executes its own current process. */
  lemma {:induction false} TicksAre(t: Table, k: nat)
    requires Shape(t) && Scheduler.SomeActive(t.active)
    requires forall u :: 0 <= u < TERMS && t.active[u] ==> IsSlot(t.top[u])
    ensures TicksOf(t, k).exec == Scheduler.Ticks(t.active, t.exec, k)
    ensures k > 0 ==> TicksOf(t, k).curr == t.top[TicksOf(t, k).exec]
  {
    if k > 0 {
      TicksAre(t, k - 1);
      TickIs(TicksOf(t, k - 1));
    }
  }
}
