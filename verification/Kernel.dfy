/** The process system calls and the scheduler, in place, proved against Processes. */
module Kernel {
  import opened Common
  import opened Paging
  import opened Processes
  import Scheduler

  class Kernel {
    const processArray: array<bool>
    const ppid: array<int>
    const active: array<bool>
    const current: array<int>
    const pages: PageTables
    const shadows: seq<bv32>
    var currProcess: int
    var shown: nat
    var exec: nat
    var esp0: int

    ghost function Heap(): set<object> {
      {this, processArray, ppid, active, current, pages.dir, pages.low, pages.video}
    }

    ghost function Abs(): State
      reads Heap()
    {
      State(Table(processArray[..], ppid[..], currProcess, active[..], current[..], shown, exec),
            Space(pages.Abs(), esp0, shadows))
    }

    ghost predicate Valid()
      reads Heap()
    {
      && processArray != active && ppid != current
      && pages.Valid()
      && Shape(Abs().table) && SpaceOk(Abs().space)
    }

    /** Before the first shell: nothing runs, terminal 0 is shown and executing. */
    constructor (lowAt: bv32, videoAt: bv32, shadows: seq<bv32>)
      requires Aligned4K(lowAt) && Aligned4K(videoAt) && lowAt != videoAt && |shadows| == TERMS
      ensures Valid() && fresh(Heap())
      ensures Abs().table.marked == NoneMarked() && shown == exec == 0
      ensures forall t :: 0 <= t < TERMS ==> !active[t] && current[t] == -1
    {
      processArray := new bool[SLOTS](_ => false);
      ppid := new int[SLOTS](_ => 0);
      active := new bool[TERMS](_ => false);
      current := new int[TERMS](_ => -1);
      pages := new PageTables(lowAt, videoAt);
      this.shadows := shadows;
      currProcess, shown, exec, esp0 := 0, 0, 0, KERNEL_TOP;
    }

    /** get_process, with SLOTS where the code returns -1 */
    method GetProcess() returns (n: nat)
      requires Valid()
      modifies processArray
      ensures Valid() && n == FirstFree(old(Abs()).table.marked)
      ensures Abs() == old(Abs()).(table := old(Abs()).table.(
                marked := if n == SLOTS then old(Abs()).table.marked else old(Abs()).table.marked[n := true]))
    {
      n := 0;
      while n < SLOTS
        invariant n <= SLOTS && forall i :: 0 <= i < n ==> processArray[i]
      {
        if !processArray[n] {
          processArray[n] := true;
          return;
        }
        n := n + 1;
      }
    }

    /** clear_process */
    method ClearProcess()
      requires Valid()
      modifies processArray
      ensures Valid() && Abs() == old(Abs()).(table := old(Abs()).table.(marked := NoneMarked()))
    {
      for i := 0 to SLOTS
        invariant forall k :: 0 <= k < i ==> !processArray[k]
      {
        processArray[i] := false;
      }
      assert processArray[..] == NoneMarked();
    }

    /** execute, from taking a slot to entering user space */
    method DoExecute(o: Outcome)
      requires Valid()
      modifies Heap()
      ensures Valid()
      ensures Abs().table == Processes.DoExecute(old(Abs()).table, o)
      ensures Abs().space == ExecuteSpace(old(Abs()).table, old(Abs()).space, o)
    {
      var n := GetProcess();
      if n == SLOTS {
        return;
      }
      if o.NoFile? {
        ClearProcess();
        return;
      }
      if o.BadFile? {
        return;
      }
      LinkParent(n);
      EnterProcess(n);
    }

    /** execute's initialisation of the new PCB's parent */
    method LinkParent(n: nat)
      requires Valid() && n < SLOTS
      modifies active, ppid
      ensures Valid() && Abs().space == old(Abs()).space
      ensures var t := old(Abs()).table;
              Abs().table == t.(active := t.active[shown := true],
                                ppid := t.ppid[n := if t.active[shown] then t.curr else -1])
    {
      if !active[shown] {
        active[shown] := true;
        ppid[n] := -1;
      } else {
        ppid[n] := currProcess;
      }
    }

    /** Become process `p`: current process, the executing terminal's current process, user page and kernel stack. */
    method EnterProcess(p: int)
      requires Valid()
      modifies this, current, pages.dir
      ensures processArray != active && ppid != current && pages.Valid()
      ensures Abs().table == old(Abs()).table.(curr := p, top := old(Abs()).table.top[old(exec) := p])
      ensures Abs().space == EnterSpace(old(Abs()).space, p)
    {
      currProcess := p;
      current[exec] := currProcess;
      pages.Map(USER_PAGE, Frame(p));
      esp0 := KERNEL_TOP - STACK * p - 4;
    }

    /** halt and halt_from_exc */
    method DoHalt(o: Outcome)
      requires Valid()
      modifies Heap()
      ensures processArray != active && ppid != current && pages.Valid()
      ensures Abs().table == Processes.DoHalt(old(Abs()).table, o)
      ensures Abs().space == EnterSpace(old(Abs()).space, Abs().table.curr)
    {
      processArray[currProcess] := false;
      if ppid[currProcess] == -1 {
        active[shown] := false;
        DoExecute(o);
        if o.Runs? {
          return;
        }
      }
      EnterProcess(ppid[currProcess]);
    }

    /** switch_task; the entry past the third terminal reads as inactive */
    method SwitchTask()
      requires Valid() && Scheduler.SomeActive(active[..])
      modifies this, pages.dir, pages.video
      ensures processArray != active && ppid != current && pages.Valid()
      ensures Abs() == Step(old(Abs()), Tick)
    {
      ghost var was := Abs();
      exec := Scheduler.SelectNext(active[..], false, exec);
      var task := current[exec];
      currProcess := task;
      MapTask(exec, task);
      esp0 := KERNEL_TOP - STACK * current[exec] - 4;
      assert Abs().table == DoTick(was.table);
      assert Abs().space == SpaceStep(was.table, was.space, Tick);
    }

    /** The mappings switch_task makes for process `task` of terminal `n`. */
    method MapTask(n: nat, task: int)
      requires pages.Valid() && |shadows| == TERMS && n < TERMS
      modifies pages.dir, pages.video
      ensures pages.Valid()
      ensures var m := MapPage(MapVideo(old(pages.Abs()), USER_VIDEO, VIDEO), USER_PAGE, Frame(task));
              pages.Abs() == if n != shown then MapVideo(m, USER_VIDEO, shadows[n]) else m
    {
      pages.MapWithTable(USER_VIDEO, VIDEO);
      pages.Map(USER_PAGE, Frame(task));
      if n != shown {
        pages.MapWithTable(USER_VIDEO, shadows[n]);
      }
    }

    /** switch_terminal, as far as processes and mappings go */
    method DoSwitch(n: nat, o: Outcome)
      requires Valid() && Scheduler.SomeActive(active[..]) && n < TERMS
      modifies Heap()
      ensures Valid()
      ensures Abs() == Step(old(Abs()), SwitchTerminal(n, o))
    {
      if n == shown {
        return;
      }
      if !active[n] {
        shown := n;
        exec := n;
        DoExecute(o);
        return;
      }
      ShowTerminal(n);
    }

    /** The branch of switch_terminal for an active terminal. */
    method ShowTerminal(n: nat)
      requires Valid() && n < TERMS
      modifies this`shown, pages.dir, pages.video
      ensures Valid() && Abs().table == old(Abs()).table.(shown := n)
      ensures var m := ShowSpace(old(Abs()).space, VIDEO);
              Abs().space == if exec != n then ShowSpace(m, shadows[n]) else m
    {
      shown := n;
      pages.MapWithTable(USER_VIDEO, VIDEO);
      if exec != shown {
        pages.MapWithTable(USER_VIDEO, shadows[shown]);
      }
    }
  }
}
