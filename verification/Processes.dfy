/**
 * The process table: execute, halt, switch_task and switch_terminal as steps on the slots,
 * the parent links, the terminals' current processes and the user context.
 */
module Processes {
  import opened Common
  import opened Paging
  import Scheduler

  const SLOTS := 6
  const KERNEL_TOP := 0x800000
  const STACK := 8192

  /**
   * The slots and who runs in them: process_array, the PPID of each PCB (stale in a free slot),
   * curr_process, and of each terminal its `active` flag and current_process (`top`).
   */
  datatype Table = Table(
    marked: seq<bool>, ppid: seq<int>, curr: int,
    active: seq<bool>, top: seq<int>, shown: nat, exec: nat)

  /** The address space and the kernel stack; `shadows` are the addresses of the saved screens. */
  datatype Space = Space(tables: Tables, esp0: int, shadows: seq<bv32>)

  datatype State = State(table: Table, space: Space)

  /** What execute finds once it has taken a slot. */
  datatype Outcome = Runs | NoFile | BadFile

  datatype Event = Execute(o: Outcome) | Halt(o: Outcome) | Tick | SwitchTerminal(n: nat, o: Outcome)

  predicate IsSlot(p: int) {
    0 <= p < SLOTS
  }

  predicate Shape(t: Table) {
    && |t.marked| == |t.ppid| == SLOTS
    && |t.active| == |t.top| == TERMS
    && t.shown < TERMS && t.exec < TERMS && IsSlot(t.curr)
  }

  predicate SpaceOk(m: Space) {
    Ok(m.tables) && |m.shadows| == TERMS
  }

  // ---------------------------------------------------------------- the table

  /** get_process: the lowest free slot, or SLOTS when there is none. */
  function FirstFree(marked: seq<bool>): (n: nat)
    ensures n <= |marked|
    ensures forall i :: 0 <= i < n ==> marked[i]
    ensures n < |marked| ==> !marked[n]
  {
    if marked == [] || !marked[0] then 0 else
      var rest := FirstFree(marked[1..]);
      assert forall i :: 0 < i < 1 + rest ==> marked[i] == marked[1..][i - 1];
      1 + rest
  }

  predicate HasFree(t: Table) {
    FirstFree(t.marked) < |t.marked|
  }

  function NoneMarked(): (r: seq<bool>)
    ensures |r| == SLOTS && forall i :: 0 <= i < SLOTS ==> !r[i]
  {
    seq(SLOTS, _ => false)
  }

  function DoExecute(t: Table, o: Outcome): (r: Table)
    requires Shape(t)
    ensures Shape(r)
  {
    var n := FirstFree(t.marked);
    if n == SLOTS then t
    else
      match o
      case NoFile => t.(marked := NoneMarked())
      case BadFile => t.(marked := t.marked[n := true])
      case Runs =>
        Table(t.marked[n := true], t.ppid[n := if t.active[t.shown] then t.curr else -1], n,
              t.active[t.shown := true], t.top[t.exec := n], t.shown, t.exec)
  }

  /** halt and halt_from_exc */
  function DoHalt(t: Table, o: Outcome): Table
    requires Shape(t)
  {
    var freed := t.(marked := t.marked[t.curr := false]);
    var parent := t.ppid[t.curr];
    if parent != -1 then freed.(curr := parent, top := t.top[t.exec := parent])
    else
      var shell := DoExecute(freed.(active := t.active[t.shown := false]), o);
      if o.Runs? then shell else shell.(curr := -1, top := shell.top[t.exec := -1])
  }

  /** switch_task */
  function DoTick(t: Table): Table
    requires Shape(t) && Scheduler.SomeActive(t.active)
  {
    var n := Scheduler.Next(t.active, t.exec);
    t.(exec := n, curr := t.top[n])
  }

  /** switch_terminal */
  function DoSwitch(t: Table, n: nat, o: Outcome): Table
    requires Shape(t) && n < TERMS
  {
    if n == t.shown then t
    else if t.active[n] then t.(shown := n)
    else DoExecute(t.(shown := n, exec := n), o)
  }

  predicate Possible(t: Table, e: Event) {
    && Shape(t) && Scheduler.SomeActive(t.active)
    && (e.SwitchTerminal? ==> e.n < TERMS)
  }

  function TableStep(t: Table, e: Event): Table
    requires Possible(t, e)
  {
    match e
    case Execute(o) => DoExecute(t, o)
    case Halt(o) => DoHalt(t, o)
    case Tick => DoTick(t)
    case SwitchTerminal(n, o) => DoSwitch(t, n, o)
  }

  // ---------------------------------------------------------------- the forest

  /** A finite chain of parent links ending in -1. */
  predicate IsChain(ppid: seq<int>, c: seq<int>)
    requires |ppid| == SLOTS
  {
    && |c| > 0
    && (forall i :: 0 <= i < |c| ==> IsSlot(c[i]))
    && (forall i :: 0 <= i < |c| - 1 ==> ppid[c[i]] == c[i + 1])
    && ppid[c[|c| - 1]] == -1
  }

  predicate OnSome(chains: seq<seq<int>>, p: int) {
    exists t :: 0 <= t < |chains| && p in chains[t]
  }

  ghost predicate Disjoint(chains: seq<seq<int>>) {
    forall t, u, p :: 0 <= t < u < |chains| && p in chains[t] ==> p !in chains[u]
  }

  /** One chain per active terminal, disjoint, and together exactly the marked slots. */
  ghost predicate Forest(t: Table, chains: seq<seq<int>>)
    requires Shape(t)
  {
    && |chains| == TERMS
    && (forall u :: 0 <= u < TERMS ==> NoRepeat(chains[u]))
    && (forall u :: 0 <= u < TERMS ==> Owns(t, u, chains[u]))
    && Disjoint(chains)
    && (forall p :: IsSlot(p) ==> (t.marked[p] <==> OnSome(chains, p)))
  }

  predicate Owns(t: Table, u: nat, c: seq<int>)
    requires Shape(t) && u < TERMS
  {
    if t.active[u] then IsChain(t.ppid, c) && c[0] == t.top[u] else c == []
  }

  /** Shown and executing terminals are active and the current process heads the latter's chain. */
  predicate Current(t: Table)
    requires Shape(t)
  {
    t.active[t.shown] && t.active[t.exec] && t.curr == t.top[t.exec]
  }

  ghost predicate Inv(t: Table) {
    Shape(t) && Current(t) && exists chains :: Forest(t, chains)
  }

  // ---------------------------------------------------------------- the context

  /** PHYS_FILE_START + PHYS_FILE_OFFSET * p; the last line is what process number -1 gives. */
  function Frame(p: int): (f: bv32)
    ensures Aligned4M(f)
  {
    match p
    case 0 => 0x800000
    case 1 => 0xC00000
    case 2 => 0x1000000
    case 3 => 0x1400000
    case 4 => 0x1800000
    case 5 => 0x1C00000
    case _ => 0x400000
  }

  /** The top of a slot's own kernel stack. */
  function StackTop(p: int): int {
    KERNEL_TOP - STACK * p - 4
  }

  /** `a` lies in the 8 KB kernel region of slot `p`. */
  predicate InStack(p: int, a: int) {
    KERNEL_TOP - STACK * (p + 1) <= a < KERNEL_TOP - STACK * p
  }

  predicate InUserPage(va: address) {
    Region(va) == Region(USER_PAGE)
  }

  /** Every user address lands in process `p`'s frame, and traps arrive on its stack. */
  ghost predicate Context(m: Space, p: int)
    requires SpaceOk(m)
  {
    && (forall va: address :: InUserPage(va) ==> Translate(m.tables, va) == Place(Frame(p), va % FOUR_MB))
    && m.esp0 == StackTop(p)
  }

  function EnterSpace(m: Space, p: int): (r: Space)
    requires SpaceOk(m)
    ensures SpaceOk(r)
  {
    m.(tables := MapPage(m.tables, USER_PAGE, Frame(p)), esp0 := StackTop(p))
  }

  function ShowSpace(m: Space, phys: bv32): (r: Space)
    requires SpaceOk(m)
    ensures SpaceOk(r)
  {
    m.(tables := MapVideo(m.tables, USER_VIDEO, phys))
  }

  function SpaceStep(t: Table, m: Space, e: Event): (r: Space)
    requires Possible(t, e) && SpaceOk(m)
    ensures SpaceOk(r)
  {
    match e
    case Execute(o) => ExecuteSpace(t, m, o)
    case Halt(o) => EnterSpace(m, DoHalt(t, o).curr)
    case Tick =>
      var n := Scheduler.Next(t.active, t.exec);
      var entered := EnterSpace(ShowSpace(m, VIDEO), t.top[n]);
      if n != t.shown then ShowSpace(entered, m.shadows[n]) else entered
    case SwitchTerminal(n, o) =>
      if n == t.shown then m
      else if !t.active[n] then ExecuteSpace(t, m, o)
      else if t.exec != n then ShowSpace(ShowSpace(m, VIDEO), m.shadows[n])
      else ShowSpace(m, VIDEO)
  }

  function ExecuteSpace(t: Table, m: Space, o: Outcome): (r: Space)
    requires Shape(t) && SpaceOk(m)
    ensures SpaceOk(r)
  {
    if o.Runs? && HasFree(t) then EnterSpace(m, FirstFree(t.marked)) else m
  }

  function Step(s: State, e: Event): State
    requires Possible(s.table, e) && SpaceOk(s.space)
  {
    State(TableStep(s.table, e), SpaceStep(s.table, s.space, e))
  }
}
