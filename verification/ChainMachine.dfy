/** The reference for the process table: one list of slots per terminal, and two terminal numbers. */
module ChainMachine {
  import opened Common
  import opened Processes
  import Scheduler

  /** `chains[t]` are the processes of terminal `t`, the running one first, each followed by its parent. */
  datatype Machine = Machine(chains: seq<seq<int>>, shown: nat, exec: nat)

  predicate Sound(m: Machine) {
    |m.chains| == TERMS && m.shown < TERMS && m.exec < TERMS
  }

  /** The lowest slot from `from` on that is on no chain, or SLOTS. */
  function LowestOff(chains: seq<seq<int>>, from: nat): (n: nat)
    requires from <= SLOTS
    ensures from <= n <= SLOTS
    ensures forall p :: from <= p < n ==> OnSome(chains, p)
    ensures n < SLOTS ==> !OnSome(chains, n)
    decreases SLOTS - from
  {
    if from == SLOTS || !OnSome(chains, from) then from else LowestOff(chains, from + 1)
  }

  function Busy(m: Machine): (a: seq<bool>)
    requires Sound(m)
    ensures |a| == TERMS && forall t :: 0 <= t < TERMS ==> (a[t] <==> m.chains[t] != [])
  {
    seq(TERMS, t requires 0 <= t < TERMS => m.chains[t] != [])
  }

  /** The lowest unused slot goes on top of the executing terminal's list, if there is one. */
  function Push(m: Machine): (r: Machine)
    requires Sound(m)
    ensures Sound(r)
  {
    var n := LowestOff(m.chains, 0);
    if n == SLOTS then m else m.(chains := m.chains[m.exec := [n] + m.chains[m.exec]])
  }

  /** The running process leaves its list; the last one gives way to a new shell in the lowest unused slot. */
  function Pop(m: Machine): (r: Machine)
    requires Sound(m)
    ensures Sound(r)
  {
    var c := m.chains[m.exec];
    if |c| > 1 then m.(chains := m.chains[m.exec := c[1..]])
    else Push(m.(chains := m.chains[m.exec := []]))
  }

  function MachineStep(m: Machine, e: Event): (r: Machine)
    requires Sound(m) && Scheduler.SomeActive(Busy(m)) && (e.SwitchTerminal? ==> e.n < TERMS)
    ensures Sound(r)
  {
    match e
    case Execute(_) => Push(m)
    case Halt(_) => Pop(m)
    case Tick => m.(exec := Scheduler.Next(Busy(m), m.exec))
    case SwitchTerminal(n, _) =>
      if n == m.shown then m
      else if m.chains[n] != [] then m.(shown := n)
      else Push(m.(shown := n, exec := n))
  }
}
