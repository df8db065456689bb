/** The round-robin choice of the executing terminal in switch_task. */
module Scheduler {
  import opened Common

  predicate SomeActive(active: seq<bool>) {
    |active| == TERMS && true in active
  }

  /** The first active terminal strictly after `last`, going round. */
  function Next(active: seq<bool>, last: nat): (n: nat)
    requires SomeActive(active) && last < TERMS
    ensures n < TERMS && active[n]
  {
    if active[(last + 1) % TERMS] then (last + 1) % TERMS
    else if active[(last + 2) % TERMS] then (last + 2) % TERMS
    else last
  }

  function After(last: nat, d: nat): nat {
    (last + d) % TERMS
  }

  /** `Next` is the first active one: the terminals passed over on the way to it are inactive. */
  lemma NextIsFirst(active: seq<bool>, last: nat, d: nat)
    requires SomeActive(active) && last < TERMS
    requires 1 <= d <= TERMS
    requires active[After(last, d)] && forall e :: 1 <= e < d ==> !active[After(last, e)]
    ensures Next(active, last) == After(last, d)
  {
    assert d > 1 ==> !active[After(last, 1)];
    assert d > 2 ==> !active[After(last, 2)];
  }

  lemma OneIsFirst(active: seq<bool>, last: nat, d: nat)
    requires SomeActive(active) && last < TERMS
    requires d == TERMS && forall e :: 1 <= e < d ==> !active[After(last, e)]
    ensures active[After(last, d)]
  {
    assert !active[After(last, 1)] && !active[After(last, 2)];
    var k :| 0 <= k < TERMS && active[k];
    assert k == last;
  }

  /**
   * The selection loop as written. After terminal 2 it looks at the entry past the
   * third one; `past` is what its `active` byte reads as.
   */
  method SelectNext(active: seq<bool>, past: bool, last: nat) returns (curr: nat)
    requires SomeActive(active) && last < TERMS
    ensures curr == if last == 2 && past then 3 else Next(active, last)
  {
    curr := last + 1;
    ghost var d := 1;
    while !(if curr == 3 then past else active[curr])
      invariant curr <= 3 && curr % 3 == After(last, d)
      invariant curr == 3 ==> last == 2 && d == 1
      invariant last == 2 && past ==> curr == 3
      invariant 1 <= d <= TERMS && forall e :: 1 <= e < d ==> !active[After(last, e)]
      decreases TERMS - d, curr
    {
      if d == TERMS {
        OneIsFirst(active, last, d);
      }
      d := if curr == 3 then d else d + 1;
      curr := curr + 1;
      if curr > 2 {
        curr := 0;
      }
    }
    if curr < 3 {
      NextIsFirst(active, last, d);
    }
  }

  /** The terminal executing after `k` ticks with an unchanging set of active terminals. */
  function Ticks(active: seq<bool>, last: nat, k: nat): (n: nat)
    requires SomeActive(active) && last < TERMS
    ensures n < TERMS
  {
    if k == 0 then last else Next(active, Ticks(active, last, k - 1))
  }

  lemma {:induction false} TicksAdd(active: seq<bool>, last: nat, m: nat, k: nat)
    requires SomeActive(active) && last < TERMS
    ensures Ticks(active, last, m + k) == Ticks(active, Ticks(active, last, m), k)
    decreases k
  {
    if k > 0 {
      TicksAdd(active, last, m, k - 1);
      assert m + k - 1 == m + (k - 1);
    }
  }

  function Count(active: seq<bool>): nat
    requires |active| == TERMS
  {
    (if active[0] then 1 else 0) + (if active[1] then 1 else 0) + (if active[2] then 1 else 0)
  }

  /** The next three choices, as far as there are active terminals, are all different and reach every one. */
  lemma NextThree(active: seq<bool>, a: nat, b: nat, c: nat, now: nat, t: nat)
    requires SomeActive(active) && now < TERMS && t < TERMS && active[t]
    requires a == Next(active, now) && b == Next(active, a) && c == Next(active, b)
    ensures Count(active) == 1 ==> a == t
    ensures Count(active) == 2 ==> a != b && (a == t || b == t)
    ensures Count(active) == 3 ==> a != b && a != c && b != c && (a == t || b == t || c == t)
    ensures 1 <= Count(active) <= 3
  {
  }

  /** Within one round, `Count(active)` ticks from `now`, each active terminal has exactly one tick. */
  lemma OneRound(active: seq<bool>, now: nat, t: nat)
    requires SomeActive(active) && now < TERMS && t < TERMS && active[t]
    ensures exists i :: 1 <= i <= Count(active) && Ticks(active, now, i) == t
    ensures forall i, j :: 1 <= i < j <= Count(active) ==> Ticks(active, now, i) != t || Ticks(active, now, j) != t
  {
    var a, b, c := Ticks(active, now, 1), Ticks(active, now, 2), Ticks(active, now, 3);
    assert Ticks(active, now, 0) == now;
    NextThree(active, a, b, c, now, t);
  }

  /**
   * Fairness: whatever happened before, any `Count(active)` consecutive ticks run every
   * active terminal, each in exactly one of them.
   */
  lemma RoundRobin(active: seq<bool>, last: nat, m: nat, t: nat)
    requires SomeActive(active) && last < TERMS
    requires t < TERMS && active[t]
    ensures exists i :: RunsAt(active, last, m, i, t)
    ensures forall i, j :: RunsAt(active, last, m, i, t) && RunsAt(active, last, m, j, t) ==> i == j
  {
    var now := Ticks(active, last, m);
    forall i | 1 <= i <= Count(active)
      ensures RunsAt(active, last, m, i, t) <==> Ticks(active, now, i) == t
    {
      TicksAdd(active, last, m, i);
    }
    OneRound(active, now, t);
  }

  predicate RunsAt(active: seq<bool>, last: nat, m: nat, i: nat, t: nat)
    requires SomeActive(active) && last < TERMS
  {
    1 <= i <= Count(active) && Ticks(active, last, m + i) == t
  }

  /** Of the `Count(active)` ticks after the `m`-th, exactly number `turn` is terminal `t`'s. */
  ghost predicate IsTurn(active: seq<bool>, last: nat, m: nat, turn: nat, t: nat)
    requires SomeActive(active) && last < TERMS
  {
    && m < turn <= m + Count(active)
    && forall k: nat :: m < k <= m + Count(active) ==> (Ticks(active, last, k) == t <==> k == turn)
  }

  lemma TurnOf(active: seq<bool>, last: nat, m: nat, t: nat) returns (turn: nat)
    requires SomeActive(active) && last < TERMS
    requires t < TERMS && active[t]
    ensures IsTurn(active, last, m, turn, t)
  {
    RoundRobin(active, last, m, t);
    var i :| 0 <= i && RunsAt(active, last, m, i, t);
    turn := m + i;
    forall k: nat | m < k <= m + Count(active)
      ensures Ticks(active, last, k) == t <==> k == turn
    {
      var j: nat := k - m;
      assert m + j == k;
      assert RunsAt(active, last, m, j, t) <==> Ticks(active, last, k) == t;
    }
  }
}
