/** The list operations on the array of blinkers, against a plain sequence. */
module BlinkList {
  import opened CStrings
  import opened Blink
  import opened Common

  datatype Event =
    | Add(b: Blinker)
    | Remove(location: nat)
    | Sync(from: nat, to: nat)
    | Tick

  // ---------------------------------------------------------------- invariant

  predicate Shape(s: Store) {
    && |s.data| == SLOTS && |s.screen| == CELLS
    && (forall i :: 0 <= i < |s.order| ==> s.order[i] < SLOTS)
    && (forall k :: 0 <= k < SLOTS ==> s.data[k].location < CELLS)
  }

  /** The list is acyclic and visits exactly the slots whose location is not zero. */
  predicate Inv(s: Store) {
    && Shape(s) && NoRepeat(s.order)
    && forall k :: 0 <= k < SLOTS ==> (s.data[k].location != 0 <==> k in s.order)
  }

  // ---------------------------------------------------------------- steps

  /** mp1_malloc: the first slot with location zero, or SLOTS. */
  function FirstFree(data: seq<Blinker>, from: nat): (k: nat)
    requires from <= |data|
    ensures from <= k <= |data|
    ensures forall i :: from <= i < k ==> data[i].location != 0
    ensures k < |data| ==> data[k].location == 0
    decreases |data| - from
  {
    if from == |data| || data[from].location == 0 then from else FirstFree(data, from + 1)
  }

  /** mp1_find_helper: how far down the list the first match is, or the length of the list. */
  function Match(s: Store, location: nat, from: nat): (i: nat)
    requires Shape(s) && from <= |s.order|
    ensures from <= i <= |s.order|
    ensures forall j :: from <= j < i ==> s.data[s.order[j]].location != location
    ensures i < |s.order| ==> s.data[s.order[i]].location == location
    decreases |s.order| - from
  {
    if from == |s.order| || s.data[s.order[from]].location == location then from else Match(s, location, from + 1)
  }

  predicate AddFails(s: Store, b: Blinker) {
    b.location >= CELLS || FirstFree(s.data, 0) == |s.data|
  }

  function DoAdd(s: Store, b: Blinker): (r: Store)
    requires Shape(s)
    ensures Shape(r)
  {
    var k := FirstFree(s.data, 0);
    if AddFails(s, b) then s
    else Store(s.data[k := Started(b)], [k] + s.order, Overwrite(s.screen, b.location, b.onChar))
  }

  function DoRemove(s: Store, location: nat): (r: Store)
    requires Shape(s)
    ensures Shape(r)
  {
    var i := Match(s, location, 0);
    if i == |s.order| then s
    else Store(s.data[s.order[i] := ZERO], s.order[..i] + s.order[i + 1..], s.screen)
  }

  /** The copy of mp1_ioctl_sync. */
  function Timed(to: Blinker, from: Blinker): Blinker {
    to.(onLen := from.onLen, offLen := from.offLen, countdown := from.countdown, status := from.status)
  }

  /** The conditional move after the copy is never taken, so the off character is what gets shown. */
  function DoSync(s: Store, from: nat, to: nat): (r: Store)
    requires Shape(s)
    ensures Shape(r)
  {
    var i, j := Match(s, from, 0), Match(s, to, 0);
    if i == |s.order| || j == |s.order| then s
    else
      var dest := s.data[s.order[j]];
      s.(data := s.data[s.order[j] := Timed(dest, s.data[s.order[i]])],
         screen := Overwrite(s.screen, dest.location, dest.offChar))
  }

  /** The blinkers after the tick has reached the first `n` of the list. */
  function TickData(s: Store, n: nat): (r: seq<Blinker>)
    requires Shape(s) && n <= |s.order|
    ensures |r| == SLOTS && forall k :: 0 <= k < SLOTS ==> r[k].location == s.data[k].location
  {
    if n == 0 then s.data
    else TickData(s, n - 1)[s.order[n - 1] := TickOne(s.data[s.order[n - 1]])]
  }

  /** Each element of the list is ticked once and nothing else changes. */
  lemma {:induction false} TickedOnce(s: Store, n: nat, k: nat)
    requires Inv(s) && n <= |s.order| && k < SLOTS
    ensures TickData(s, n)[k] == if k in s.order[..n] then TickOne(s.data[k]) else s.data[k]
    decreases n
  {
    if n > 0 {
      TickedOnce(s, n - 1, k);
      assert s.order[..n] == s.order[..n - 1] + [s.order[n - 1]];
    }
  }

  lemma TickedAll(s: Store, k: nat)
    requires Inv(s) && k < SLOTS
    ensures DoTick(s).data[k] == if k in s.order then TickOne(s.data[k]) else s.data[k]
  {
    assert s.order[..|s.order|] == s.order;
    TickedOnce(s, |s.order|, k);
  }

  function TickScreen(s: Store, n: nat): (r: seq<byte>)
    requires Shape(s) && n <= |s.order|
    ensures |r| == CELLS
  {
    if n == 0 then s.screen
    else
      var b := s.data[s.order[n - 1]];
      var before := TickScreen(s, n - 1);
      if Expires(b) then Overwrite(before, b.location, Face(TickOne(b))) else before
  }

  function DoTick(s: Store): (r: Store)
    requires Shape(s)
    ensures Shape(r)
  {
    Store(TickData(s, |s.order|), s.order, TickScreen(s, |s.order|))
  }

  function Step(s: Store, e: Event): (r: Store)
    requires Shape(s)
    ensures Shape(r)
  {
    match e
    case Add(b) => DoAdd(s, b)
    case Remove(location) => DoRemove(s, location)
    case Sync(from, to) => DoSync(s, from, to)
    case Tick => DoTick(s)
  }

  // ---------------------------------------------------------------- exactly when the invariant lasts

  /** An add at location zero would leave its slot looking free. */
  predicate Sound(s: Store, e: Event) {
    e.Add? && e.b.location == 0 ==> AddFails(s, e.b)
  }

  lemma RemoveKeeps(s: Store, location: nat)
    requires Inv(s)
    ensures Inv(DoRemove(s, location))
  {
    var i := Match(s, location, 0);
    if i < |s.order| {
      var r := DoRemove(s, location);
      forall k | 0 <= k < SLOTS
        ensures r.data[k].location != 0 <==> k in r.order
      {
        DropsOne(s.order, i, k);
      }
    }
  }

  lemma DropsOne(order: seq<nat>, i: nat, k: nat)
    requires NoRepeat(order) && i < |order|
    ensures k in order[..i] + order[i + 1..] <==> k in order && k != order[i]
  {
    var rest := order[..i] + order[i + 1..];
    if k in order && k != order[i] {
      var j :| 0 <= j < |order| && order[j] == k;
      assert k == if j < i then rest[j] else rest[j - 1];
    }
  }

  lemma StepExact(s: Store, e: Event)
    requires Inv(s)
    ensures Inv(Step(s, e)) <==> Sound(s, e)
  {
    match e
    case Add(b) =>
      if !AddFails(s, b) {
        var k := FirstFree(s.data, 0);
        var r := DoAdd(s, b);
        assert k in r.order && k !in s.order;
        forall j | 0 <= j < SLOTS && j != k
          ensures j in r.order <==> j in s.order
        {
        }
      }
    case Remove(location) => RemoveKeeps(s, location);
    case Sync(from, to) =>
    case Tick =>
  }

  // ---------------------------------------------------------------- refinement to a sequence

  function List(s: Store): (l: seq<Blinker>)
    requires Shape(s)
    ensures |l| == |s.order| && forall i :: 0 <= i < |l| ==> l[i] == s.data[s.order[i]]
  {
    seq(|s.order|, i requires 0 <= i < |s.order| => s.data[s.order[i]])
  }

  function FirstAt(l: seq<Blinker>, location: nat, from: nat): (i: nat)
    requires from <= |l|
    ensures from <= i <= |l|
    decreases |l| - from
  {
    if from == |l| || l[from].location == location then from else FirstAt(l, location, from + 1)
  }

  /** The same operations on a plain sequence, newest first. */
  function ListStep(l: seq<Blinker>, e: Event): seq<Blinker> {
    match e
    case Add(b) => if b.location >= CELLS || |l| == SLOTS then l else [Started(b)] + l
    case Remove(location) =>
      var i := FirstAt(l, location, 0);
      if i == |l| then l else l[..i] + l[i + 1..]
    case Sync(from, to) =>
      var i, j := FirstAt(l, from, 0), FirstAt(l, to, 0);
      if i == |l| || j == |l| then l else l[j := Timed(l[j], l[i])]
    case Tick => seq(|l|, i requires 0 <= i < |l| => TickOne(l[i]))
  }

  lemma {:induction false} MatchIsFirst(s: Store, location: nat, from: nat)
    requires Shape(s) && from <= |s.order|
    ensures Match(s, location, from) == FirstAt(List(s), location, from)
    decreases |s.order| - from
  {
    if from < |s.order| && s.data[s.order[from]].location != location {
      MatchIsFirst(s, location, from + 1);
    }
  }

  /** The numbers below `n`. */
  ghost function Below(n: nat): (r: set<nat>)
    ensures |r| == n && forall k :: k in r <==> 0 <= k < n
  {
    if n == 0 then {} else Below(n - 1) + {n - 1}
  }

  lemma {:induction false} Smaller(a: set<nat>, b: set<nat>)
    requires a <= b
    ensures |a| <= |b|
  {
    assert b == a + (b - a);
  }

  /** No slot is free exactly when the list has as many elements as there are slots. */
  lemma FullExactly(s: Store, slots: nat)
    requires Inv(s) && slots == SLOTS
    ensures FirstFree(s.data, 0) == slots <==> |s.order| == slots
  {
    var all := Below(slots);
    var live := set k | k in all && k in s.order;
    var free := FirstFree(s.data, 0);
    Distinct(s.order, live);
    if free == slots {
      assert live == all;
    } else {
      assert free !in live;
      Smaller(live + {free}, all);
    }
  }

  lemma {:induction false} Distinct(order: seq<nat>, live: set<nat>)
    requires NoRepeat(order) && forall k :: k in live <==> k in order
    ensures |live| == |order|
    decreases |order|
  {
    if order == [] {
      assert live == {};
    } else {
      var last := order[|order| - 1];
      var init := order[..|order| - 1];
      assert order == init + [last];
      Distinct(init, live - {last});
    }
  }

  lemma AddRefines(s: Store, b: Blinker)
    requires Inv(s) && Sound(s, Add(b))
    ensures List(DoAdd(s, b)) == ListStep(List(s), Add(b))
  {
    FullExactly(s, SLOTS);
    if !AddFails(s, b) {
      var k := FirstFree(s.data, 0);
      assert k !in s.order;
      assert List(DoAdd(s, b)) == [Started(b)] + List(s);
    }
  }

  /** What remains after a removal, place by place. */
  lemma Remains(s: Store, location: nat, i: nat, j: nat, from: nat)
    requires Inv(s) && i == Match(s, location, 0) && i < |s.order| && j < |s.order| - 1
    requires from == if j < i then j else j + 1
    ensures var r := DoRemove(s, location);
            |r.order| == |s.order| - 1 && r.order[j] == s.order[from] && r.data[r.order[j]] == s.data[s.order[from]]
  {
    assert s.order[from] != s.order[i];
  }

  lemma RemoveRefines(s: Store, location: nat)
    requires Inv(s)
    ensures List(DoRemove(s, location)) == ListStep(List(s), Remove(location))
  {
    MatchIsFirst(s, location, 0);
    var i := Match(s, location, 0);
    if i < |s.order| {
      var r, l := List(DoRemove(s, location)), List(s);
      var rest := l[..i] + l[i + 1..];
      forall j | 0 <= j < |rest|
        ensures |r| == |rest| && r[j] == rest[j]
      {
        Remains(s, location, i, j, if j < i then j else j + 1);
      }
      assert r == rest;
    }
  }

  lemma SyncRefines(s: Store, from: nat, to: nat)
    requires Inv(s)
    ensures List(DoSync(s, from, to)) == ListStep(List(s), Sync(from, to))
  {
    MatchIsFirst(s, from, 0);
    MatchIsFirst(s, to, 0);
  }

  lemma TickRefines(s: Store)
    requires Inv(s)
    ensures List(DoTick(s)) == ListStep(List(s), Tick)
  {
    forall i | 0 <= i < |s.order|
      ensures List(DoTick(s))[i] == TickOne(List(s)[i])
    {
      TickedAll(s, s.order[i]);
    }
  }

  /** Every operation on the array is the same operation on the sequence; add fails only when all slots are live. */
  lemma Refines(s: Store, e: Event)
    requires Inv(s) && Sound(s, e)
    ensures List(Step(s, e)) == ListStep(List(s), e)
  {
    match e
    case Add(b) => AddRefines(s, b);
    case Remove(location) => RemoveRefines(s, location);
    case Sync(from, to) => SyncRefines(s, from, to);
    case Tick => TickRefines(s);
  }

  // ---------------------------------------------------------------- runs

  function Run(s: Store, es: seq<Event>): (r: Store)
    requires Shape(s)
    ensures Shape(r)
    decreases |es|
  {
    if es == [] then s else Run(Step(s, es[0]), es[1..])
  }

  function ListRun(l: seq<Blinker>, es: seq<Event>): seq<Blinker>
    decreases |es|
  {
    if es == [] then l else ListRun(ListStep(l, es[0]), es[1..])
  }

  /** The program only adds at locations 1 to 1999. */
  predicate NonZero(es: seq<Event>) {
    forall i :: 0 <= i < |es| && es[i].Add? ==> es[i].b.location != 0
  }

  /** Over every run the array stays a well-formed list and tells the same story as the sequence. */
  lemma {:induction false} RunRefines(s: Store, es: seq<Event>)
    requires Inv(s) && NonZero(es)
    ensures Inv(Run(s, es)) && List(Run(s, es)) == ListRun(List(s), es)
    decreases |es|
  {
    if es != [] {
      StepExact(s, es[0]);
      Refines(s, es[0]);
      RunRefines(Step(s, es[0]), es[1..]);
    }
  }

  /** The event leaves slot `k` alone, apart from ticking it. */
  predicate Spares(s: Store, e: Event, k: nat)
    requires Shape(s)
  {
    match e
    case Add(_) => true
    case Tick => true
    case Remove(location) =>
      var i := Match(s, location, 0);
      i < |s.order| ==> s.order[i] != k
    case Sync(from, to) =>
      var j := Match(s, to, 0);
      j < |s.order| ==> s.order[j] != k
  }

  predicate SparesAll(s: Store, es: seq<Event>, k: nat)
    requires Shape(s)
    decreases |es|
  {
    es == [] || (Spares(s, es[0], k) && SparesAll(Step(s, es[0]), es[1..], k))
  }

  function TickCount(es: seq<Event>): nat
    decreases |es|
  {
    if es == [] then 0 else (if es[0].Tick? then 1 else 0) + TickCount(es[1..])
  }

  predicate Live(s: Store, k: nat) {
    k < |s.data| && s.data[k].location != 0
  }

  lemma {:induction false} TicksStay(b: Blinker, n: nat)
    ensures Ticks(b, n).location == b.location
  {
    if n > 0 {
      TicksStay(b, n - 1);
    }
  }

  /** A blinker that is neither removed nor synced onto depends on the number of ticks alone. */
  lemma {:induction false} OnlyTicksMatter(s: Store, es: seq<Event>, k: nat)
    requires Inv(s) && NonZero(es) && Live(s, k) && SparesAll(s, es, k)
    ensures Run(s, es).data[k] == Ticks(s.data[k], TickCount(es))
    decreases |es|
  {
    if es != [] {
      var e, rest := es[0], es[1..];
      var n, m := if e.Tick? then 1 else 0, TickCount(rest);
      var b, r := s.data[k], Step(s, e);
      assert NonZero(rest);
      StepExact(s, e);
      StepSpares(s, e, k, n);
      TicksStay(b, n);
      OnlyTicksMatter(r, rest, k);
      TicksAdd(b, n, m);
    }
  }

  lemma StepSpares(s: Store, e: Event, k: nat, n: nat)
    requires Inv(s) && Live(s, k) && Sound(s, e) && Spares(s, e, k) && n == if e.Tick? then 1 else 0
    ensures Step(s, e).data[k] == Ticks(s.data[k], n)
  {
    assert Ticks(s.data[k], 0) == s.data[k];
    if e.Tick? {
      TickedAll(s, k);
      assert Ticks(s.data[k], 1) == TickOne(Ticks(s.data[k], 0));
    }
  }

  /** From its add on, a blinker is on exactly in the first part of each period. */
  lemma BlinksInTime(s: Store, b: Blinker, es: seq<Event>)
    requires Inv(s) && Proper(b) && b.location != 0 && !AddFails(s, b) && NonZero(es)
    requires SparesAll(DoAdd(s, b), es, FirstFree(s.data, 0))
    ensures var k := FirstFree(s.data, 0);
            IsOn(Run(DoAdd(s, b), es).data[k]) <==> TickCount(es) % (b.onLen + b.offLen) < b.onLen
  {
    var k := FirstFree(s.data, 0);
    StepExact(s, Add(b));
    OnlyTicksMatter(DoAdd(s, b), es, k);
    ClosedForm(b, TickCount(es));
  }

  /** After a sync the two blinkers stay in step until one of them is removed or synced again. */
  lemma SyncedStay(s: Store, from: nat, to: nat, es: seq<Event>)
    requires Inv(s) && NonZero(es)
    requires Match(s, from, 0) < |s.order| && Match(s, to, 0) < |s.order|
    requires var i, j := s.order[Match(s, from, 0)], s.order[Match(s, to, 0)];
             SparesAll(DoSync(s, from, to), es, i) && SparesAll(DoSync(s, from, to), es, j)
    ensures var i, j := s.order[Match(s, from, 0)], s.order[Match(s, to, 0)];
            var r := Run(DoSync(s, from, to), es);
            InStep(r.data[i], r.data[j])
  {
    var i, j := s.order[Match(s, from, 0)], s.order[Match(s, to, 0)];
    var r := DoSync(s, from, to);
    StepExact(s, Sync(from, to));
    OnlyTicksMatter(r, es, i);
    OnlyTicksMatter(r, es, j);
    StayInStep(r.data[i], r.data[j], TickCount(es));
  }

  /** An add puts the blinker in front, lit, in a slot that was free, and shows its on character. */
  lemma AddStores(s: Store, b: Blinker, k: nat)
    requires Inv(s) && !AddFails(s, b) && k < SLOTS
    ensures var n, r := FirstFree(s.data, 0), DoAdd(s, b);
            && n !in s.order && r.order == [n] + s.order
            && r.data[k] == (if k == n then Blinker(b.location, b.onChar, b.offChar, b.onLen, b.offLen, b.onLen, 1)
                             else s.data[k])
            && r.screen == s.screen[b.location := b.onChar]
  {
  }

  /** A sync changes the timing of one blinker only, and no location or character. */
  lemma SyncKeeps(s: Store, from: nat, to: nat, k: nat)
    requires Inv(s) && k < SLOTS
    ensures var b, c := s.data[k], DoSync(s, from, to).data[k];
            && c.location == b.location && c.onChar == b.onChar && c.offChar == b.offChar
            && (b.location != to ==> c == b)
            && DoSync(s, from, to).order == s.order
  {
  }

  // ---------------------------------------------------------------- what the screen shows

  /** Every blinker of the list has its own cell, and the cell shows the character its status calls for. */
  predicate OwnCells(s: Store)
    requires Shape(s)
  {
    forall i, j :: 0 <= i < j < |s.order| ==> s.data[s.order[i]].location != s.data[s.order[j]].location
  }

  predicate Shown(s: Store)
    requires Shape(s)
  {
    forall i :: 0 <= i < |s.order| ==> s.screen[s.data[s.order[i]].location] == Face(s.data[s.order[i]])
  }

  lemma {:induction false} TickShows(s: Store, n: nat, i: nat)
    requires Shape(s) && OwnCells(s) && n <= |s.order| && i < |s.order|
    ensures var b := s.data[s.order[i]];
            TickScreen(s, n)[b.location] == if i < n && Expires(b) then Face(TickOne(b)) else s.screen[b.location]
    decreases n
  {
    if n > 0 {
      TickShows(s, n - 1, i);
    }
  }

  lemma TickKeepsShown(s: Store)
    requires Inv(s) && OwnCells(s) && Shown(s)
    ensures OwnCells(DoTick(s)) && Shown(DoTick(s))
  {
    var r := DoTick(s);
    forall i | 0 <= i < |s.order|
      ensures r.screen[r.data[s.order[i]].location] == Face(r.data[s.order[i]])
    {
      TickedAll(s, s.order[i]);
      TickShows(s, |s.order|, i);
    }
  }

  lemma AddKeepsShown(s: Store, b: Blinker)
    requires Inv(s) && Sound(s, Add(b)) && OwnCells(s) && Shown(s)
    requires forall i :: 0 <= i < |s.order| ==> s.data[s.order[i]].location != b.location
    ensures OwnCells(DoAdd(s, b)) && Shown(DoAdd(s, b))
  {
    if !AddFails(s, b) {
      var k := FirstFree(s.data, 0);
      var r := DoAdd(s, b);
      assert k !in s.order;
      forall i | 0 <= i < |r.order|
        ensures i > 0 ==> r.order[i] == s.order[i - 1] && r.data[r.order[i]] == s.data[s.order[i - 1]]
      {
        assert i > 0 ==> s.order[i - 1] in s.order;
      }
    }
  }

  lemma RemoveKeepsShown(s: Store, location: nat)
    requires Inv(s) && OwnCells(s) && Shown(s)
    ensures OwnCells(DoRemove(s, location)) && Shown(DoRemove(s, location))
  {
    var at := Match(s, location, 0);
    if at < |s.order| {
      var r := DoRemove(s, location);
      forall i | 0 <= i < |r.order|
        ensures r.screen[r.data[r.order[i]].location] == Face(r.data[r.order[i]])
      {
        Remains(s, location, at, i, if i < at then i else i + 1);
      }
      forall i, j | 0 <= i < j < |r.order|
        ensures r.data[r.order[i]].location != r.data[r.order[j]].location
      {
        Remains(s, location, at, i, if i < at then i else i + 1);
        Remains(s, location, at, j, if j < at then j else j + 1);
      }
    }
  }

  /** Sync always shows the off character, which is right exactly when the source is off or both characters agree. */
  lemma SyncShownExactly(s: Store, from: nat, to: nat)
    requires Inv(s) && OwnCells(s) && Shown(s)
    requires Match(s, from, 0) < |s.order| && Match(s, to, 0) < |s.order|
    ensures var src, dest := s.data[s.order[Match(s, from, 0)]], s.data[s.order[Match(s, to, 0)]];
            Shown(DoSync(s, from, to)) <==> !IsOn(src) || dest.onChar == dest.offChar
  {
    var j := Match(s, to, 0);
    var r := DoSync(s, from, to);
    assert r.data[r.order[j]] == Timed(s.data[s.order[j]], s.data[s.order[Match(s, from, 0)]]);
    assert r.screen[r.data[r.order[j]].location] == s.data[s.order[j]].offChar;
    forall i | 0 <= i < |s.order| && i != j
      ensures r.screen[r.data[r.order[i]].location] == Face(r.data[r.order[i]])
    {
      assert s.order[i] != s.order[j];
    }
  }
}
