/** blink.S and the allocator of fish.c, in place on the static array, proved against BlinkList. */
module BlinkDriver {
  import opened CStrings
  import opened Blink
  import opened BlinkList
  import opened Common

  /** mp1_blink_struct: the data and the link; -1 stands for the null pointer. */
  datatype Node = Node(b: Blinker, next: int)

  function Data(nodes: seq<Node>): (r: seq<Blinker>)
    ensures |r| == |nodes| && forall k :: 0 <= k < |r| ==> r[k] == nodes[k].b
  {
    seq(|nodes|, k requires 0 <= k < |nodes| => nodes[k].b)
  }

  function LinkAt(order: seq<nat>, i: nat): int {
    if i < |order| then order[i] else -1
  }

  /** Following the links from `p` visits `order` and then ends. */
  ghost predicate Links(nodes: seq<Node>, p: int, order: seq<nat>)
    decreases |order|
  {
    if order == [] then p == -1
    else p == order[0] && p < |nodes| && Links(nodes, nodes[p].next, order[1..])
  }

  /** The links determine the list. */
  lemma {:induction false} LinksUnique(nodes: seq<Node>, p: int, a: seq<nat>, b: seq<nat>)
    requires Links(nodes, p, a) && Links(nodes, p, b)
    ensures a == b
    decreases |a|
  {
    if a != [] {
      LinksUnique(nodes, nodes[p].next, a[1..], b[1..]);
      assert a == [a[0]] + a[1..] && b == [b[0]] + b[1..];
    }
  }

  lemma {:induction false} LinksSame(nodes: seq<Node>, after: seq<Node>, p: int, order: seq<nat>)
    requires Links(nodes, p, order) && |after| == |nodes|
    requires forall k :: k in order && k < |nodes| ==> after[k].next == nodes[k].next
    ensures Links(after, p, order)
    decreases |order|
  {
    if order != [] {
      assert order[0] in order && forall k :: k in order[1..] ==> k in order;
      LinksSame(nodes, after, nodes[p].next, order[1..]);
    }
  }

  lemma LinksPush(nodes: seq<Node>, head: int, order: seq<nat>, k: nat, b: Blinker)
    requires Links(nodes, head, order) && k < |nodes| && k !in order
    ensures Links(nodes[k := Node(b, head)], k, [k] + order)
  {
    LinksSame(nodes, nodes[k := Node(b, head)], head, order);
    assert ([k] + order)[1..] == order;
  }

  lemma {:induction false} LinksWithin(nodes: seq<Node>, p: int, order: seq<nat>, i: nat)
    requires Links(nodes, p, order) && i <= |order|
    ensures Links(nodes, LinkAt(order, i), order[i..])
    ensures i < |order| ==> order[i] < |nodes| && nodes[order[i]].next == LinkAt(order, i + 1)
    decreases i
  {
    if i == 0 {
      assert order[0..] == order;
    } else {
      LinksWithin(nodes, nodes[p].next, order[1..], i - 1);
      assert order[1..][i - 1..] == order[i..];
    }
  }

  function Drop(order: seq<nat>, i: nat): seq<nat>
    requires i < |order|
  {
    order[..i] + order[i + 1..]
  }

  /** Unlink the element at place `i`: its predecessor, or the head, takes over its link. */
  lemma {:induction false} LinksDrop(nodes: seq<Node>, p: int, order: seq<nat>, i: nat, after: seq<Node>)
    requires Links(nodes, p, order) && NoRepeat(order) && i < |order| && |after| == |nodes|
    requires forall j :: 0 <= j < |order| && j != i && j != i - 1 && order[j] < |nodes| ==>
               after[order[j]].next == nodes[order[j]].next
    requires i > 0 && order[i - 1] < |nodes| && order[i] < |nodes| ==>
               after[order[i - 1]].next == nodes[order[i]].next
    ensures Links(after, if i == 0 then nodes[order[0]].next else p, Drop(order, i))
    decreases i
  {
    var tail := order[1..];
    if i == 0 {
      assert Drop(order, 0) == tail;
      LinksSame(nodes, after, nodes[p].next, tail);
    } else {
      LinksWithin(nodes, p, order, i);
      assert forall j :: 0 <= j < |tail| ==> tail[j] == order[j + 1];
      LinksDrop(nodes, nodes[p].next, tail, i - 1, after);
      assert Drop(order, i)[1..] == Drop(tail, i - 1);
    }
  }

  class BlinkArray {
    const nodes: array<Node>
    const video: array<byte>
    var head: int
    ghost var order: seq<nat>

    ghost function Abs(): Store
      reads this, nodes, video
    {
      Store(Data(nodes[..]), order, video[..])
    }

    ghost predicate Linked()
      reads this, nodes, video
    {
      nodes.Length == SLOTS && Shape(Abs()) && Links(nodes[..], head, order)
    }

    ghost predicate Valid()
      reads this, nodes, video
    {
      Linked() && Inv(Abs())
    }

    constructor (video: array<byte>)
      requires video.Length == CELLS
      ensures Valid() && fresh(nodes) && this.video == video && order == [] && Abs().screen == video[..]
    {
      nodes := new Node[SLOTS](_ => Node(ZERO, -1));
      this.video := video;
      head := -1;
      order := [];
    }

    /** mp1_find_helper: the newest element at `location`, or the null pointer */
    method FindHelper(location: nat) returns (p: int)
      requires Valid()
      ensures p == LinkAt(order, Match(Abs(), location, 0))
    {
      p := head;
      ghost var i := 0;
      while p != -1
        invariant i <= |order| && p == LinkAt(order, i)
        invariant Match(Abs(), location, 0) == Match(Abs(), location, i)
        decreases |order| - i
      {
        LinksWithin(nodes[..], head, order, i);
        if nodes[p].b.location == location {
          return;
        }
        p := nodes[p].next;
        i := i + 1;
      }
    }

    /** mp1_malloc, with SLOTS for the null pointer */
    method Malloc() returns (k: nat)
      requires nodes.Length == SLOTS
      ensures k == FirstFree(Data(nodes[..]), 0)
    {
      k := 0;
      while k < SLOTS
        invariant k <= SLOTS && FirstFree(Data(nodes[..]), 0) == FirstFree(Data(nodes[..]), k)
      {
        if nodes[k].b.location == 0 {
          return;
        }
        k := k + 1;
      }
    }

    /** mp1_ioctl_add. The list stays linked in any case, and well-formed exactly when `Sound`. */
    method DoAdd(b: Blinker) returns (r: int)
      requires Valid()
      modifies this, nodes, video
      ensures Linked() && Abs() == BlinkList.DoAdd(old(Abs()), b)
      ensures r == if AddFails(old(Abs()), b) then -1 else 0
      ensures Valid() <==> Sound(old(Abs()), Event.Add(b))
    {
      ghost var was := Abs();
      StepExact(was, Event.Add(b));
      if b.location >= 80 * 25 {
        return -1;
      }
      var k := Malloc();
      if k == SLOTS {
        return -1;
      }
      LinksPush(nodes[..], head, order, k, Started(b));
      nodes[k] := Node(Started(b), head);
      head := k;
      order := [k] + order;
      video[b.location] := b.onChar;
      assert Data(nodes[..]) == was.data[k := Started(b)];
      return 0;
    }

    /** mp1_ioctl_sync */
    method DoSync(from: nat, to: nat) returns (r: int)
      requires Valid()
      modifies this, nodes, video
      ensures Valid() && Abs() == BlinkList.DoSync(old(Abs()), from, to)
      ensures r == 0 <==> Match(old(Abs()), from, 0) < |old(order)| && Match(old(Abs()), to, 0) < |old(order)|
      ensures r == 0 || r == -1
    {
      ghost var was := Abs();
      StepExact(was, Event.Sync(from, to));
      var src := FindHelper(from);
      if src == -1 {
        return -1;
      }
      var dest := FindHelper(to);
      if dest == -1 {
        return -1;
      }
      ghost var links := nodes[..];
      nodes[dest] := nodes[dest].(b := Timed(nodes[dest].b, nodes[src].b));
      video[nodes[dest].b.location] := nodes[dest].b.offChar;
      assert Data(nodes[..]) == was.data[dest := Timed(was.data[dest], was.data[src])];
      LinksSame(links, nodes[..], head, order);
      return 0;
    }

    /** mp1_ioctl_find: a copy of the newest element at `location` */
    method DoFind(location: nat) returns (r: int, b: Blinker)
      requires Valid()
      ensures var i := Match(Abs(), location, 0);
              if i < |order| then r == 0 && b == Abs().data[order[i]] else r == -1
    {
      b := ZERO;
      var p := FindHelper(location);
      if p == -1 {
        return -1, b;
      }
      return 0, nodes[p].b;
    }

    /** The search for the link that points to `p`: the slot before it, or -1 for the head. */
    method FindPrevious(p: int, ghost i: nat) returns (prev: int)
      requires Valid() && i < |order| && p == order[i]
      ensures prev == if i == 0 then -1 else order[i - 1]
    {
      prev := -1;
      ghost var j := 0;
      LinksWithin(nodes[..], head, order, 0);
      while (if prev == -1 then head else nodes[prev].next) != p
        invariant j <= i && prev == if j == 0 then -1 else order[j - 1]
        invariant (if prev == -1 then head else nodes[prev].next) == order[j]
        decreases i - j
      {
        LinksWithin(nodes[..], head, order, j);
        prev := if prev == -1 then head else nodes[prev].next;
        j := j + 1;
      }
    }

    /** mp1_ioctl_remove and mp1_free */
    method DoRemove(location: nat) returns (r: int)
      requires Valid()
      modifies this, nodes
      ensures Valid() && Abs() == BlinkList.DoRemove(old(Abs()), location)
      ensures r == if Match(old(Abs()), location, 0) < |old(order)| then 0 else -1
    {
      ghost var was := Abs();
      StepExact(was, Event.Remove(location));
      var p := FindHelper(location);
      if p == -1 {
        return -1;
      }
      Unlink(p, Match(was, location, 0));
      assert Abs() == BlinkList.DoRemove(was, location);
      return 0;
    }

    /** Take slot `p`, at place `i` of the list, out of the list and zero it. */
    method Unlink(p: nat, ghost i: nat)
      requires Valid() && i < |order| && p == order[i]
      modifies this, nodes
      ensures Data(nodes[..]) == old(Data(nodes[..]))[p := ZERO]
      ensures order == Drop(old(order), i) && Links(nodes[..], head, order)
    {
      ghost var was, links, start := order, nodes[..], head;
      var prev := FindPrevious(p, i);
      var next := nodes[p].next;
      if prev == -1 {
        head := next;
      } else {
        nodes[prev] := nodes[prev].(next := next);
      }
      nodes[p] := Node(ZERO, -1);
      order := Drop(was, i);
      LinksDrop(links, start, was, i, nodes[..]);
    }

    /** mp1_rtc_tasklet */
    method Tasklet()
      requires Valid()
      modifies nodes, video
      ensures Valid() && Abs() == DoTick(old(Abs()))
    {
      ghost var was := Abs();
      ghost var links := nodes[..];
      TickAll(was);
      assert Abs() == DoTick(was);
      StepExact(was, Event.Tick);
      LinksSame(links, nodes[..], head, order);
    }

    /** The tasklet's walk along the list. */
    method TickAll(ghost was: Store)
      requires nodes.Length == SLOTS && Inv(was) && order == was.order && Links(nodes[..], head, order)
      requires Data(nodes[..]) == was.data && video[..] == was.screen
      modifies nodes, video
      ensures Data(nodes[..]) == TickData(was, |order|) && video[..] == TickScreen(was, |order|)
      ensures forall k :: 0 <= k < SLOTS ==> nodes[k].next == old(nodes[k].next)
    {
      var p := head;
      ghost var i := 0;
      while p != -1
        invariant i <= |order| && p == LinkAt(order, i)
        invariant forall k :: 0 <= k < SLOTS ==> nodes[k].next == old(nodes[k].next)
        invariant Data(nodes[..]) == TickData(was, i) && video[..] == TickScreen(was, i)
        decreases |order| - i
      {
        LinksWithin(old(nodes[..]), head, order, i);
        TickAt(p, was, i);
        p := nodes[p].next;
        i := i + 1;
      }
    }

    /** One turn of the loop: the element at place `i` of the list is ticked and shown. */
    method TickAt(p: nat, ghost was: Store, ghost i: nat)
      requires nodes.Length == SLOTS && Inv(was) && i < |was.order| && p == was.order[i]
      requires Data(nodes[..]) == TickData(was, i) && video[..] == TickScreen(was, i)
      modifies nodes, video
      ensures Data(nodes[..]) == TickData(was, i + 1) && video[..] == TickScreen(was, i + 1)
      ensures forall k :: 0 <= k < SLOTS ==> nodes[k].next == old(nodes[k].next)
    {
      TickReaches(was, i);
      assert nodes[p].b == Data(nodes[..])[p];
      TickNode(p);
      assert Data(nodes[..]) == TickData(was, i)[p := TickOne(was.data[p])];
    }

    /** The body of the tasklet's loop, for one element. */
    method TickNode(p: nat)
      requires nodes.Length == SLOTS && p < SLOTS && nodes[p].b.location < video.Length
      modifies nodes, video
      ensures nodes[..] == old(nodes[..])[p := Node(TickOne(old(nodes[p].b)), old(nodes[p].next))]
      ensures var b := old(nodes[p].b);
              video[..] == if Expires(b) then old(video[..])[b.location := Face(TickOne(b))] else old(video[..])
    {
      var n := nodes[p];
      n := n.(b := n.b.(countdown := Decrement(n.b.countdown)));
      if n.b.countdown == 0 || n.b.countdown >= HALF {
        var length;
        if IsOn(n.b) {
          video[n.b.location] := n.b.offChar;
          length := n.b.offLen;
        } else {
          video[n.b.location] := n.b.onChar;
          length := n.b.onLen;
        }
        n := n.(b := n.b.(countdown := length, status := Flip(n.b.status)));
      }
      nodes[p] := n;
    }
  }

  /** The tick's next element has not been ticked yet. */
  lemma TickReaches(s: Store, i: nat)
    requires Inv(s) && i < |s.order|
    ensures TickData(s, i)[s.order[i]] == s.data[s.order[i]]
  {
    TickedOnce(s, i, s.order[i]);
    assert s.order[i] !in s.order[..i];
  }
}
