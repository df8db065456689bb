/** The blinking characters of the fish program: a list threaded through a static array. */
module Blink {
  import opened CStrings

  const SLOTS := 2000
  const CELLS := 2000
  const HALF := 0x8000
  const WRAP := 0x10000

  /** The fields of mp1_blink_struct; the lengths, countdown and status are 16-bit words. */
  datatype Blinker = Blinker(location: nat, onChar: byte, offChar: byte, onLen: nat, offLen: nat, countdown: nat, status: nat)

  const ZERO := Blinker(0, 0, 0, 0, 0, 0, 0)

  /** blink_array without its links, the slots of the list from its head, and the screen's characters. */
  datatype Store = Store(data: seq<Blinker>, order: seq<nat>, screen: seq<byte>)

  // ---------------------------------------------------------------- one blinker

  predicate IsOn(b: Blinker) {
    b.status % 2 == 1
  }

  /** xorw $1 */
  function Flip(status: nat): nat {
    if status % 2 == 1 then status - 1 else status + 1
  }

  /** decw, as an unsigned word */
  function Decrement(w: nat): nat {
    if w == 0 then WRAP - 1 else w - 1
  }

  /** The countdown has run out: as a signed word it is not positive. */
  predicate Expires(b: Blinker) {
    var w := Decrement(b.countdown);
    w == 0 || w >= HALF
  }

  /** One blinker's share of mp1_rtc_tasklet. */
  function TickOne(b: Blinker): Blinker {
    if !Expires(b) then b.(countdown := Decrement(b.countdown))
    else b.(countdown := if IsOn(b) then b.offLen else b.onLen, status := Flip(b.status))
  }

  /** The character a blinker should be showing. */
  function Face(b: Blinker): byte {
    if IsOn(b) then b.onChar else b.offChar
  }

  function Ticks(b: Blinker, k: nat): Blinker {
    if k == 0 then b else TickOne(Ticks(b, k - 1))
  }

  function Started(b: Blinker): Blinker {
    b.(status := 1, countdown := b.onLen)
  }

  lemma ModStep(k: nat, n: nat)
    requires n > 0
    ensures (k + 1) % n == if k % n + 1 == n then 0 else k % n + 1
  {
    var d := (k + 1) / n - k / n;
    assert n * d == n * ((k + 1) / n) - n * (k / n) == k % n + 1 - (k + 1) % n;
    Multiples(n, d);
  }

  lemma Multiples(n: nat, d: int)
    ensures d >= 2 ==> n * d >= n + n
    ensures d == 1 ==> n * d == n
    ensures d == 0 ==> n * d == 0
    ensures d <= -1 ==> n * d + n <= 0
  {
  }

  predicate Proper(b: Blinker) {
    1 <= b.onLen < HALF && 1 <= b.offLen < HALF
  }

  lemma {:induction false} PhaseAfter(b: Blinker, period: nat, k: nat) returns (m: nat)
    requires Proper(b) && period == b.onLen + b.offLen
    ensures m == k % period && Ticks(Started(b), k) == AtPhase(b, m)
  {
    if k == 0 {
      m := 0;
    } else {
      var before := PhaseAfter(b, period, k - 1);
      ModStep(k - 1, period);
      TickPhase(b, before, Ticks(Started(b), k - 1));
      m := if before + 1 == period then 0 else before + 1;
    }
  }

  /** The blinker `k` ticks after it was added, in closed form. */
  lemma ClosedForm(b: Blinker, k: nat)
    requires Proper(b)
    ensures Ticks(Started(b), k) == AtPhase(b, k % (b.onLen + b.offLen))
    ensures IsOn(Ticks(Started(b), k)) <==> k % (b.onLen + b.offLen) < b.onLen
  {
    var m := PhaseAfter(b, b.onLen + b.offLen, k);
  }

  lemma TickPhase(b: Blinker, m: nat, c: Blinker)
    requires Proper(b) && m < b.onLen + b.offLen && c == AtPhase(b, m)
    ensures TickOne(c) == AtPhase(b, if m + 1 == b.onLen + b.offLen then 0 else m + 1)
  {
  }

  /** A blinker `m` ticks into its period. */
  function AtPhase(b: Blinker, m: nat): Blinker
    requires m < b.onLen + b.offLen
  {
    if m < b.onLen then b.(status := 1, countdown := b.onLen - m)
    else b.(status := 0, countdown := b.onLen + b.offLen - m)
  }

  /** The fields the tick looks at. */
  predicate InStep(a: Blinker, b: Blinker) {
    a.onLen == b.onLen && a.offLen == b.offLen && a.countdown == b.countdown && a.status == b.status
  }

  lemma {:induction false} StayInStep(a: Blinker, b: Blinker, k: nat)
    requires InStep(a, b)
    ensures InStep(Ticks(a, k), Ticks(b, k))
  {
    if k > 0 {
      StayInStep(a, b, k - 1);
    }
  }

  lemma {:induction false} TicksAdd(b: Blinker, j: nat, k: nat)
    ensures Ticks(Ticks(b, j), k) == Ticks(b, j + k)
  {
    if k > 0 {
      TicksAdd(b, j, k - 1);
      assert j + k - 1 == j + (k - 1);
    }
  }
}
