/** itoa, strrev and the padded hexadecimal of printf. */
module Numbers {
  import opened CStrings

  predicate Radix(r: int) {
    2 <= r <= 36
  }

  /** The lookup string "0..9A..Z". */
  function Digit(d: nat): (c: byte)
    requires d < 36
  {
    if d < 10 then 48 + d else 55 + d
  }

  const LOOKUP := "0123456789ABCDEFGHIJKLMNOPQRSTUVWXYZ"

  lemma DigitIs(d: nat)
    requires d < 36
    ensures |LOOKUP| == 36 && Digit(d) as char == LOOKUP[d]
  {
  }

  function ValueOf(c: byte): int {
    if 48 <= c <= 57 then c - 48 else if 65 <= c <= 90 then c - 55 else -1
  }

  /** The value a string of digits denotes, most significant first. */
  function Parse(s: seq<byte>, radix: nat): int {
    if s == [] then 0 else Parse(s[..|s| - 1], radix) * radix + ValueOf(s[|s| - 1])
  }

  /** The digits of a positive value, least significant first, as the loop produces them. */
  function Digits(value: nat, radix: nat): (s: seq<byte>)
    requires Radix(radix)
    ensures value > 0 ==> |s| > 0
    decreases value
  {
    if value == 0 then [] else [Digit(value % radix)] + Digits(value / radix, radix)
  }

  function Reversed(s: seq<byte>): (r: seq<byte>)
    ensures |r| == |s| && forall i :: 0 <= i < |s| ==> r[i] == s[|s| - 1 - i]
  {
    if s == [] then [] else Reversed(s[1..]) + [s[0]]
  }

  function Numeral(value: nat, radix: nat): seq<byte>
    requires Radix(radix)
  {
    if value == 0 then [48] else Reversed(Digits(value, radix))
  }

  // ---------------------------------------------------------------- round trip

  lemma ParseStep(s: seq<byte>, c: byte, radix: nat, v: int)
    requires Parse(s, radix) == v
    ensures Parse(s + [c], radix) == v * radix + ValueOf(c)
  {
    assert (s + [c])[..|s|] == s;
  }

  lemma DigitValue(d: nat)
    requires d < 36
    ensures ValueOf(Digit(d)) == d && Digit(d) != NUL && (Digit(d) == 48 <==> d == 0)
  {
  }

  lemma DivMod(value: nat, radix: nat, q: nat, d: nat)
    requires radix >= 2 && value > 0 && q == value / radix && d == value % radix
    ensures d < radix && value == q * radix + d && q < value
  {
    assert q * radix >= q * 2;
  }

  lemma DigitsStep(value: nat, radix: nat, q: nat, d: nat)
    requires Radix(radix) && value > 0 && q == value / radix && d == value % radix
    ensures Digits(value, radix) == [Digit(d)] + Digits(q, radix)
    ensures Reversed(Digits(value, radix)) == Reversed(Digits(q, radix)) + [Digit(d)]
  {
    var all, rest := Digits(value, radix), Digits(q, radix);
    assert all == [Digit(d)] + rest;
    assert all[1..] == rest;
  }

  lemma {:induction false} DigitsParse(value: nat, radix: nat)
    requires Radix(radix)
    ensures Parse(Reversed(Digits(value, radix)), radix) == value
    decreases value
  {
    if value > 0 {
      var q, d := value / radix, value % radix;
      DivMod(value, radix, q, d);
      DigitsStep(value, radix, q, d);
      DigitsParse(q, radix);
      ParseStep(Reversed(Digits(q, radix)), Digit(d), radix, q);
      DigitValue(d);
    }
  }

  predicate AllDigits(s: seq<byte>, radix: nat) {
    forall i :: 0 <= i < |s| ==> 0 <= ValueOf(s[i]) < radix && s[i] != NUL
  }

  lemma {:induction false} DigitsShape(value: nat, radix: nat)
    requires Radix(radix) && value > 0
    ensures var s := Reversed(Digits(value, radix)); |s| > 0 && s[0] != 48 && AllDigits(s, radix)
    decreases value
  {
    var q, d := value / radix, value % radix;
    DivMod(value, radix, q, d);
    DigitsStep(value, radix, q, d);
    DigitValue(d);
    if q > 0 {
      DigitsShape(q, radix);
    }
  }

  /** What itoa writes parses back to the value, in digits of the radix and without a leading zero. */
  lemma RoundTrip(value: nat, radix: nat)
    requires Radix(radix)
    ensures var s := Numeral(value, radix);
            && Parse(s, radix) == value && AllDigits(s, radix)
            && s != [] && (s[0] == 48 ==> value == 0 && |s| == 1)
  {
    if value == 0 {
      ParseStep([], 48, radix, 0);
      assert [] + [48] == [48];
    } else {
      DigitsParse(value, radix);
      DigitsShape(value, radix);
    }
  }

  // ---------------------------------------------------------------- the routines

  /** The buffer holds the string `s`, with its NUL, from `at` on. */
  ghost predicate Holds(buf: array<byte>, at: nat, s: seq<byte>)
    reads buf
  {
    && at + |s| < buf.Length && buf[at + |s|] == NUL
    && forall k :: at <= k < at + |s| ==> buf[k] == s[k - at]
  }

  /** strlen of the string at `at` */
  method Length(buf: array<byte>, at: nat, ghost s: seq<byte>) returns (len: nat)
    requires Holds(buf, at, s) && forall i :: 0 <= i < |s| ==> s[i] != NUL
    ensures len == |s|
  {
    len := 0;
    while buf[at + len] != NUL
      invariant len <= |s|
      decreases |s| - len
    {
      len := len + 1;
    }
  }

  /** strrev */
  method StrRev(buf: array<byte>, at: nat, ghost s: seq<byte>)
    requires Holds(buf, at, s) && forall i :: 0 <= i < |s| ==> s[i] != NUL
    modifies buf
    ensures Holds(buf, at, Reversed(s))
    ensures forall k :: 0 <= k < at ==> buf[k] == old(buf[k])
  {
    var len := Length(buf, at, s);
    SwapEnds(buf, at, len, s);
  }

  /** The user library's strrev, which leaves short strings alone. */
  method UserStrRev(buf: array<byte>, at: nat, ghost s: seq<byte>)
    requires Holds(buf, at, s) && forall i :: 0 <= i < |s| ==> s[i] != NUL
    modifies buf
    ensures Holds(buf, at, Reversed(s))
    ensures forall k :: 0 <= k < at ==> buf[k] == old(buf[k])
  {
    var len := Length(buf, at, s);
    if len <= 1 {
      return;
    }
    SwapEnds(buf, at, len, s);
  }

  /** The swapping loop both share. */
  method SwapEnds(buf: array<byte>, at: nat, len: nat, ghost s: seq<byte>)
    requires Holds(buf, at, s) && len == |s|
    modifies buf
    ensures Holds(buf, at, Reversed(s))
    ensures forall k :: 0 <= k < at ==> buf[k] == old(buf[k])
  {
    var beg: int, end: int := at, at + len - 1;
    while beg < end
      invariant at <= beg <= end + 1 && beg - at == at + len - 1 - end
      invariant forall k :: beg <= k <= end ==> buf[k] == s[k - at]
      invariant forall k :: at <= k < beg ==> buf[k] == s[at + len - 1 - k]
      invariant forall k :: end < k < at + len ==> buf[k] == s[at + len - 1 - k]
      invariant forall k :: 0 <= k < at ==> buf[k] == old(buf[k])
      invariant buf[at + len] == NUL
    {
      var tmp := buf[end];
      buf[end] := buf[beg];
      buf[beg] := tmp;
      beg := beg + 1;
      end := end - 1;
    }
  }

  /** itoa: the digit loop, the special case of zero, and the reversal in place */
  method Itoa(value: nat, buf: array<byte>, at: nat, radix: nat)
    requires Radix(radix) && at + |Numeral(value, radix)| < buf.Length
    modifies buf
    ensures Holds(buf, at, Numeral(value, radix))
    ensures forall k :: 0 <= k < at ==> buf[k] == old(buf[k])
  {
    if value == 0 {
      buf[at] := 48;
      buf[at + 1] := NUL;
      return;
    }
    WriteDigits(value, buf, at, radix);
    DigitsNoNul(value, radix);
    StrRev(buf, at, Digits(value, radix));
  }

  /** ece391_itoa, over its own reversal */
  method UserItoa(value: nat, buf: array<byte>, at: nat, radix: nat)
    requires Radix(radix) && at + |Numeral(value, radix)| < buf.Length
    modifies buf
    ensures Holds(buf, at, Numeral(value, radix))
    ensures forall k :: 0 <= k < at ==> buf[k] == old(buf[k])
  {
    if value == 0 {
      buf[at] := 48;
      buf[at + 1] := NUL;
      return;
    }
    WriteDigits(value, buf, at, radix);
    DigitsNoNul(value, radix);
    UserStrRev(buf, at, Digits(value, radix));
  }

  lemma {:induction false} DigitsNoNul(value: nat, radix: nat)
    requires Radix(radix)
    ensures forall i :: 0 <= i < |Digits(value, radix)| ==> Digits(value, radix)[i] != NUL
    decreases value
  {
    if value > 0 {
      var q, d := value / radix, value % radix;
      DivMod(value, radix, q, d);
      DigitsStep(value, radix, q, d);
      DigitValue(d);
      DigitsNoNul(q, radix);
    }
  }

  /** One turn of the digit loop: the lowest digit and what is left. */
  method NextDigit(newval: nat, radix: nat) returns (q: nat, d: nat)
    requires Radix(radix) && newval > 0
    ensures d < radix && q < newval && Digits(newval, radix) == [Digit(d)] + Digits(q, radix)
  {
    d := newval % radix;
    q := newval / radix;
    DivMod(newval, radix, q, d);
    DigitsStep(newval, radix, q, d);
  }

  /** The digit loop of both, and the terminating NUL. */
  method WriteDigits(value: nat, buf: array<byte>, at: nat, radix: nat)
    requires Radix(radix) && value > 0 && at + |Digits(value, radix)| < buf.Length
    modifies buf
    ensures Holds(buf, at, Digits(value, radix))
    ensures forall k :: 0 <= k < at ==> buf[k] == old(buf[k])
  {
    var newval: nat, i: nat := value, at;
    ghost var s, done := Digits(value, radix), [];
    assert [] + s == s;
    while newval > 0
      invariant i == at + |done| && done + Digits(newval, radix) == s
      invariant forall k :: at <= k < i ==> buf[k] == done[k - at]
      invariant forall k :: 0 <= k < at ==> buf[k] == old(buf[k])
      decreases newval
    {
      var q, d := NextDigit(newval, radix);
      Regroup(done, [Digit(d)], Digits(q, radix));
      buf[i] := Digit(d);
      done := done + [Digit(d)];
      i := i + 1;
      newval := q;
    }
    assert done + [] == done;
    buf[i] := NUL;
  }

  // ---------------------------------------------------------------- %#x

  function Zeros(n: nat): (z: seq<byte>)
    ensures |z| == n && forall i :: 0 <= i < n ==> z[i] == 48
  {
    seq(n, _ => 48)
  }

  /** What `%#x` prints: the hexadecimal digits of a 32-bit value, padded with zeros to eight. */
  function PaddedHex(value: nat): seq<byte>
    requires value < 0x1_0000_0000
  {
    Zeros(if |Numeral(value, 16)| <= 8 then 8 - |Numeral(value, 16)| else 0) + Numeral(value, 16)
  }

  lemma {:induction false} DigitsShort(value: nat, n: nat, bound: nat)
    requires bound == Power16(n) && value < bound
    ensures |Digits(value, 16)| <= n
    decreases n
  {
    if value > 0 {
      DigitsStep(value, 16, value / 16, value % 16);
      DigitsShort(value / 16, n - 1, Power16(n - 1));
    }
  }

  function Power16(n: nat): nat {
    if n == 0 then 1 else 16 * Power16(n - 1)
  }

  lemma {:induction false} PadParses(n: nat, s: seq<byte>, radix: nat)
    ensures Parse(Zeros(n) + s, radix) == Parse(s, radix)
    decreases n + |s|
  {
    var z := Zeros(n);
    if s != [] {
      var init, last := s[..|s| - 1], s[|s| - 1];
      PadParses(n, init, radix);
      ParseStep(z + init, last, radix, Parse(init, radix));
      assert s == init + [last] && z + s == (z + init) + [last];
    } else if n > 0 {
      PadParses(n - 1, [], radix);
      var y := Zeros(n - 1);
      ParseStep(y, 48, radix, 0) by {
        assert y + [] == y;
      }
      assert z + [] == y + [48];
    } else {
      assert z + s == s;
    }
  }

  lemma SixteenToTheEighth()
    ensures Power16(8) == 0x1_0000_0000
  {
    assert Power16(2) == 0x100;
    assert Power16(4) == 0x1_0000;
    assert Power16(6) == 0x100_0000;
  }

  /** `%#x` always prints exactly eight hexadecimal digits, and they denote the argument. */
  lemma EightDigits(value: nat)
    requires value < 0x1_0000_0000
    ensures var s := PaddedHex(value);
            |Numeral(value, 16)| <= 8 && |s| == 8 && Parse(s, 16) == value && AllDigits(s, 16)
  {
    SixteenToTheEighth();
    DigitsShort(value, 8, 0x1_0000_0000);
    RoundTrip(value, 16);
    PadParses(8 - |Numeral(value, 16)|, Numeral(value, 16), 16);
  }

  /** The padding loop: zeros from `start` up to the digits at offset 8. */
  method FillZeros(buf: array<byte>, start: nat, ghost digits: seq<byte>, ghost padded: seq<byte>)
    requires Holds(buf, 8, digits) && |digits| == start <= 8 && padded == Zeros(8 - start) + digits
    modifies buf
    ensures Holds(buf, start, padded)
  {
    var i := start;
    while i < 8
      invariant start <= i <= 8
      invariant forall k :: start <= k < i ==> buf[k] == 48
      invariant Holds(buf, 8, digits)
    {
      buf[i] := 48;
      i := i + 1;
    }
    forall k | start <= k < start + 8
      ensures buf[k] == padded[k - start]
    {
      assert k >= 8 ==> padded[k - start] == digits[k - 8];
    }
  }

  /** puts of the string at `at` */
  method PutString(buf: array<byte>, at: nat, ghost s: seq<byte>) returns (out: seq<byte>)
    requires Holds(buf, at, s) && forall i :: 0 <= i < |s| ==> s[i] != NUL
    ensures out == s
  {
    var len := Length(buf, at, s);
    out := buf[at..at + len];
  }

  /** The `%#x` branch of printf: convert at offset 8, fill zeros below, print from where they start. */
  method PrintPaddedHex(value: nat) returns (out: seq<byte>)
    requires value < 0x1_0000_0000
    ensures out == PaddedHex(value)
  {
    var convBuf := new byte[64];
    ghost var digits, padded := Numeral(value, 16), PaddedHex(value);
    EightDigits(value);
    RoundTrip(value, 16);
    Itoa(value, convBuf, 8, 16);
    var start := Length(convBuf, 8, digits);
    FillZeros(convBuf, start, digits, padded);
    out := PutString(convBuf, start, padded);
  }
}
