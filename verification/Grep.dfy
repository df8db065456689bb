/** grep's line search through a fixed buffer, against splitting the file into lines. */
module Grep {
  import opened CStrings
  import opened TextLines

  const BUFSIZE := 1024
  const COLON: byte := 58

  // ---------------------------------------------------------------- the reference

  predicate OccursAt(s: seq<byte>, line: seq<byte>, i: nat) {
    i + |s| <= |line| && line[i..i + |s|] == s
  }

  predicate Contains(s: seq<byte>, line: seq<byte>) {
    exists i :: 0 <= i <= |line| && OccursAt(s, line, i)
  }

  /**
   * What the code takes for a match. An empty pattern never matches, nor does one whose first byte is
   * above 127, which the code compares as a signed character.
   */
  predicate Matches(s: seq<byte>, line: seq<byte>) {
    s != [] && s[0] < 128 && Contains(s, line)
  }

  function Filter(s: seq<byte>, lines: seq<seq<byte>>): seq<seq<byte>> {
    if lines == [] then []
    else (if Matches(s, lines[0]) then [lines[0]] else []) + Filter(s, lines[1..])
  }

  function Render(fname: seq<byte>, lines: seq<seq<byte>>): seq<byte> {
    if lines == [] then [] else fname + [COLON] + lines[0] + [NEWLINE] + Render(fname, lines[1..])
  }

  /** Split into lines, keep the matching ones, print them in order. */
  function Output(s: seq<byte>, fname: seq<byte>, f: seq<byte>): seq<byte> {
    Render(fname, Filter(s, Lines(f, 0)))
  }

  function Report(s: seq<byte>, fname: seq<byte>, line: seq<byte>): seq<byte> {
    if Matches(s, line) then fname + [COLON] + line + [NEWLINE] else []
  }

  /** Every line has at most 1023 characters. */
  predicate ShortLines(f: seq<byte>) {
    ShortFrom(f, 0)
  }

  predicate ShortFrom(f: seq<byte>, at: nat) {
    forall i :: 0 <= i < |Lines(f, at)| ==> |Lines(f, at)[i]| < BUFSIZE
  }

  // ---------------------------------------------------------------- when a match is containment

  lemma OccursSplits(s: seq<byte>, line: seq<byte>, i: nat)
    requires OccursAt(s, line, i)
    ensures line == line[..i] + s + line[i + |s|..]
  {
  }

  lemma SplitOccurs(s: seq<byte>, before: seq<byte>, after: seq<byte>)
    ensures OccursAt(s, before + s + after, |before|)
  {
  }

  /** A line contains the pattern when it is some text, the pattern, and some text. */
  lemma ContainsIs(s: seq<byte>, line: seq<byte>)
    ensures Contains(s, line) <==> exists before, after :: line == before + s + after
  {
    if Contains(s, line) {
      var i :| 0 <= i <= |line| && OccursAt(s, line, i);
      OccursSplits(s, line, i);
    }
    forall before, after | line == before + s + after
      ensures Contains(s, line)
    {
      SplitOccurs(s, before, after);
      assert |before| <= |line|;
    }
  }

  /** How a line is printed: the file's name, a colon, the line and a newline. */
  lemma PrintedAs(fname: seq<byte>, line: seq<byte>)
    ensures Render(fname, [line]) == fname + [58] + line + [10]
  {
    assert [line][1..] == [];
    assert Render(fname, []) == [];
  }

  function Containing(s: seq<byte>, lines: seq<seq<byte>>): seq<seq<byte>> {
    if lines == [] then []
    else (if Contains(s, lines[0]) then [lines[0]] else []) + Containing(s, lines[1..])
  }

  /** What grep is for: the lines that contain the pattern, once each and in order. */
  function Wanted(s: seq<byte>, fname: seq<byte>, f: seq<byte>): seq<byte> {
    Render(fname, Containing(s, Lines(f, 0)))
  }

  /** The files the search is promised for. */
  predicate Searchable(f: seq<byte>) {
    NUL !in f && ShortLines(f)
  }

  /** No line of a searchable file can contain the pattern. */
  predicate TooMuch(s: seq<byte>) {
    NEWLINE in s || |s| >= BUFSIZE
  }

  lemma {:induction false} SameFilter(s: seq<byte>, lines: seq<seq<byte>>)
    requires forall i :: 0 <= i < |lines| ==> (Matches(s, lines[i]) <==> Contains(s, lines[i]))
    ensures Filter(s, lines) == Containing(s, lines)
  {
    if lines != [] {
      SameFilter(s, lines[1..]);
    }
  }

  lemma {:induction false} LinesWithoutNewline(f: seq<byte>, at: nat, i: nat)
    requires i < |Lines(f, at)|
    ensures NEWLINE !in Lines(f, at)[i]
    decreases |f| - at
  {
    LinesStep(f, at, f[at..EndOf(f, at)], Lines(f, EndOf(f, at) + 1));
    if i > 0 {
      LinesWithoutNewline(f, EndOf(f, at) + 1, i - 1);
    }
  }

  lemma TooMuchForALine(s: seq<byte>, line: seq<byte>)
    requires TooMuch(s) && NEWLINE !in line && |line| < BUFSIZE
    ensures !Contains(s, line)
  {
  }

  lemma PatternGood(s: seq<byte>, fname: seq<byte>, f: seq<byte>)
    requires Searchable(f) && s != [] && (s[0] < 128 || TooMuch(s))
    ensures Output(s, fname, f) == Wanted(s, fname, f)
  {
    var lines := Lines(f, 0);
    forall i | 0 <= i < |lines|
      ensures Matches(s, lines[i]) <==> Contains(s, lines[i])
    {
      if s[0] >= 128 {
        LinesWithoutNewline(f, 0, i);
        TooMuchForALine(s, lines[i]);
      }
    }
    SameFilter(s, lines);
  }

  /** A file of the one line `f`. */
  lemma OneLine(s: seq<byte>, fname: seq<byte>, f: seq<byte>)
    requires f != [] && NEWLINE !in f && |f| < BUFSIZE && Contains(s, f) && !Matches(s, f)
    ensures ShortLines(f) && Output(s, fname, f) == [] && Wanted(s, fname, f) != []
  {
    EndAtLeast(f, 0, |f|);
    LinesStep(f, 0, f, []);
    assert [f] + [] == [f] && [f][1..] == [];
    assert Filter(s, [f]) == Filter(s, []) && Containing(s, [f]) == [f] + Containing(s, []);
    assert Render(fname, [f]) == fname + [COLON] + f + [NEWLINE] + Render(fname, []);
  }

  /** A file that shows a bad pattern up: any line for the empty pattern, the pattern itself otherwise. */
  function Witness(s: seq<byte>): seq<byte> {
    if s == [] then [97] else s
  }

  lemma PatternBad(s: seq<byte>, fname: seq<byte>)
    requires NUL !in s && (s == [] || s[0] >= 128) && !TooMuch(s)
    ensures var f := Witness(s); Searchable(f) && Output(s, fname, f) == [] && Wanted(s, fname, f) != []
  {
    var f := Witness(s);
    assert OccursAt(s, f, 0);
    OneLine(s, fname, f);
  }

  ghost predicate AlwaysWanted(s: seq<byte>, fname: seq<byte>) {
    forall f :: Searchable(f) ==> Output(s, fname, f) == Wanted(s, fname, f)
  }

  /**
   * The code prints the lines that contain the pattern, in every searchable file, if and only if the
   * pattern is not empty and its first byte is below 128 or no line could contain it anyway.
   */
  lemma PatternExact(s: seq<byte>, fname: seq<byte>)
    requires NUL !in s
    ensures AlwaysWanted(s, fname) <==> s != [] && (s[0] < 128 || TooMuch(s))
  {
    if s != [] && (s[0] < 128 || TooMuch(s)) {
      forall f | Searchable(f)
        ensures Output(s, fname, f) == Wanted(s, fname, f)
      {
        PatternGood(s, fname, f);
      }
    } else {
      PatternBad(s, fname);
    }
  }

  // ---------------------------------------------------------------- line by line

  lemma RenderStep(s: seq<byte>, fname: seq<byte>, line: seq<byte>, lines: seq<seq<byte>>)
    ensures Render(fname, Filter(s, [line] + lines)) == Report(s, fname, line) + Render(fname, Filter(s, lines))
  {
    var kept := Filter(s, lines);
    assert ([line] + lines)[1..] == lines;
    if Matches(s, line) {
      assert Filter(s, [line] + lines) == [line] + kept;
      assert ([line] + kept)[1..] == kept;
    } else {
      assert Filter(s, [line] + lines) == kept;
    }
  }

  /** What remains to be printed when everything before `at` has been dealt with. */
  function Left(s: seq<byte>, fname: seq<byte>, f: seq<byte>, at: nat): seq<byte> {
    Render(fname, Filter(s, Lines(f, at)))
  }

  /** The expected output from `at` on is that of the line there, followed by that of the rest. */
  lemma LeftStep(s: seq<byte>, fname: seq<byte>, f: seq<byte>, at: nat, line: seq<byte>, next: nat)
    requires at < |f| && line == f[at..EndOf(f, at)] && next == EndOf(f, at) + 1
    ensures Left(s, fname, f, at) == Report(s, fname, line) + Left(s, fname, f, next)
  {
    LinesStep(f, at, line, Lines(f, next));
    RenderStep(s, fname, line, Lines(f, next));
  }

  lemma ShortStep(f: seq<byte>, at: nat, e: nat)
    requires at < |f| && ShortFrom(f, at) && e == EndOf(f, at)
    ensures e - at < BUFSIZE && ShortFrom(f, e + 1)
  {
    var after := Lines(f, e + 1);
    LinesStep(f, at, f[at..e], after);
    assert |Lines(f, at)[0]| == e - at;
    assert forall i :: 0 <= i < |after| ==> after[i] == Lines(f, at)[i + 1];
  }

  // ---------------------------------------------------------------- one line

  /** The test at one position: the first characters agree, and strncmp over the pattern's length. */
  method TestAt(data: array<byte>, start: nat, check: nat, end: nat, s: seq<byte>, ghost line: seq<byte>)
    returns (b: bool)
    requires start <= check < end < data.Length && data[end] == NUL && NUL !in line && NUL !in s
    requires line == data[start..end]
    ensures b <==> s != [] && s[0] < 128 && OccursAt(s, line, check - start)
  {
    var pat := s + [NUL];
    assert pat[|s|] == NUL && pat[..|s|] == s;
    TextIsPrefix(pat, |s|);
    assert data[check..end] == line[check - start..];
    TailText(data[..], check, end);
    OccursIsPrefix(s, line, check - start);
    // s points to signed characters, data to unsigned ones
    if pat[0] >= 128 || pat[0] != data[check] {
      return false;
    }
    var cmp := UserStrNCmp(data[check..], pat, |s|);
    return cmp == 0;
  }

  /** fdputs of the file name, a colon, the string at data + start, and a newline */
  method PutLine(data: array<byte>, start: nat, end: nat, fname: seq<byte>) returns (out: seq<byte>)
    requires start <= end < data.Length && data[end] == NUL && NUL !in data[start..end]
    ensures out == fname + [COLON] + data[start..end] + [NEWLINE]
  {
    TailText(data[..], start, end);
    var len := StrLen(data[start..]);
    return fname + [COLON] + data[start..start + len] + [NEWLINE];
  }

  /** The search of the line data[start..end], whose end has been overwritten with a NUL. */
  method SearchLine(data: array<byte>, start: nat, end: nat, s: seq<byte>, fname: seq<byte>) returns (out: seq<byte>)
    requires start <= end < data.Length && data[end] == NUL && NUL !in data[start..end] && NUL !in s
    ensures out == Report(s, fname, data[start..end])
  {
    ghost var line := data[start..end];
    var check := start;
    while check < end
      invariant start <= check <= end
      invariant s != [] && s[0] < 128 ==> forall i :: 0 <= i < check - start ==> !OccursAt(s, line, i)
    {
      var found := TestAt(data, start, check, end, s, line);
      if found {
        out := PutLine(data, start, end, fname);
        return;
      }
      check := check + 1;
    }
    return [];
  }

  lemma OccursIsPrefix(s: seq<byte>, line: seq<byte>, i: nat)
    requires i <= |line|
    ensures s <= line[i..] <==> OccursAt(s, line, i)
  {
    assert i + |s| <= |line| ==> line[i..][..|s|] == line[i..i + |s|];
  }

  lemma TailText(d: seq<byte>, check: nat, end: nat)
    requires check <= end < |d| && d[end] == NUL && NUL !in d[check..end]
    ensures NUL in d[check..] && Text(d[check..]) == d[check..end]
  {
    assert d[check..][end - check] == NUL && d[check..][..end - check] == d[check..end];
    TextIsPrefix(d[check..], end - check);
  }

  // ---------------------------------------------------------------- the buffer

  /** ece391_strcpy (data, data + from): an overlapping copy towards the front, up to the NUL at `end`. */
  method CopyDown(data: array<byte>, from: nat, end: nat)
    requires 0 < from <= end < data.Length && data[end] == NUL
    requires forall k :: from <= k < end ==> data[k] != NUL
    modifies data
    ensures forall k :: 0 <= k < end - from ==> data[k] == old(data[from + k])
    ensures forall k :: end - from < k < data.Length ==> data[k] == old(data[k])
  {
    var i := 0;
    while true
      invariant 0 <= i <= end - from
      invariant forall k :: 0 <= k < i ==> data[k] == old(data[from + k])
      invariant forall k :: i <= k < data.Length ==> data[k] == old(data[k])
      decreases end - from - i
    {
      data[i] := data[from + i];
      if data[i] == NUL {
        return;
      }
      i := i + 1;
    }
  }

  /** Positions `start` to `last` of the buffer hold the file `f` from `q + start` on. */
  ghost predicate Holds(data: array<byte>, start: nat, last: nat, f: seq<byte>, q: nat)
    reads data
  {
    && data.Length == BUFSIZE + 1 && start <= last <= BUFSIZE && q + last <= |f| && data[BUFSIZE] != NEWLINE
    && forall k :: start <= k < last ==> data[k] == f[q + k]
  }

  /** The file up to `at`, a whole number of lines, has been dealt with, as `out` records. */
  ghost predicate Done(s: seq<byte>, fname: seq<byte>, f: seq<byte>, at: nat, out: seq<byte>) {
    at <= |f| && ShortFrom(f, at) && out + Left(s, fname, f, at) == Left(s, fname, f, 0)
  }

  /** Where the line after the one ending at `end` starts. */
  function After(f: seq<byte>, end: nat): nat {
    if end < |f| then end + 1 else end
  }

  /** Reporting the whole line from `at` to `end` deals with it and its newline. */
  lemma LineDone(s: seq<byte>, fname: seq<byte>, f: seq<byte>, at: nat, end: nat, out: seq<byte>)
    requires Done(s, fname, f, at, out) && at <= end <= |f| && end == EndOf(f, at)
    ensures Done(s, fname, f, After(f, end), out + Report(s, fname, f[at..end]))
  {
    var line, rest := Report(s, fname, f[at..end]), Left(s, fname, f, After(f, end));
    LeftAfter(s, fname, f, at, end);
    Regroup(out, line, rest);
    if at < |f| {
      ShortStep(f, at, end);
    }
  }

  lemma LeftAfter(s: seq<byte>, fname: seq<byte>, f: seq<byte>, at: nat, end: nat)
    requires at <= |f| && end == EndOf(f, at)
    ensures Left(s, fname, f, at) == Report(s, fname, f[at..end]) + Left(s, fname, f, After(f, end))
  {
    if at < |f| {
      LeftStep(s, fname, f, at, f[at..end], end + 1);
    }
  }

  /** A line, or what is in the buffer of it, is never as long as the buffer. */
  lemma LineFits(f: seq<byte>, at: nat, end: nat)
    requires at <= end <= |f| && end <= EndOf(f, at) && ShortFrom(f, at)
    ensures end - at < BUFSIZE
  {
    if at < |f| {
      ShortStep(f, at, EndOf(f, at));
    }
  }

  /** read, which is short only at the end of the file */
  method FillBuffer(data: array<byte>, last: nat, f: seq<byte>, pos: nat, ghost q: nat) returns (cnt: nat)
    requires q + last == pos && last < BUFSIZE && Holds(data, 0, last, f, q)
    modifies data
    ensures Holds(data, 0, last + cnt, f, q)
    ensures cnt == 0 || last + cnt < BUFSIZE ==> pos + cnt == |f|
  {
    cnt := if |f| - pos < BUFSIZE - last then |f| - pos else BUFSIZE - last;
    forall k | 0 <= k < cnt { data[last + k] := f[pos + k]; }
    forall k | 0 <= k < last + cnt
      ensures data[k] == f[q + k]
    {
      assert k >= last ==> data[last + (k - last)] == f[pos + (k - last)];
    }
  }

  /** The end of the line starting at `start`: the first newline before `last`, or `last`. */
  method FindEnd(data: array<byte>, start: nat, last: nat, ghost f: seq<byte>, ghost q: nat) returns (end: nat)
    requires Holds(data, start, last, f, q)
    ensures start <= end <= last && q + end <= EndOf(f, q + start)
    ensures end < last || q + end == |f| ==> q + end == EndOf(f, q + start)
    ensures end < last ==> data[end] == NEWLINE
  {
    end := start;
    while end < last && data[end] != NEWLINE
      invariant start <= end <= last
      invariant forall k :: start <= k < end ==> data[k] != NEWLINE
    {
      end := end + 1;
    }
    forall k | q + start <= k < q + end
      ensures f[k] != NEWLINE
    {
      assert data[k - q] == f[q + (k - q)];
    }
    EndAtLeast(f, q + start, q + end);
  }

  /** One line searched and reported; its newline gives way to a NUL. */
  method TakeLine(data: array<byte>, start: nat, end: nat, last: nat, s: seq<byte>, fname: seq<byte>,
                  before: seq<byte>, ghost f: seq<byte>, ghost q: nat, ghost at: nat, ghost to: nat)
    returns (out: seq<byte>)
    requires Holds(data, start, last, f, q) && start <= end <= last && NUL !in s && NUL !in f
    requires at == q + start && to == q + end
    modifies data
    ensures forall k :: 0 <= k < data.Length && k != end ==> data[k] == old(data[k])
    ensures data[end] == NUL
    ensures out == before + Report(s, fname, f[at..to])
  {
    assert f[at..to] == data[start..end];
    data[end] := NUL;
    assert f[at..to] == data[start..end];
    var found := SearchLine(data, start, end, s, fname);
    return before + found;
  }

  /** The unfinished line moves to the front of the buffer. */
  method Carry(data: array<byte>, start: nat, end: nat, ghost f: seq<byte>, ghost q: nat)
    requires Holds(data, start, end, f, q) && start > 0 && NUL !in f
    modifies data
    ensures Holds(data, 0, end - start, f, q + start)
  {
    data[end] := NUL;
    CopyDown(data, start, end);
  }

  /**
   * One turn of the inner loop: the line at `start`, position `at` of the file, is carried over,
   * leaving `rest` bytes in the buffer, or searched; `next` is what follows it.
   */
  method ScanLine(data: array<byte>, start: nat, last: nat, cnt: nat, s: seq<byte>, fname: seq<byte>,
                  before: seq<byte>, ghost f: seq<byte>, ghost q: nat, ghost at: nat)
    returns (next: nat, rest: nat, out: seq<byte>, ghost now: nat)
    requires Holds(data, start, last, f, q) && NUL !in s && NUL !in f
    requires at == q + start && Done(s, fname, f, at, before)
    requires cnt == 0 || last < BUFSIZE ==> q + last == |f|
    modifies data
    ensures start < next && Done(s, fname, f, now, out)
    ensures next < last ==> now == q + next && Holds(data, next, last, f, q)
    ensures next >= last ==> now == q + last - rest && rest <= last && rest < BUFSIZE && Holds(data, 0, rest, f, now)
    ensures next >= last && cnt == 0 ==> rest == 0
  {
    var end := FindEnd(data, start, last, f, q);
    LineFits(f, at, q + end);
    if data[end] != NEWLINE && cnt != 0 && start != 0 {
      Carry(data, start, end, f, q);
      return last + 1, last - start, before, at;
    }
    assert end == last ==> q + last == |f|;
    ghost var to := q + end;
    now := After(f, to);
    LineDone(s, fname, f, at, to, before);
    out := TakeLine(data, start, end, last, s, fname, before, f, q, at, to);
    next, rest := end + 1, 0;
  }

  /**
   * One filling of the buffer, which starts at `q` in the file; on return its first `rest` bytes
   * are an unfinished line, at position `now`, and everything before that has been searched.
   */
  method ScanBuffer(data: array<byte>, last: nat, cnt: nat, s: seq<byte>, fname: seq<byte>,
                    before: seq<byte>, ghost f: seq<byte>, ghost q: nat)
    returns (rest: nat, out: seq<byte>, ghost now: nat)
    requires Holds(data, 0, last, f, q) && NUL !in s && NUL !in f && Done(s, fname, f, q, before)
    requires cnt == 0 || last < BUFSIZE ==> q + last == |f|
    modifies data
    ensures Done(s, fname, f, now, out)
    ensures now == q + last - rest && rest <= last && rest < BUFSIZE && Holds(data, 0, rest, f, now)
    ensures cnt == 0 ==> rest == 0
  {
    out := before;
    now := q;
    var start := 0;
    while true
      invariant Holds(data, start, last, f, q) && now == q + start && Done(s, fname, f, now, out)
      decreases last - start
    {
      start, rest, out, now := ScanLine(data, start, last, cnt, s, fname, out, f, q, now);
      if start >= last {
        return;
      }
    }
  }

  /**
   * What do_one_file finds when it opens the file: its bytes, how many reads succeed before one fails,
   * and whether close succeeds.
   */
  datatype Disk = Absent | Present(bytes: seq<byte>, good: nat, closes: bool)

  const OPEN_FAILED: seq<byte> := [102, 105, 108, 101, 32, 111, 112, 101, 110, 32, 102, 97, 105, 108, 101, 100, 10]
  const READ_FAILED: seq<byte> := [102, 105, 108, 101, 32, 114, 101, 97, 100, 32, 102, 97, 105, 108, 101, 100, 10]
  const CLOSE_FAILED: seq<byte> := [102, 105, 108, 101, 32, 99, 108, 111, 115, 101, 32, 102, 97, 105, 108, 101, 100, 10]

  lemma DonePrefix(s: seq<byte>, fname: seq<byte>, f: seq<byte>, at: nat, out: seq<byte>)
    requires Done(s, fname, f, at, out)
    ensures out <= Output(s, fname, f) && (at == |f| ==> out == Output(s, fname, f))
  {
    if at == |f| {
      assert out + [] == out;
    }
  }

  /** The reading loop of do_one_file; the read after `good` successful ones fails. */
  method GrepFile(s: seq<byte>, fname: seq<byte>, f: seq<byte>, good: nat, data: array<byte>)
    returns (ok: bool, out: seq<byte>)
    requires data.Length == BUFSIZE + 1 && data[BUFSIZE] != NEWLINE
    requires NUL !in s && Searchable(f)
    modifies data
    ensures if ok then out == Output(s, fname, f) else out <= Output(s, fname, f)
    ensures good > |f| ==> ok
  {
    var last, pos, cnt, count := 0, 0, 0, 0;
    out := [];
    ghost var at := 0;
    while true
      invariant 0 <= last < BUFSIZE && last <= pos && at == pos - last && count <= pos
      invariant Holds(data, 0, last, f, at) && Done(s, fname, f, at, out)
      decreases |f| - pos
    {
      if count == good {
        DonePrefix(s, fname, f, at, out);
        return false, out;
      }
      count := count + 1;
      cnt := FillBuffer(data, last, f, pos, at);
      pos := pos + cnt;
      last := last + cnt;
      last, out, at := ScanBuffer(data, last, cnt, s, fname, out, f, at);
      if cnt == 0 {
        DonePrefix(s, fname, f, at, out);
        return true, out;
      }
    }
  }

  /**
   * do_one_file: whatever the stack buffer `data` holds, as long as its last byte is not a newline,
   * exactly the matching lines are printed, once each and in order, or the first of them when a read
   * fails; |bytes| + 1 reads are always enough.
   */
  method DoOneFile(s: seq<byte>, fname: seq<byte>, disk: Disk, data: array<byte>) returns (r: int, out: seq<byte>)
    requires data.Length == BUFSIZE + 1 && data[BUFSIZE] != NEWLINE
    requires NUL !in s && (disk.Present? ==> Searchable(disk.bytes))
    modifies data
    ensures disk.Absent? ==> r == -1 && out == OPEN_FAILED
    ensures disk.Present? && disk.good > |disk.bytes| ==>
      var matched := Output(s, fname, disk.bytes);
      if disk.closes then r == 0 && out == matched else r == -1 && out == matched + CLOSE_FAILED
    ensures disk.Present? ==>
      var matched := Output(s, fname, disk.bytes);
      || (r == 0 && out == matched)
      || (r == -1 && out == matched + CLOSE_FAILED)
      || (r == -1 && exists printed :: printed <= matched && out == printed + READ_FAILED)
  {
    if disk.Absent? {
      return -1, OPEN_FAILED;
    }
    var ok;
    ok, out := GrepFile(s, fname, disk.bytes, disk.good, data);
    if !ok {
      return -1, out + READ_FAILED;
    }
    if !disk.closes {
      return -1, out + CLOSE_FAILED;
    }
    return 0, out;
  }
}
