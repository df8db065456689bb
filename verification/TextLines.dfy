/** Text files as rows and as lines. */
module TextLines {
  import opened CStrings

  /** The first newline at or after `at`, or the end of the file. */
  function EndOf(f: seq<byte>, at: nat): (e: nat)
    requires at <= |f|
    ensures at <= e <= |f|
    ensures forall k :: at <= k < e ==> f[k] != NEWLINE
    ensures e < |f| ==> f[e] == NEWLINE
    decreases |f| - at
  {
    if at == |f| || f[at] == NEWLINE then at else EndOf(f, at + 1)
  }

  lemma {:induction false} EndAtLeast(f: seq<byte>, at: nat, end: nat)
    requires at <= end <= |f| && forall k :: at <= k < end ==> f[k] != NEWLINE
    ensures end <= EndOf(f, at)
    ensures end == |f| || f[end] == NEWLINE ==> end == EndOf(f, at)
    decreases end - at
  {
    if at < end {
      EndAtLeast(f, at + 1, end);
    }
  }

  /** The pieces between the newlines from `at` on, the last one possibly empty. */
  function Rows(f: seq<byte>, at: nat): (r: seq<seq<byte>>)
    requires at <= |f|
    ensures |r| > 0
    decreases |f| - at
  {
    var e := EndOf(f, at);
    [f[at..e]] + if e < |f| then Rows(f, e + 1) else []
  }

  /** The lines from `at` on: each ends at its newline, the last one possibly at the end of the file. */
  function Lines(f: seq<byte>, at: nat): seq<seq<byte>>
    decreases |f| - at
  {
    if at >= |f| then [] else [f[at..EndOf(f, at)]] + Lines(f, EndOf(f, at) + 1)
  }

  lemma RowsStep(f: seq<byte>, at: nat, row: seq<byte>, after: seq<seq<byte>>)
    requires at <= |f| && row == f[at..EndOf(f, at)]
    requires after == if EndOf(f, at) < |f| then Rows(f, EndOf(f, at) + 1) else []
    ensures Rows(f, at) == [row] + after
  {
  }

  lemma LinesStep(f: seq<byte>, at: nat, line: seq<byte>, after: seq<seq<byte>>)
    requires at < |f| && line == f[at..EndOf(f, at)] && after == Lines(f, EndOf(f, at) + 1)
    ensures Lines(f, at) == [line] + after
  {
  }

  function Joined(rows: seq<seq<byte>>): seq<byte> {
    if |rows| == 0 then []
    else if |rows| == 1 then rows[0]
    else rows[0] + [NEWLINE] + Joined(rows[1..])
  }

  lemma JoinedStep(row: seq<byte>, after: seq<seq<byte>>, tail: seq<byte>)
    requires tail == Joined(after)
    ensures Joined([row] + after) == if after == [] then row else row + [NEWLINE] + tail
  {
    assert ([row] + after)[1..] == after;
  }

  lemma CutAtNewline(f: seq<byte>, at: nat, e: nat)
    requires at <= e < |f| && f[e] == NEWLINE
    ensures f[at..] == f[at..e] + [NEWLINE] + f[e + 1..]
  {
  }

  /** Splitting loses nothing: the rows, joined by newlines, are the text again. */
  lemma {:induction false} RowsJoin(f: seq<byte>, at: nat, rows: seq<seq<byte>>)
    requires at <= |f| && rows == Rows(f, at)
    ensures Joined(rows) == f[at..]
    decreases |f| - at
  {
    var e := EndOf(f, at);
    var row, after := f[at..e], if e < |f| then Rows(f, e + 1) else [];
    assert rows == [row] + after by {
      RowsStep(f, at, row, after);
    }
    if e < |f| {
      RowsJoin(f, e + 1, after);
      JoinedStep(row, after, f[e + 1..]);
      CutAtNewline(f, at, e);
    } else {
      JoinedStep(row, [], []);
    }
  }

  lemma NoNewline(f: seq<byte>, at: nat, row: seq<byte>)
    requires at <= |f| && row == f[at..EndOf(f, at)]
    ensures NEWLINE !in row
  {
  }

  /** No row has a newline in it. */
  lemma {:induction false} RowsPlain(f: seq<byte>, at: nat, rows: seq<seq<byte>>, r: nat)
    requires at <= |f| && rows == Rows(f, at) && r < |rows|
    ensures NEWLINE !in rows[r]
    decreases |f| - at
  {
    var e := EndOf(f, at);
    var row, after := f[at..e], if e < |f| then Rows(f, e + 1) else [];
    assert rows == [row] + after by {
      RowsStep(f, at, row, after);
    }
    if r == 0 {
      NoNewline(f, at, row);
    } else {
      assert rows[r] == after[r - 1];
      RowsPlain(f, e + 1, after, r - 1);
    }
  }

  function DropEmptyLast(rows: seq<seq<byte>>): seq<seq<byte>> {
    if |rows| > 0 && rows[|rows| - 1] == [] then rows[..|rows| - 1] else rows
  }

  lemma DropStep(row: seq<byte>, after: seq<seq<byte>>)
    requires after != []
    ensures DropEmptyLast([row] + after) == [row] + DropEmptyLast(after)
  {
  }

  /** Lines are rows, except that a newline at the end does not start another one. */
  lemma {:induction false} LinesAreRows(f: seq<byte>, at: nat)
    requires at <= |f|
    ensures Lines(f, at) == DropEmptyLast(Rows(f, at))
    decreases |f| - at
  {
    var e := EndOf(f, at);
    var row, after := f[at..e], if e < |f| then Rows(f, e + 1) else [];
    RowsStep(f, at, row, after);
    if at < |f| {
      var lines := Lines(f, e + 1);
      LinesStep(f, at, row, lines);
      if e < |f| {
        LinesAreRows(f, e + 1);
        DropStep(row, after);
      }
    }
  }
}
