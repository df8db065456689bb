/** A process's file descriptors: open, close, and reads that advance a position. */
module Descriptors {
  import opened CStrings
  import opened FileSystem
  import opened Directory
  import opened StoredNames

  const FLAGS := 6
  const NOT_SET := 0
  const STDIN_FLAG := 1
  const STDOUT_FLAG := 2
  const RTC_FLAG := 3
  const FILE_FLAG := 4
  const DIR_FLAG := 5
  const WORD := 0x1_0000_0000

  const STDIN_NAME: seq<byte> := [115, 116, 100, 105, 110]
  const STDOUT_NAME: seq<byte> := [115, 116, 100, 111, 117, 116]

  /** fds_t */
  datatype Fd = Fd(flags: nat, inode: nat, position: nat)

  /** The part of a PCB that open, close and read use: FDs_array, file_name and the byte behind it. */
  datatype Pcb = Pcb(fds: seq<Fd>, names: seq<byte>)

  predicate Ok(p: Pcb) {
    |p.fds| == FDS && |p.names| == NAMES + 1 && forall i :: 0 <= i < FDS ==> p.fds[i].flags < FLAGS
  }

  /** A call's return value and the descriptors after it. */
  datatype Result = Result(value: int, pcb: Pcb)

  // ---------------------------------------------------------------- the calls

  /** The lowest free descriptor from `i` on, or FDS. */
  function LowestFree(fds: seq<Fd>, i: nat): (r: nat)
    requires |fds| == FDS && i <= FDS
    ensures i <= r <= FDS
    ensures forall k :: i <= k < r ==> fds[k].flags != NOT_SET
    ensures r < FDS ==> fds[r].flags == NOT_SET
    decreases FDS - i
  {
    if i == FDS || fds[i].flags == NOT_SET then i else LowestFree(fds, i + 1)
  }

  /** What opening `f` makes of the free descriptor `i`; an RTC keeps the old inode and stored name. */
  function Opened(p: Pcb, i: nat, f: Found): (r: Pcb)
    requires Ok(p) && i < FDS && f.Found? && |f.name| <= MAX_NAME && f.fileType <= 2
    ensures Ok(r)
  {
    if f.fileType == 0 then p.(fds := p.fds[i := p.fds[i].(flags := RTC_FLAG, position := 0)])
    else Pcb(p.fds[i := Fd(if f.fileType == 1 then DIR_FLAG else FILE_FLAG, f.inode, 0)], Store(p.names, i, f.name))
  }

  function OpenFound(p: Pcb, f: Found): (r: Result)
    requires Ok(p) && (f.Found? ==> |f.name| <= MAX_NAME)
    ensures Ok(r.pcb)
  {
    var i := LowestFree(p.fds, 2);
    if f.Missing? || i == FDS then Result(-1, p)
    else if f.fileType > 2 then Result(0, p)
    else Result(i, Opened(p, i, f))
  }

  function Flagged(p: Pcb, i: nat, flags: nat): (r: Pcb)
    requires Ok(p) && i < FDS && flags < FLAGS
    ensures Ok(r)
  {
    p.(fds := p.fds[i := p.fds[i].(flags := flags)])
  }

  /** open */
  function Open(img: Image, p: Pcb, name: seq<byte>): (r: Result)
    requires WellFormed(img) && Ok(p)
    ensures Ok(r.pcb)
  {
    if STDIN_NAME <= name then Result(0, Flagged(p, STDIN_FLAG, STDIN_FLAG))
    else if STDOUT_NAME <= name then Result(0, Flagged(p, STDOUT_FLAG, STDOUT_FLAG))
    else OpenFound(p, ByName(img, name))
  }

  /** close */
  function Close(p: Pcb, fd: int): (r: Result)
    requires Ok(p)
    ensures Ok(r.pcb)
  {
    if fd < 2 || fd >= FDS || p.fds[fd].flags == NOT_SET then Result(-1, p)
    else Result(0, p.(fds := p.fds[fd := Fd(NOT_SET, 0, 0)]))
  }

  /** The routines of fops_table. */
  datatype Routine = Invalid | KeyboardIo | TerminalIo | RtcIo | FileIo | DirIo

  function ReadRoutine(flags: nat): Routine
    requires flags < FLAGS
  {
    [Invalid, KeyboardIo, TerminalIo, RtcIo, FileIo, DirIo][flags]
  }

  function WriteRoutine(flags: nat): Routine
    requires flags < FLAGS
  {
    [Invalid, KeyboardIo, TerminalIo, RtcIo, Invalid, Invalid][flags]
  }

  /** Descriptor `fd` with `n` added to its 32-bit position. */
  function Moved(p: Pcb, fd: nat, n: int): (r: Pcb)
    requires Ok(p) && fd < FDS
    ensures Ok(r) && r.names == p.names && forall k :: 0 <= k < FDS && k != fd ==> r.fds[k] == p.fds[k]
    ensures r.fds[fd] == p.fds[fd].(position := (p.fds[fd].position + n) % WORD)
  {
    p.(fds := p.fds[fd := p.fds[fd].(position := (p.fds[fd].position + n) % WORD)])
  }

  /** file_read_setup: look the stored name up again, read, and add the result to the position. */
  function FileRead(img: Image, p: Pcb, fd: nat, nbytes: nat): (r: (ReadResult, Pcb))
    requires WellFormed(img) && Ok(p) && fd < FDS
    ensures Ok(r.1)
  {
    var f := Lookup(img, p.names, fd);
    var r := if f.Found? then ReadData(img, f.inode, p.fds[fd].position, nbytes) else ReadResult(-1, []);
    (r, Moved(p, fd, r.value))
  }

  /** What the routines of the devices make of a call. */
  datatype Devices = Devices(keyboard: ReadResult, terminal: ReadResult, rtc: ReadResult, dir: ReadResult)

  /** The arguments of read and write, and what each device would answer. */
  datatype Args = Args(fd: int, isNull: bool, nbytes: int, devices: Devices)

  predicate Refused(a: Args) {
    a.nbytes < 0 || a.isNull || a.fd > FDS - 1 || a.fd < 0
  }

  /** read */
  function Read(img: Image, p: Pcb, a: Args): (r: (ReadResult, Pcb))
    requires WellFormed(img) && Ok(p)
    ensures Ok(r.1)
    ensures a.fd >= 2 && a.fd !in Taken(p) ==> r == (ReadResult(-1, []), p)
  {
    if Refused(a) then (ReadResult(-1, []), p)
    else
      match ReadRoutine(p.fds[a.fd].flags)
      case Invalid => (ReadResult(-1, []), p)
      case FileIo => FileRead(img, p, a.fd, a.nbytes)
      case KeyboardIo => (a.devices.keyboard, p)
      case TerminalIo => (ReadResult(-1, []), p)
      case RtcIo => (a.devices.rtc, p)
      case DirIo => (a.devices.dir, p)
  }

  /** write's result; free descriptors, files and directories have no routine for it. */
  function Write(p: Pcb, a: Args): (r: int)
    requires Ok(p)
    ensures a.fd >= 2 && a.fd !in Taken(p) ==> r == -1
    ensures 0 <= a.fd < FDS && p.fds[a.fd].flags in {FILE_FLAG, DIR_FLAG} ==> r == -1
  {
    if Refused(a) then -1
    else
      match WriteRoutine(p.fds[a.fd].flags)
      case KeyboardIo => a.devices.keyboard.value
      case TerminalIo => a.devices.terminal.value
      case RtcIo => a.devices.rtc.value
      case _ => -1
  }

  // ---------------------------------------------------------------- who answers

  /** A read is answered by the device, or the file, that the descriptor's flag stands for. */
  lemma ReadReaches(img: Image, p: Pcb, a: Args)
    requires WellFormed(img) && Ok(p) && 0 <= a.fd < 8 && !a.isNull && a.nbytes >= 0
    ensures var r, flag := Read(img, p, a), p.fds[a.fd].flags;
            && (flag == 1 ==> r == (a.devices.keyboard, p))
            && (flag == 3 ==> r == (a.devices.rtc, p))
            && (flag == 4 ==> r == FileRead(img, p, a.fd, a.nbytes))
            && (flag == 5 ==> r == (a.devices.dir, p))
            && (flag == 0 || flag == 2 ==> r == (ReadResult(-1, []), p))
  {
  }

  /** A write is answered by keyboard, terminal or clock, as the flag says, and fails for all other flags. */
  lemma WriteReaches(p: Pcb, a: Args)
    requires Ok(p) && 0 <= a.fd < 8 && !a.isNull && a.nbytes >= 0
    ensures var r, flag := Write(p, a), p.fds[a.fd].flags;
            r == if flag == 1 then a.devices.keyboard.value
                 else if flag == 2 then a.devices.terminal.value
                 else if flag == 3 then a.devices.rtc.value
                 else -1
  {
  }

  /** Nothing is answered for a null buffer, a negative count or a number that is no descriptor. */
  lemma NoneReached(img: Image, p: Pcb, a: Args)
    requires WellFormed(img) && Ok(p) && (a.isNull || a.nbytes < 0 || a.fd < 0 || a.fd > 7)
    ensures Read(img, p, a) == (ReadResult(-1, []), p) && Write(p, a) == -1
  {
  }

  /** A read that fails still moves the 32-bit position, by -1. */
  lemma FailedReadMoves(img: Image, p: Pcb, fd: nat, nbytes: nat)
    requires WellFormed(img) && Ok(p) && fd < FDS && Lookup(img, p.names, fd).Missing?
    ensures var (r, q), at := FileRead(img, p, fd, nbytes), p.fds[fd].position;
            && r == ReadResult(-1, []) && q.names == p.names
            && (at < WORD ==> q.fds[fd].position == if at == 0 then 0xFFFF_FFFF else at - 1)
  {
  }

  // ---------------------------------------------------------------- the allocator

  /** The descriptors in use. */
  function Taken(p: Pcb): (s: set<int>)
    requires Ok(p)
  {
    set i | 2 <= i < FDS && p.fds[i].flags != NOT_SET
  }

  predicate PlainName(img: Image, name: seq<byte>)
    requires WellFormed(img)
  {
    var f := ByName(img, name);
    !(STDIN_NAME <= name) && !(STDOUT_NAME <= name) && (f.Found? ==> f.fileType <= 2)
  }

  /** Only descriptor `i` differs, and of the stored names at most its row and the byte behind. */
  predicate OnlyAt(p: Pcb, r: Pcb, i: nat)
    requires Ok(p) && Ok(r)
  {
    && (forall k :: 0 <= k < FDS && k != i ==> r.fds[k] == p.fds[k])
    && (forall k :: 0 <= k <= NAMES && !(MAX_NAME * i <= k < MAX_NAME * i + SPAN) ==> r.names[k] == p.names[k])
  }

  /**
   * open takes the lowest free descriptor of 2..7, at position 0, and fails exactly when the
   * name is absent or none is free.
   */
  lemma OpenAllocates(p: Pcb, f: Found)
    requires Ok(p) && (f.Found? ==> f.fileType <= 2 && |f.name| <= MAX_NAME)
    ensures var r := OpenFound(p, f);
            && (r.value == -1 <==> f.Missing? || Taken(p) == {2, 3, 4, 5, 6, 7})
            && (r.value == -1 ==> r.pcb == p)
            && (r.value != -1 ==>
                  && 2 <= r.value < FDS && r.value !in Taken(p)
                  && (forall k :: 2 <= k < r.value ==> k in Taken(p))
                  && Taken(r.pcb) == Taken(p) + {r.value}
                  && r.pcb.fds[r.value].position == 0
                  && OnlyAt(p, r.pcb, r.value))
  {
    var i := LowestFree(p.fds, 2);
    if i < FDS {
      assert i in {2, 3, 4, 5, 6, 7} && i !in Taken(p);
    } else {
      assert forall k :: 2 <= k < FDS ==> p.fds[k].flags != NOT_SET;
    }
  }

  /** What kind of descriptor an open makes: 3 for the clock, 5 for a directory, 4 for a regular file. */
  lemma OpenedIs(p: Pcb, f: Found)
    requires Ok(p) && f.Found? && |f.name| <= MAX_NAME && OpenFound(p, f).value != -1
    ensures var Result(fd, q) := OpenFound(p, f);
            && (f.fileType == 0 ==> q.fds[fd].flags == 3 && q.names == p.names)
            && (f.fileType == 1 ==> q.fds[fd] == Fd(5, f.inode, 0))
            && (f.fileType == 2 ==> q.fds[fd] == Fd(4, f.inode, 0))
            && (f.fileType > 2 ==> fd == 0 && q == p)
  {
  }

  /** A name that begins with stdin or stdout opens nothing and only sets the flags of descriptor 1 or 2. */
  lemma OpenStdIs(img: Image, p: Pcb, name: seq<byte>, k: nat)
    requires WellFormed(img) && Ok(p) && k < FDS && (STDIN_NAME <= name || STDOUT_NAME <= name)
    ensures var Result(value, q) := Open(img, p, name);
            && value == 0 && q.names == p.names
            && q.fds[k] == if STDIN_NAME <= name && k == 1 then p.fds[k].(flags := 1)
                           else if !(STDIN_NAME <= name) && k == 2 then p.fds[k].(flags := 2)
                           else p.fds[k]
  {
  }

  /** close frees its own descriptor only, and never 0 or 1. */
  lemma CloseFrees(p: Pcb, fd: int)
    requires Ok(p)
    ensures var r := Close(p, fd);
            && (r.value == 0 <==> fd in Taken(p)) && (r.value == 0 || r.value == -1)
            && Taken(r.pcb) == Taken(p) - {fd} && r.pcb.names == p.names
            && (r.value == 0 ==> r.pcb.fds[fd] == Fd(0, 0, 0))
            && forall k :: 0 <= k < FDS && (k != fd || k < 2) ==> r.pcb.fds[k] == p.fds[k]
  {
    var r := Close(p, fd);
    assert r.value == 0 ==> r.pcb.fds[fd].flags == NOT_SET;
  }

  datatype Event = OpenName(name: seq<byte>) | CloseFd(fd: int) | ReadFd(args: Args)

  predicate Plain(img: Image, es: seq<Event>)
    requires WellFormed(img)
  {
    forall i :: 0 <= i < |es| && es[i].OpenName? ==> PlainName(img, es[i].name)
  }

  /** One call: its return value and the descriptors after it. */
  function Step(img: Image, p: Pcb, e: Event): (r: Result)
    requires WellFormed(img) && Ok(p)
    ensures Ok(r.pcb)
  {
    match e
    case OpenName(name) => Open(img, p, name)
    case CloseFd(fd) => Close(p, fd)
    case ReadFd(args) =>
      var (r, q) := Read(img, p, args);
      Result(r.value, q)
  }

  function Run(img: Image, p: Pcb, es: seq<Event>): (r: Pcb)
    requires WellFormed(img) && Ok(p)
    ensures Ok(r)
    decreases |es|
  {
    if es == [] then p else Run(img, Step(img, p, es[0]).pcb, es[1..])
  }

  /** Replay only what the calls returned: successful opens add, successful closes remove. */
  function Ledger(img: Image, p: Pcb, es: seq<Event>, held: set<int>): set<int>
    requires WellFormed(img) && Ok(p)
    decreases |es|
  {
    if es == [] then held
    else
      var Result(r, q) := Step(img, p, es[0]);
      var now := match es[0]
        case OpenName(_) => if r >= 0 then held + {r} else held
        case CloseFd(fd) => if r == 0 then held - {fd} else held
        case ReadFd(_) => held;
      Ledger(img, q, es[1..], now)
  }

  /** Over every run, the descriptors in use are the opens that succeeded minus the closes that did. */
  lemma {:induction false} LedgerIsTaken(img: Image, p: Pcb, es: seq<Event>)
    requires WellFormed(img) && Ok(p) && Plain(img, es)
    ensures Ledger(img, p, es, Taken(p)) == Taken(Run(img, p, es))
    decreases |es|
  {
    if es != [] {
      var e := es[0];
      var q := Step(img, p, e).pcb;
      match e {
        case OpenName(name) =>
          assert PlainName(img, name);
          OpenAllocates(p, ByName(img, name));
        case CloseFd(fd) => CloseFrees(p, fd);
        case ReadFd(_) => assert Taken(q) == Taken(p);
      }
      assert Plain(img, es[1..]) by {
        assert forall i :: 0 <= i < |es[1..]| ==> es[1..][i] == es[i + 1];
      }
      LedgerIsTaken(img, q, es[1..]);
    }
  }
}
