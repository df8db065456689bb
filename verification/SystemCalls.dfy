/** The write system call of a process on the machine: where its bytes end up. */
module SystemCalls {
  import opened CStrings
  import opened Common
  import opened Keyboard
  import opened Terminals
  import Descriptors
  import DescriptorDriver
  import Driver

  /** A call the code answers with -1 before looking at the descriptor. */
  predicate Refused(fd: int, isNull: bool, nbytes: int) {
    nbytes < 0 || isNull || fd < 0 || fd > 7
  }

  /**
   * write. A terminal descriptor prints the text, cut at its NUL and at nbytes, in the executing terminal's
   * view; a keyboard descriptor echoes what is between the two indices; the clock's answer is `rtc`.
   */
  method DoWrite(p: DescriptorDriver.Process, m: Driver.Machine, fd: int, buf: array?<byte>, nbytes: int, rtc: int)
    returns (r: int)
    requires p.Valid() && |m.terminals| == TERMS && m.Valid()
    requires buf != null ==> NUL in buf[..]
    modifies m.Screens()
    ensures m.Valid()
    ensures Refused(fd, buf == null, nbytes) ==> r == -1 && m.Abs() == old(m.Abs())
    ensures !Refused(fd, buf == null, nbytes) && old(p.fds[fd].flags) == 2 ==>
      var out := Cut(Text(old(buf[..])), nbytes);
      r == |out| && m.Abs() == WriteText(old(m.Abs()), out)
    ensures !Refused(fd, buf == null, nbytes) && old(p.fds[fd].flags) == 1 ==>
      var l := old(m.Abs()).live.line;
      && r == (if l.last == l.idx then -1 else l.idx - l.last)
      && m.Abs() == OnLive(old(m.Abs()), Echo(old(m.Abs()).live.screen, l))
    ensures !Refused(fd, buf == null, nbytes) && old(p.fds[fd].flags) !in {1, 2} ==>
      r == (if old(p.fds[fd].flags) == 3 then rtc else -1) && m.Abs() == old(m.Abs())
  {
    if nbytes < 0 || buf == null || fd < 0 || fd > 7 {
      return -1;
    }
    match Descriptors.WriteRoutine(p.fds[fd].flags)
    case KeyboardIo =>
      r := m.KeyboardWrite();
    case TerminalIo =>
      r := m.TerminalWrite(buf, nbytes);
    case RtcIo =>
      return rtc;
    case _ =>
      return -1;
  }

  /** In a new process descriptor 1 prints. */
  method PrintFromNewProcess(m: Driver.Machine, memory: array<byte>, buf: array<byte>, nbytes: nat) returns (r: int)
    requires |m.terminals| == TERMS && m.Valid() && NUL in buf[..] && memory.Length == 257
    modifies m.Screens()
    ensures m.Valid()
    ensures var out := Cut(Text(old(buf[..])), nbytes);
            r == |out| && m.Abs() == WriteText(old(m.Abs()), out)
  {
    var p := new DescriptorDriver.Process(memory);
    r := DoWrite(p, m, 1, buf, nbytes, 0);
  }
}
