/** The descriptor system calls, in place on the PCB, proved against Descriptors. */
module DescriptorDriver {
  import opened CStrings
  import opened FileSystem
  import opened Directory
  import opened StoredNames
  import opened Descriptors

  lemma PrefixIsCut(s: seq<byte>, t: seq<byte>)
    ensures Cut(t, |s|) == Cut(s, |s|) <==> s <= t
  {
  }

  lemma Literal(s: seq<byte>)
    requires NUL !in s
    ensures NUL in s + [NUL] && Text(s + [NUL]) == s
  {
    assert (s + [NUL])[|s|] == NUL && (s + [NUL])[..|s|] == s;
    TextIsPrefix(s + [NUL], |s|);
  }

  /** The string that starts in row `fd`, read on into what follows the names if need be. */
  lemma StringInRow(img: Image, names: seq<byte>, fd: nat, beyond: seq<byte>)
    requires WellFormed(img) && |names| == NAMES + 1 && fd < FDS && NUL in beyond
    ensures var s := names[MAX_NAME * fd..] + beyond;
            NUL in s && ByName(img, Text(s)) == Lookup(img, names, fd)
  {
    var s, row := names[MAX_NAME * fd..] + beyond, Row(names, fd);
    assert beyond == s[|names[MAX_NAME * fd..]|..];
    assert s[..SPAN] == row;
    if NUL in row {
      var t := Text(row);
      assert s[..|t|] == t && s[|t|] == NUL;
      TextIsPrefix(s, |t|);
    } else {
      assert forall k :: 0 <= k < SPAN ==> s[k] == row[k];
    }
  }

  class Process {
    const fds: array<Fd>
    const names: array<byte>

    ghost function Abs(): Pcb
      reads fds, names
    {
      Pcb(fds[..], names[..])
    }

    ghost predicate Valid()
      reads fds, names
    {
      Ok(Abs())
    }

    /** The descriptors execute sets up: keyboard, terminal, six free ones; stored names are what was there. */
    constructor (memory: array<byte>)
      requires memory.Length == NAMES + 1
      ensures Valid() && fresh(fds) && names == memory && Taken(Abs()) == {}
      ensures fds[0].flags == STDIN_FLAG && fds[1].flags == STDOUT_FLAG
    {
      fds := new Fd[FDS](i => Fd(if i == 0 then STDIN_FLAG else if i == 1 then STDOUT_FLAG else NOT_SET, WORD - 1, 0));
      names := memory;
    }

    /** open */
    method DoOpen(img: Image, filename: seq<byte>) returns (r: int)
      requires WellFormed(img) && Valid() && NUL in filename
      modifies fds, names
      ensures Valid() && Result(r, Abs()) == Open(img, old(Abs()), Text(filename))
    {
      var std := IsStd(filename, STDIN_NAME);
      if std {
        fds[STDIN_FLAG] := fds[STDIN_FLAG].(flags := STDIN_FLAG);
        return 0;
      }
      std := IsStd(filename, STDOUT_NAME);
      if std {
        fds[STDOUT_FLAG] := fds[STDOUT_FLAG].(flags := STDOUT_FLAG);
        return 0;
      }
      var f := ReadDentryByName(img, filename);
      r := Allocate(f, filename);
    }

    /** strncmp against a literal, for as many characters as the literal has */
    method IsStd(filename: seq<byte>, literal: seq<byte>) returns (b: bool)
      requires NUL in filename && NUL !in literal
      ensures b == (literal <= Text(filename))
    {
      Literal(literal);
      var cmp := StrNCmp(filename, literal + [NUL], |literal|);
      PrefixIsCut(literal, Text(filename));
      return cmp == 0;
    }

    /** strcpy of a file name to row `i`, which its NUL may leave */
    method StoreName(i: nat, filename: seq<byte>)
      requires names.Length == NAMES + 1 && i < FDS && NUL in filename && |Text(filename)| <= MAX_NAME
      modifies names
      ensures names[..] == Store(old(names[..]), i, Text(filename))
    {
      ghost var was, at := names[..], MAX_NAME * i;
      var k := 0;
      while filename[k] != NUL
        invariant k <= |Text(filename)|
        invariant names[..] == was[..at] + filename[..k] + was[at + k..]
        decreases |filename| - k
      {
        names[MAX_NAME * i + k] := filename[k];
        k := k + 1;
      }
      FirstNul(filename, k);
      names[MAX_NAME * i + k] := NUL;
    }

    /** The search for a free descriptor in open, once the lookup of `filename` has given `f`. */
    method Allocate(f: Found, filename: seq<byte>) returns (r: int)
      requires Valid() && NUL in filename && (f.Found? ==> f.name == Text(filename) && |f.name| <= MAX_NAME)
      modifies fds, names
      ensures Valid() && Result(r, Abs()) == OpenFound(old(Abs()), f)
    {
      if f.Missing? {
        return -1;
      }
      for i := 2 to FDS
        invariant Abs() == old(Abs()) && LowestFree(fds[..], 2) == LowestFree(fds[..], i)
      {
        if fds[i].flags == NOT_SET {
          if f.fileType == 0 {
            fds[i] := fds[i].(flags := RTC_FLAG, position := 0);
            return i;
          } else if f.fileType == 1 {
            fds[i] := Fd(DIR_FLAG, f.inode, 0);
            StoreName(i, filename);
            return i;
          } else if f.fileType == 2 {
            fds[i] := Fd(FILE_FLAG, f.inode, 0);
            StoreName(i, filename);
            return i;
          }
          return 0;
        }
      }
      return -1;
    }

    /** close */
    method DoClose(fd: int) returns (r: int)
      requires Valid()
      modifies fds
      ensures Valid() && Result(r, Abs()) == Close(old(Abs()), fd)
    {
      if fd == 0 || fd == 1 || fd > FDS - 1 || fd < 0 {
        return -1;
      }
      if fds[fd].flags == NOT_SET {
        return -1;
      }
      fds[fd] := fds[fd].(inode := 0, position := 0, flags := NOT_SET);
      return 0;
    }

    /** read, through the dispatch table; `beyond` is what follows the stored names in the PCB. */
    method DoRead(img: Image, a: Args, buf: array<byte>, beyond: seq<byte>) returns (r: int)
      requires WellFormed(img) && Valid() && NUL in beyond && buf != names
      requires |Read(img, Abs(), a).0.data| <= buf.Length
      modifies fds, buf
      ensures Valid() && (r, Abs()) == (Read(img, old(Abs()), a).0.value, Read(img, old(Abs()), a).1)
      ensures !Refused(a) && old(fds[a.fd].flags) == FILE_FLAG ==>
        var data := Read(img, old(Abs()), a).0.data;
        buf[..] == data + old(buf[..])[|data|..]
    {
      if a.nbytes < 0 || a.isNull || a.fd > FDS - 1 || a.fd < 0 {
        return -1;
      }
      match ReadRoutine(fds[a.fd].flags)
      case Invalid => return -1;
      case FileIo => r := ReadFile(img, a.fd, buf, a.nbytes, beyond);
      case KeyboardIo => return a.devices.keyboard.value;
      case TerminalIo => return -1;
      case RtcIo => return a.devices.rtc.value;
      case DirIo => return a.devices.dir.value;
    }

    /** file_read_setup */
    method ReadFile(img: Image, fd: nat, buf: array<byte>, nbytes: nat, beyond: seq<byte>) returns (r: int)
      requires WellFormed(img) && Valid() && fd < FDS && NUL in beyond && buf != names
      requires |FileRead(img, Abs(), fd, nbytes).0.data| <= buf.Length
      modifies fds, buf
      ensures var (res, after) := FileRead(img, old(Abs()), fd, nbytes);
              && Valid() && r == res.value && Abs() == after
              && buf[..] == res.data + old(buf[..])[|res.data|..]
    {
      r := ReadNamed(img, fd, fds[fd].position, buf, nbytes, beyond);
      Move(fd, r);
    }

    /** file_read of the name stored in row `fd` */
    method ReadNamed(img: Image, fd: nat, offset: nat, buf: array<byte>, nbytes: nat, beyond: seq<byte>) returns (r: int)
      requires WellFormed(img) && Valid() && fd < FDS && offset == fds[fd].position && NUL in beyond && buf != names
      requires |FileRead(img, Abs(), fd, nbytes).0.data| <= buf.Length
      modifies buf
      ensures var res := FileRead(img, old(Abs()), fd, nbytes).0;
              r == res.value && buf[..] == res.data + old(buf[..])[|res.data|..]
    {
      StringInRow(img, names[..], fd, beyond);
      var f := ReadDentryByName(img, names[MAX_NAME * fd..] + beyond);
      if f.Missing? {
        return -1;
      }
      r := ReadDataInto(img, f.inode, offset, buf, nbytes);
    }

    method Move(fd: nat, n: int)
      requires Valid() && fd < FDS
      modifies fds
      ensures Abs() == Moved(old(Abs()), fd, n)
    {
      fds[fd] := fds[fd].(position := (fds[fd].position + n) % WORD);
    }
  }
}
