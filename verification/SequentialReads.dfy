/** Which calls keep an open file readable, and what a sequence of reads delivers. */
module SequentialReads {
  import opened CStrings
  import opened FileSystem
  import opened Directory
  import opened StoredNames
  import opened Descriptors

  /** Descriptor `fd` is an open, whole regular file whose stored name can be looked up. */
  predicate Reading(img: Image, p: Pcb, fd: nat) {
    && WellFormed(img) && Ok(p) && 2 <= fd < FDS && p.fds[fd].flags == FILE_FLAG
    && var f := Lookup(img, p.names, fd);
       f.Found? && Whole(img, f.inode) && p.fds[fd].position <= img.inodes[f.inode].length
  }

  function Contents(img: Image, p: Pcb, fd: nat): seq<byte>
    requires Reading(img, p, fd)
  {
    File(img, Lookup(img, p.names, fd).inode)
  }

  /** Opening a whole regular file, its name of any length up to 32, makes it readable from its start. */
  lemma OpenedIsReading(img: Image, p: Pcb, name: seq<byte>)
    requires WellFormed(img) && Ok(p) && PlainName(img, name)
    requires var f := ByName(img, name); f.Found? && f.fileType == 2 && Whole(img, f.inode)
    requires Open(img, p, name).value != -1
    ensures var Result(fd, q) := Open(img, p, name);
            2 <= fd < FDS && Reading(img, q, fd) && q.fds[fd].position == 0
            && Contents(img, q, fd) == File(img, ByName(img, name).inode)
  {
    StoredIsFound(img, p.names, LowestFree(p.fds, 2), name);
  }

  /**
   * The guard: a call leaves `fd` readable unless it closes it, stores a name that damages its name, or
   * opens a name that begins with stdout, which overwrites the flags of descriptor 2.
   */
  predicate Keeps(img: Image, p: Pcb, e: Event, fd: nat)
    requires WellFormed(img) && Ok(p) && fd < FDS
  {
    match e
    case CloseFd(closed) => closed != fd
    case ReadFd(_) => true
    case OpenName(name) =>
      if STDIN_NAME <= name then true
      else if STDOUT_NAME <= name then fd != STDOUT_FLAG
      else KeepsFound(p, ByName(img, name), fd)
  }

  predicate KeepsFound(p: Pcb, f: Found, fd: nat)
    requires Ok(p) && fd < FDS
  {
    var i := LowestFree(p.fds, 2);
    f.Found? && i < FDS && 1 <= f.fileType <= 2 ==> !Damages(p.names, i, f.name, fd)
  }

  /** Still the same readable file, if and only if `kept`. */
  predicate Same(img: Image, p: Pcb, q: Pcb, fd: nat, kept: bool)
    requires Ok(p) && fd < FDS
  {
    && (Reading(img, q, fd) <==> kept)
    && (kept ==> q.fds[fd] == p.fds[fd] && Lookup(img, q.names, fd) == Lookup(img, p.names, fd))
  }

  lemma OpenExact(img: Image, p: Pcb, name: seq<byte>, fd: nat)
    requires Reading(img, p, fd)
    ensures Same(img, p, Open(img, p, name).pcb, fd, Keeps(img, p, OpenName(name), fd))
  {
    if STDIN_NAME <= name {
      FlaggedExact(img, p, STDIN_FLAG, fd);
    } else if STDOUT_NAME <= name {
      FlaggedExact(img, p, STDOUT_FLAG, fd);
    } else {
      FoundExact(img, p, ByName(img, name), fd);
    }
  }

  lemma FlaggedExact(img: Image, p: Pcb, flag: nat, fd: nat)
    requires Reading(img, p, fd) && flag in {STDIN_FLAG, STDOUT_FLAG}
    ensures Same(img, p, Flagged(p, flag, flag), fd, fd != flag)
  {
  }

  lemma FoundExact(img: Image, p: Pcb, f: Found, fd: nat)
    requires Reading(img, p, fd) && (f.Found? ==> 1 <= |f.name| <= MAX_NAME && NUL !in f.name)
    ensures Same(img, p, OpenFound(p, f).pcb, fd, KeepsFound(p, f, fd))
  {
    var i := LowestFree(p.fds, 2);
    if f.Found? && i < FDS && f.fileType <= 2 {
      assert OpenFound(p, f).pcb == Opened(p, i, f);
      OpenedExact(img, p, i, f, fd);
    } else {
      assert OpenFound(p, f).pcb == p;
    }
  }

  lemma OpenedExact(img: Image, p: Pcb, i: nat, f: Found, fd: nat)
    requires Reading(img, p, fd) && i < FDS && p.fds[i].flags == NOT_SET
    requires f.Found? && 1 <= |f.name| <= MAX_NAME && NUL !in f.name && f.fileType <= 2
    ensures Same(img, p, Opened(p, i, f), fd, f.fileType == 0 || !Damages(p.names, i, f.name, fd))
  {
    StoreExact(img, p.names, i, f.name, fd);
  }

  /** Any read of `fd`, even one at the faulty offset, delivers bytes of the file and stays within it. */
  lemma OwnReadBounds(img: Image, p: Pcb, fd: nat, nbytes: nat, n: nat)
    requires Reading(img, p, fd) && n == Wanted(img, Lookup(img, p.names, fd).inode, p.fds[fd].position, nbytes)
    ensures var at := p.fds[fd].position;
            at + n <= |Contents(img, p, fd)| && Moved(p, fd, n).fds[fd].position == at + n
    ensures var from := Start(p.fds[fd].position);
            FileRead(img, p, fd, nbytes) == (ReadResult(n, Contents(img, p, fd)[from..from + n]), Moved(p, fd, n))
  {
    var ino := Lookup(img, p.names, fd).inode;
    ReadWhole(img, ino, p.fds[fd].position, nbytes);
    assert img.inodes[ino].length < WORD;
  }

  /** How many bytes a read of `fd` delivers. */
  function Share(img: Image, p: Pcb, fd: nat, nbytes: nat): (n: nat)
    requires Reading(img, p, fd)
    ensures var rest := |Contents(img, p, fd)| - p.fds[fd].position;
            n == if nbytes < rest then nbytes else rest
  {
    Wanted(img, Lookup(img, p.names, fd).inode, p.fds[fd].position, nbytes)
  }

  lemma ReadKeeps(img: Image, p: Pcb, a: Args, fd: nat)
    requires Reading(img, p, fd)
    ensures var q := Read(img, p, a).1;
            Reading(img, q, fd) && q.names == p.names && (a.fd != fd ==> q.fds[fd] == p.fds[fd])
  {
    if a.fd == fd && !Refused(a) {
      OwnReadBounds(img, p, fd, a.nbytes, Share(img, p, fd, a.nbytes));
    }
  }

  /** A call keeps an open file readable, and the same file, if and only if the guard holds. */
  lemma ReadingExact(img: Image, p: Pcb, e: Event, fd: nat)
    requires Reading(img, p, fd)
    ensures var q := Step(img, p, e).pcb;
            && (Reading(img, q, fd) <==> Keeps(img, p, e, fd))
            && (Reading(img, q, fd) ==> Contents(img, q, fd) == Contents(img, p, fd))
  {
    match e
    case OpenName(name) => OpenExact(img, p, name, fd);
    case CloseFd(closed) => CloseFrees(p, closed);
    case ReadFd(args) => ReadKeeps(img, p, args, fd);
  }

  predicate AlwaysReading(img: Image, p: Pcb, es: seq<Event>, fd: nat)
    requires WellFormed(img) && Ok(p)
    decreases |es|
  {
    Reading(img, p, fd) && (es == [] || AlwaysReading(img, Step(img, p, es[0]).pcb, es[1..], fd))
  }

  predicate KeepsAll(img: Image, p: Pcb, es: seq<Event>, fd: nat)
    requires WellFormed(img) && Ok(p) && fd < FDS
    decreases |es|
  {
    es == [] || (Keeps(img, p, es[0], fd) && KeepsAll(img, Step(img, p, es[0]).pcb, es[1..], fd))
  }

  /** Over every run an open file is readable in every state if and only if every call meets the guard. */
  lemma {:induction false} RunReadingExact(img: Image, p: Pcb, es: seq<Event>, fd: nat)
    requires Reading(img, p, fd)
    ensures AlwaysReading(img, p, es, fd) <==> KeepsAll(img, p, es, fd)
    decreases |es|
  {
    if es != [] {
      ReadingExact(img, p, es[0], fd);
      var q := Step(img, p, es[0]).pcb;
      if Reading(img, q, fd) {
        RunReadingExact(img, q, es[1..], fd);
      }
    }
  }

  /** After an open that damages the name of an open file, every read of that file returns -1. */
  lemma DamagedReadFails(img: Image, p: Pcb, name: seq<byte>, fd: nat, a: Args)
    requires Reading(img, p, fd) && PlainName(img, name)
    requires !Keeps(img, p, OpenName(name), fd) && a.fd == fd
    ensures Open(img, p, name).value != -1 && Read(img, Open(img, p, name).pcb, a).0.value == -1
  {
    var i, f := LowestFree(p.fds, 2), ByName(img, name);
    StoreExact(img, p.names, i, name, fd);
    assert Open(img, p, name) == Result(i, Opened(p, i, f));
    assert Lookup(img, Opened(p, i, f).names, fd) == Missing;
  }

  // ---------------------------------------------------------------- a damaging run

  const SHORT: seq<byte> := [97]

  function Long(): (r: seq<byte>)
    ensures |r| == MAX_NAME && forall i :: 0 <= i < |r| ==> r[i] == 98
  {
    seq(MAX_NAME, _ => 98)
  }

  /** An image with one empty file under a short name and under one of 32 characters. */
  function TwoNames(): (img: Image)
    ensures WellFormed(img) && Whole(img, 0)
  {
    var numbers := seq(MAX_BLOCKS, _ => 0);
    Image([Inode(0, numbers)], [], [Dentry(SHORT + Zeros(MAX_NAME), 2, 0), Dentry(Long() + Zeros(1), 2, 0)])
  }

  function Zeros(n: nat): (r: seq<byte>)
    ensures |r| == n && forall i :: 0 <= i < n ==> r[i] == NUL
  {
    seq(n, _ => NUL)
  }

  lemma TwoNamesFound()
    ensures ByName(TwoNames(), SHORT) == Found(SHORT, 2, 0) && PlainName(TwoNames(), SHORT)
    ensures ByName(TwoNames(), Long()) == Found(Long(), 2, 0) && PlainName(TwoNames(), Long())
  {
    var img := TwoNames();
    var a, b := img.dentries[0].name, img.dentries[1].name;
    assert a[..1] == SHORT && b[..MAX_NAME] == Long();
    TextIsPrefix(a, 1);
    TextIsPrefix(b, MAX_NAME);
    assert NameOf(img, 0) == SHORT && NameOf(img, 1) == Long();
    assert FirstNamed(img, SHORT, 0) == 0;
    assert SHORT[0] != Long()[0];
    assert FirstNamed(img, Long(), 0) == FirstNamed(img, Long(), 1) == 1;
    assert STDIN_NAME[0] != Long()[0] && STDOUT_NAME[0] != Long()[0];
  }

  /** Opening either name takes descriptor `fd`, the lowest free one, and makes it readable. */
  lemma OpenEither(p: Pcb, name: seq<byte>, fd: nat)
    requires Ok(p) && name in {SHORT, Long()} && 2 <= fd < FDS
    requires fd !in Taken(p) && forall k :: 2 <= k < fd ==> k in Taken(p)
    ensures var img := TwoNames();
            var Result(r, q) := Open(img, p, name);
            r == fd == LowestFree(p.fds, 2) && Reading(img, q, fd) && Taken(q) == Taken(p) + {fd}
  {
    var img := TwoNames();
    TwoNamesFound();
    OpenAllocates(p, ByName(img, name));
    assert LowestFree(p.fds, 2) == fd;
    OpenedIsReading(img, p, name);
  }

  lemma RunCons(img: Image, p: Pcb, e: Event, rest: seq<Event>)
    requires WellFormed(img) && Ok(p)
    ensures Run(img, p, [e] + rest) == Run(img, Step(img, p, e).pcb, rest)
  {
    var es := [e] + rest;
    assert es[0] == e && es[1..] == rest;
  }

  lemma RunThree(img: Image, p: Pcb, a: Event, b: Event, c: Event)
    requires WellFormed(img) && Ok(p)
    ensures Run(img, p, [a, b, c]) == Step(img, Step(img, Step(img, p, a).pcb, b).pcb, c).pcb
  {
    assert [a, b, c] == [a] + ([b] + ([c] + []));
    var p1 := Step(img, p, a).pcb;
    var p2 := Step(img, p1, b).pcb;
    RunCons(img, p, a, [b] + ([c] + []));
    RunCons(img, p1, b, [c] + []);
    RunCons(img, p2, c, []);
  }

  /**
   * Two short names opened, the first closed, the long one opened in its place: descriptor 3 was
   * readable until then, and now every read of it fails.
   */
  lemma LongNameDamages(p: Pcb, a: Args)
    requires Ok(p) && Taken(p) == {} && a.fd == 3
    ensures var img := TwoNames();
            var q := Run(img, p, [OpenName(SHORT), OpenName(SHORT), CloseFd(2)]);
            && Reading(img, q, 3)
            && Open(img, q, Long()).value == 2
            && Read(img, Open(img, q, Long()).pcb, a).0.value == -1
  {
    var img := TwoNames();
    RunThree(img, p, OpenName(SHORT), OpenName(SHORT), CloseFd(2));
    var p1 := Open(img, p, SHORT).pcb;
    OpenEither(p, SHORT, 2);
    var p2 := Open(img, p1, SHORT).pcb;
    OpenEither(p1, SHORT, 3);
    var q := Close(p2, 2).pcb;
    CloseFrees(p2, 2);
    ReadingExact(img, p2, CloseFd(2), 3);
    OpenEither(q, Long(), 2);
    LongOpenFails(q, a);
  }

  lemma LongOpenFails(q: Pcb, a: Args)
    requires Reading(TwoNames(), q, 3) && LowestFree(q.fds, 2) == 2 && a.fd == 3
    ensures Read(TwoNames(), Open(TwoNames(), q, Long()).pcb, a).0.value == -1
  {
    TwoNamesFound();
    assert Damages(q.names, 2, Long(), 3);
    DamagedReadFails(TwoNames(), q, Long(), 3, a);
  }

  // ---------------------------------------------------------------- sequential reads

  /** A read at the position goes wrong only at offset 4096, and not there at the end of the file. */
  predicate Straight(img: Image, p: Pcb, fd: nat)
    requires Reading(img, p, fd)
  {
    p.fds[fd].position != BLOCK_SIZE || |Contents(img, p, fd)| == BLOCK_SIZE
  }

  /** The run keeps `fd` readable and starts no read of it at the faulty offset. */
  predicate Uses(img: Image, p: Pcb, es: seq<Event>, fd: nat)
    requires Reading(img, p, fd)
    decreases |es|
  {
    es == [] ||
    (&& Keeps(img, p, es[0], fd)
     && (es[0].ReadFd? && es[0].args.fd == fd ==> Straight(img, p, fd))
     && (ReadingExact(img, p, es[0], fd); Uses(img, Step(img, p, es[0]).pcb, es[1..], fd)))
  }

  /** Calls on other descriptors leave `fd` alone, if they keep it readable at all. */
  lemma OthersApart(img: Image, p: Pcb, e: Event, fd: nat)
    requires Reading(img, p, fd) && Keeps(img, p, e, fd) && !(e.ReadFd? && e.args.fd == fd)
    ensures Step(img, p, e).pcb.fds[fd] == p.fds[fd]
  {
    match e
    case OpenName(name) => OpenExact(img, p, name, fd);
    case CloseFd(closed) => CloseFrees(p, closed);
    case ReadFd(args) => ReadKeeps(img, p, args, fd);
  }

  /** What a read of `fd` returns: the file from its position on, cut to `nbytes`. */
  function NextBytes(img: Image, p: Pcb, fd: nat, nbytes: nat): seq<byte>
    requires Reading(img, p, fd)
  {
    FlatRead(Contents(img, p, fd), p.fds[fd].position, nbytes)
  }

  /** A read of `fd` is a flat read of its file at the position, which moves past what it returned. */
  lemma OwnRead(img: Image, p: Pcb, fd: nat, a: Args)
    requires Reading(img, p, fd) && Straight(img, p, fd) && a.fd == fd && !Refused(a)
    ensures var next := NextBytes(img, p, fd, a.nbytes);
            && Read(img, p, a) == (ReadResult(|next|, next), Moved(p, fd, |next|))
            && Moved(p, fd, |next|).fds[fd].position == p.fds[fd].position + |next|
  {
    var n, at, f := Share(img, p, fd, a.nbytes), p.fds[fd].position, Contents(img, p, fd);
    OwnReadIs(img, p, fd, a, n, f, at);
    FlatSlice(f, at, a.nbytes, n);
  }

  lemma OwnReadIs(img: Image, p: Pcb, fd: nat, a: Args, n: nat, f: seq<byte>, at: nat)
    requires ReadingAt(img, p, fd, f, at) && a.fd == fd && !Refused(a) && n == Share(img, p, fd, a.nbytes)
    ensures at + n <= |f| && Moved(p, fd, n).fds[fd].position == at + n
    ensures Read(img, p, a) == (ReadResult(n, f[Start(at)..Start(at) + n]), Moved(p, fd, n))
  {
    OwnReadBounds(img, p, fd, a.nbytes, n);
  }

  lemma FlatSlice(f: seq<byte>, at: nat, nbytes: nat, n: nat)
    requires at <= |f| && (at != BLOCK_SIZE || |f| == BLOCK_SIZE)
    requires n == if nbytes < |f| - at then nbytes else |f| - at
    ensures FlatRead(f, at, nbytes) == f[Start(at)..Start(at) + n] && |FlatRead(f, at, nbytes)| == n
  {
  }

  /** At the end of the file a read returns 0 for ever; before it, a non-empty read returns more. */
  lemma EndOfFile(img: Image, p: Pcb, fd: nat, a: Args)
    requires Reading(img, p, fd) && a.fd == fd && !Refused(a) && a.nbytes > 0
    ensures var atEnd := p.fds[fd].position == |Contents(img, p, fd)|;
            && (Read(img, p, a).0.value == 0 <==> atEnd)
            && (atEnd ==> Read(img, p, a).1 == p)
  {
    OwnReadBounds(img, p, fd, a.nbytes, Share(img, p, fd, a.nbytes));
  }

  /** The bytes a step delivers from descriptor `fd`. */
  function Got(img: Image, p: Pcb, e: Event, fd: nat): seq<byte>
    requires WellFormed(img) && Ok(p)
  {
    if e.ReadFd? && e.args.fd == fd then Read(img, p, e.args).0.data else []
  }

  function AllGot(img: Image, p: Pcb, es: seq<Event>, fd: nat): seq<byte>
    requires WellFormed(img) && Ok(p)
    decreases |es|
  {
    if es == [] then [] else Got(img, p, es[0], fd) + AllGot(img, Step(img, p, es[0]).pcb, es[1..], fd)
  }

  /** One step: a read of `fd` returns the next bytes of its file; nothing else touches it. */
  lemma StepReads(img: Image, p: Pcb, e: Event, fd: nat)
    requires Reading(img, p, fd) && Keeps(img, p, e, fd)
    requires e.ReadFd? && e.args.fd == fd ==> Straight(img, p, fd)
    ensures var q := Step(img, p, e).pcb;
            && Reading(img, q, fd) && Contents(img, q, fd) == Contents(img, p, fd)
            && q.fds[fd].position == p.fds[fd].position + |Got(img, p, e, fd)|
            && Got(img, p, e, fd) == Contents(img, p, fd)[p.fds[fd].position..q.fds[fd].position]
  {
    ReadingExact(img, p, e, fd);
    if e.ReadFd? && e.args.fd == fd {
      if !Refused(e.args) {
        OwnRead(img, p, fd, e.args);
      }
    } else {
      OthersApart(img, p, e, fd);
    }
  }

  /**
   * Over every run of opens, closes and reads that keeps `fd` readable, what was read from `fd` is
   * exactly the file between its old and its new position.
   */
  lemma {:induction false} ReadsConcatenate(img: Image, p: Pcb, es: seq<Event>, fd: nat)
    requires Reading(img, p, fd) && Uses(img, p, es, fd)
    ensures var q := Run(img, p, es);
            && Reading(img, q, fd) && Contents(img, q, fd) == Contents(img, p, fd)
            && q.fds[fd].position == p.fds[fd].position + |AllGot(img, p, es, fd)|
            && AllGot(img, p, es, fd) == Contents(img, p, fd)[p.fds[fd].position..q.fds[fd].position]
    decreases |es|
  {
    if es != [] {
      var e, rest := es[0], es[1..];
      StepReads(img, p, e, fd);
      var q := Step(img, p, e).pcb;
      ReadsConcatenate(img, q, rest, fd);
      var r := Run(img, q, rest);
      Splice(Contents(img, p, fd), p.fds[fd].position, q.fds[fd].position, r.fds[fd].position);
    }
  }

  lemma Splice(c: seq<byte>, i: nat, j: nat, k: nat)
    requires i <= j <= k <= |c|
    ensures c[i..j] + c[j..k] == c[i..k]
  {
  }

  // ---------------------------------------------------------------- byte by byte

  /** A file as a program sees it that reads one byte at a time: byte 4096 comes from the first block. */
  function Seen(f: seq<byte>): (r: seq<byte>)
    ensures |r| == |f|
  {
    if |f| > BLOCK_SIZE then f[BLOCK_SIZE := f[0]] else f
  }

  lemma SeenExact(f: seq<byte>)
    ensures Seen(f) == f <==> |f| <= BLOCK_SIZE || f[BLOCK_SIZE] == f[0]
  {
  }

  const Silent := Devices(ReadResult(0, []), ReadResult(0, []), ReadResult(0, []), ReadResult(0, []))

  function OneByte(fd: nat): Event {
    ReadFd(Args(fd, false, 1, Silent))
  }

  /** Descriptor `fd` reads the file `f` and has got to `at`. */
  predicate ReadingAt(img: Image, p: Pcb, fd: nat, f: seq<byte>, at: nat) {
    Reading(img, p, fd) && f == Contents(img, p, fd) && at == p.fds[fd].position
  }

  function Advance(f: seq<byte>, at: nat): nat {
    if at < |f| then at + 1 else at
  }

  function Upto(f: seq<byte>, at: nat, n: nat): seq<byte>
    requires at <= |f|
  {
    if at + n < |f| then f[at..at + n] else f[at..]
  }

  lemma ByteSlice(f: seq<byte>, at: nat, n: nat)
    requires at <= |f| && n == if at < |f| then 1 else 0
    ensures f[Start(at)..Start(at) + n] == Upto(Seen(f), at, 1) && at + n == Advance(f, at)
  {
  }

  /** A one-byte read, as a read of the file. */
  lemma ReadsByte(img: Image, p: Pcb, fd: nat, n: nat)
    requires Reading(img, p, fd) && n == Share(img, p, fd, 1)
    ensures Step(img, p, OneByte(fd)).pcb == Moved(p, fd, n)
    ensures p.fds[fd].position + n <= |Contents(img, p, fd)|
    ensures var from := Start(p.fds[fd].position);
            Got(img, p, OneByte(fd), fd) == Contents(img, p, fd)[from..from + n]
  {
    OwnReadBounds(img, p, fd, 1, n);
  }

  lemma MovedReading(img: Image, p: Pcb, fd: nat, n: nat)
    requires Reading(img, p, fd) && p.fds[fd].position + n <= |Contents(img, p, fd)|
    ensures ReadingAt(img, Moved(p, fd, n), fd, Contents(img, p, fd), p.fds[fd].position + n)
  {
    assert |Contents(img, p, fd)| < WORD;
  }

  lemma NextByte(img: Image, p: Pcb, fd: nat, f: seq<byte>, at: nat)
    requires ReadingAt(img, p, fd, f, at)
    ensures ReadingAt(img, Step(img, p, OneByte(fd)).pcb, fd, f, Advance(f, at))
    ensures at <= |f| && Got(img, p, OneByte(fd), fd) == Upto(Seen(f), at, 1)
  {
    var n := Share(img, p, fd, 1);
    ReadsByte(img, p, fd, n);
    MovedReading(img, p, fd, n);
    ByteSlice(f, at, n);
  }

  lemma UptoStep(f: seq<byte>, at: nat, n: nat)
    requires at <= |f|
    ensures Upto(f, at, 1) + Upto(f, Advance(f, at), n) == Upto(f, at, n + 1)
  {
  }

  lemma GotStep(img: Image, p: Pcb, es: seq<Event>, fd: nat, e: Event, rest: seq<Event>)
    requires WellFormed(img) && Ok(p) && es != [] && e == es[0] && rest == es[1..]
    ensures AllGot(img, p, es, fd) == Got(img, p, e, fd) + AllGot(img, Step(img, p, e).pcb, rest, fd)
  {
  }

  /** Any number of one-byte reads delivers the file, with byte 4096 replaced by byte 0 of it. */
  lemma {:induction false} ByteReads(img: Image, p: Pcb, es: seq<Event>, n: nat, fd: nat, f: seq<byte>, at: nat)
    requires ReadingAt(img, p, fd, f, at)
    requires n == |es| && forall i :: 0 <= i < n ==> es[i] == OneByte(fd)
    ensures at <= |f| && AllGot(img, p, es, fd) == Upto(Seen(f), at, n)
    decreases n
  {
    if n > 0 {
      var rest := es[1..];
      NextByte(img, p, fd, f, at);
      ByteReads(img, Step(img, p, OneByte(fd)).pcb, rest, n - 1, fd, f, Advance(f, at));
      GotStep(img, p, es, fd, OneByte(fd), rest);
      UptoStep(Seen(f), at, n - 1);
    }
  }
}
