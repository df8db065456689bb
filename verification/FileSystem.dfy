/** The read-only file system of files.c: block-indexed reads and the directory. */
module FileSystem {
  import opened CStrings

  const BLOCK_SIZE := 4096
  const MAX_BLOCKS := 1023
  const MAX_NAME := 32

  /** An inode block: the file length, then the numbers of its data blocks. */
  datatype Inode = Inode(length: nat, blocks: seq<nat>)

  /** A directory entry as file_init copies it: 32 name bytes and a NUL, a type, an inode number. */
  datatype Dentry = Dentry(name: seq<byte>, fileType: nat, inode: nat)

  datatype Image = Image(inodes: seq<Inode>, blocks: seq<seq<byte>>, dentries: seq<Dentry>)

  /** What the format fixes: block and entry sizes, and lengths that fit one inode block. */
  predicate WellFormed(img: Image) {
    && (forall i :: 0 <= i < |img.inodes| ==>
          |img.inodes[i].blocks| == MAX_BLOCKS && img.inodes[i].length <= MAX_BLOCKS * BLOCK_SIZE)
    && (forall b :: 0 <= b < |img.blocks| ==> |img.blocks[b]| == BLOCK_SIZE)
    && (forall d :: 0 <= d < |img.dentries| ==>
          |img.dentries[d].name| == MAX_NAME + 1 && img.dentries[d].name[MAX_NAME] == NUL)
  }

  predicate InFile(img: Image, ino: nat, k: nat) {
    WellFormed(img) && ino < |img.inodes| && k < img.inodes[ino].length
  }

  /** The block number holding byte `k` of a file is one the image has. */
  predicate Stored(img: Image, ino: nat, k: nat)
    requires InFile(img, ino, k)
  {
    img.inodes[ino].blocks[k / BLOCK_SIZE] < |img.blocks|
  }

  function ByteAt(img: Image, ino: nat, k: nat): byte
    requires InFile(img, ino, k) && Stored(img, ino, k)
  {
    img.blocks[img.inodes[ino].blocks[k / BLOCK_SIZE]][k % BLOCK_SIZE]
  }

  // ---------------------------------------------------------------- read_data

  /** The return value, and what has been put at the start of the buffer by then. */
  datatype ReadResult = ReadResult(value: int, data: seq<byte>)

  /** The bytes from `k` on, up to `n` of them, stopping at a block the image does not have. */
  function Fetch(img: Image, ino: nat, k: nat, n: nat): (r: seq<byte>)
    requires n > 0 ==> InFile(img, ino, k + n - 1)
    ensures |r| <= n
    decreases n
  {
    if n == 0 || !Stored(img, ino, k) then [] else [ByteAt(img, ino, k)] + Fetch(img, ino, k + 1, n - 1)
  }

  /** Where reading really starts: the block index only counts offsets beyond one block. */
  function Start(offset: nat): (p: nat)
    ensures p == if offset == BLOCK_SIZE then 0 else offset
  {
    (if offset > BLOCK_SIZE then offset / BLOCK_SIZE else 0) * BLOCK_SIZE + offset % BLOCK_SIZE
  }

  function Wanted(img: Image, ino: nat, offset: nat, length: nat): (n: nat)
    requires ino < |img.inodes| && offset <= img.inodes[ino].length
    ensures n <= length && offset + n <= img.inodes[ino].length
  {
    var rest := img.inodes[ino].length - offset;
    if length < rest then length else rest
  }

  function ReadData(img: Image, ino: nat, offset: nat, length: nat): (r: ReadResult)
    requires WellFormed(img)
    ensures r.value == -1 || r.value == |r.data|
    ensures |r.data| <= length
  {
    if ino >= |img.inodes| || offset > img.inodes[ino].length then ReadResult(-1, [])
    else
      var n := Wanted(img, ino, offset, length);
      var data := Fetch(img, ino, Start(offset), n);
      ReadResult(if |data| == n then n else -1, data)
  }

  lemma {:induction false} FetchIs(img: Image, ino: nat, k: nat, n: nat, i: nat)
    requires n > 0 ==> InFile(img, ino, k + n - 1)
    requires i < |Fetch(img, ino, k, n)|
    ensures Stored(img, ino, k + i) && Fetch(img, ino, k, n)[i] == ByteAt(img, ino, k + i)
    decreases n
  {
    if i > 0 {
      FetchIs(img, ino, k + 1, n - 1, i - 1);
      assert k + 1 + (i - 1) == k + i;
    }
  }

  lemma {:induction false} FetchStops(img: Image, ino: nat, k: nat, n: nat)
    requires n > 0 ==> InFile(img, ino, k + n - 1)
    ensures var m := |Fetch(img, ino, k, n)|; m < n ==> !Stored(img, ino, k + m)
    decreases n
  {
    if n > 0 && Stored(img, ino, k) {
      FetchStops(img, ino, k + 1, n - 1);
    }
  }

  /** After `m` bytes, the next one is copied if its block exists; otherwise that was all. */
  lemma FetchNext(img: Image, ino: nat, k: nat, n: nat, m: nat)
    requires n > 0 ==> InFile(img, ino, k + n - 1)
    requires m <= |Fetch(img, ino, k, n)|
    ensures m < n && Stored(img, ino, k + m) ==>
              m < |Fetch(img, ino, k, n)| && Fetch(img, ino, k, n)[m] == ByteAt(img, ino, k + m)
    ensures m < n && !Stored(img, ino, k + m) ==> |Fetch(img, ino, k, n)| == m
  {
    FetchStops(img, ino, k, n);
    if m < |Fetch(img, ino, k, n)| {
      FetchIs(img, ino, k, n, m);
    }
  }

  /** read_data, copying byte by byte into `buf` */
  method ReadDataInto(img: Image, ino: nat, offset: nat, buf: array<byte>, length: nat) returns (r: int)
    requires WellFormed(img) && |ReadData(img, ino, offset, length).data| <= buf.Length
    modifies buf
    ensures var res := ReadData(img, ino, offset, length);
            r == res.value && buf[..] == res.data + old(buf[..])[|res.data|..]
  {
    if ino >= |img.inodes| {
      return -1;
    }
    if offset > img.inodes[ino].length {
      return -1;
    }
    if offset == img.inodes[ino].length {
      return 0;
    }
    var i := 0;
    if offset > BLOCK_SIZE {
      i := i + offset / BLOCK_SIZE;
    }
    ghost var n := Wanted(img, ino, offset, length);
    r := CopyBlocks(img, ino, i, offset, buf, length, n, Fetch(img, ino, Start(offset), n));
  }

  /** The copying loop of read_data, from byte `offset % BLOCK_SIZE` of the file's block `first`. */
  method CopyBlocks(img: Image, ino: nat, first: nat, offset: nat, buf: array<byte>, length: nat,
                    ghost n: nat, ghost data: seq<byte>)
    returns (r: int)
    requires InFile(img, ino, offset) && n == Wanted(img, ino, offset, length)
    requires first == if offset > BLOCK_SIZE then offset / BLOCK_SIZE else 0
    requires data == Fetch(img, ino, Start(offset), n) && |data| <= buf.Length
    modifies buf
    ensures r == if |data| == n then n else -1
    ensures buf[..] == data + old(buf[..])[|data|..]
  {
    var inode := img.inodes[ino];
    var i := first;
    var dataIdx := inode.blocks[i];
    var blockByte := offset % BLOCK_SIZE;
    var count := offset;
    var copied := 0;
    var reachedEnd := false;
    ghost var p := Start(offset);
    while copied < length && !reachedEnd
      invariant copied <= |data| && count == offset + copied && 0 <= i < MAX_BLOCKS
      invariant reachedEnd <==> count == inode.length
      invariant i * BLOCK_SIZE + blockByte == p + copied && 0 <= blockByte <= BLOCK_SIZE
      invariant dataIdx == inode.blocks[i]
      invariant forall k :: 0 <= k < copied ==> buf[k] == data[k]
      invariant forall k :: copied <= k < buf.Length ==> buf[k] == old(buf[k])
      decreases length - copied
    {
      if blockByte >= BLOCK_SIZE {
        blockByte := 0;
        i := i + 1;
        dataIdx := inode.blocks[i];
      }
      assert (p + copied) / BLOCK_SIZE == i && (p + copied) % BLOCK_SIZE == blockByte;
      FetchNext(img, ino, p, n, copied);
      if dataIdx >= |img.blocks| {
        return -1;
      }
      buf[copied] := img.blocks[dataIdx][blockByte];
      copied := copied + 1;
      count := count + 1;
      blockByte := blockByte + 1;
      if count >= inode.length {
        reachedEnd := true;
      }
    }
    return copied;
  }

  // ---------------------------------------------------------------- flat files

  /** How many data blocks a file of this length has. */
  function BlocksUsed(length: nat): (n: nat)
    ensures n * BLOCK_SIZE >= length && (n == 0 || (n - 1) * BLOCK_SIZE < length)
  {
    (length + BLOCK_SIZE - 1) / BLOCK_SIZE
  }

  predicate AllPresent(img: Image, numbers: seq<nat>) {
    forall b :: 0 <= b < |numbers| ==> numbers[b] < |img.blocks|
  }

  /** The numbers of a file's data blocks, in order. */
  function BlockNumbers(img: Image, ino: nat): (r: seq<nat>)
    requires WellFormed(img) && ino < |img.inodes|
    ensures |r| == BlocksUsed(img.inodes[ino].length)
  {
    img.inodes[ino].blocks[..BlocksUsed(img.inodes[ino].length)]
  }

  /** A file none of whose blocks is missing. */
  predicate Whole(img: Image, ino: nat) {
    WellFormed(img) && ino < |img.inodes| && AllPresent(img, BlockNumbers(img, ino))
  }

  /** Whole data blocks one after another. */
  function Concatenated(img: Image, numbers: seq<nat>): (f: seq<byte>)
    requires WellFormed(img) && AllPresent(img, numbers)
    ensures |f| == BLOCK_SIZE * |numbers|
  {
    if numbers == [] then [] else img.blocks[numbers[0]] + Concatenated(img, numbers[1..])
  }

  lemma {:induction false} ConcatenatedAt(img: Image, numbers: seq<nat>, k: nat, b: nat, i: nat)
    requires WellFormed(img) && AllPresent(img, numbers) && b < |numbers| && i < BLOCK_SIZE && k == BLOCK_SIZE * b + i
    ensures k < |Concatenated(img, numbers)| && Concatenated(img, numbers)[k] == img.blocks[numbers[b]][i]
    decreases b
  {
    if b > 0 {
      ConcatenatedAt(img, numbers[1..], k - BLOCK_SIZE, b - 1, i);
    }
  }

  /** The file as one sequence of bytes: its blocks one after another, cut to its length. */
  function File(img: Image, ino: nat): (f: seq<byte>)
    requires Whole(img, ino)
    ensures |f| == img.inodes[ino].length
  {
    Concatenated(img, BlockNumbers(img, ino))[..img.inodes[ino].length]
  }

  /** Byte by byte, what the code looks up is the flat file. */
  lemma FileAt(img: Image, ino: nat, k: nat)
    requires Whole(img, ino) && k < img.inodes[ino].length
    ensures Stored(img, ino, k) && File(img, ino)[k] == ByteAt(img, ino, k)
  {
    var numbers, b, i := BlockNumbers(img, ino), k / BLOCK_SIZE, k % BLOCK_SIZE;
    assert b < |numbers|;
    assert numbers[b] == img.inodes[ino].blocks[b];
    ConcatenatedAt(img, numbers, k, b, i);
  }

  /** Reading a flat file. */
  function FlatRead(f: seq<byte>, offset: nat, length: nat): seq<byte>
    requires offset <= |f|
  {
    if offset + length <= |f| then f[offset..offset + length] else f[offset..]
  }

  /** What read_data does with any whole file: a flat read of the same length, from `Start`. */
  lemma ReadWhole(img: Image, ino: nat, offset: nat, length: nat)
    requires Whole(img, ino) && offset <= img.inodes[ino].length
    ensures var n := Wanted(img, ino, offset, length);
            ReadData(img, ino, offset, length) == ReadResult(n, File(img, ino)[Start(offset)..Start(offset) + n])
  {
    var n := Wanted(img, ino, offset, length);
    var p := Start(offset);
    var data := Fetch(img, ino, p, n);
    FetchStops(img, ino, p, n);
    assert |data| == n by {
      if |data| < n {
        FileAt(img, ino, p + |data|);
      }
    }
    forall i | 0 <= i < n
      ensures data[i] == File(img, ino)[p..p + n][i]
    {
      FetchIs(img, ino, p, n, i);
      FileAt(img, ino, p + i);
    }
    assert data == File(img, ino)[p..p + n];
  }

  /** Block reads refine flat reads at every offset but 4096. */
  lemma ReadRefines(img: Image, ino: nat, offset: nat, length: nat)
    requires Whole(img, ino) && offset <= img.inodes[ino].length && offset != BLOCK_SIZE
    ensures var flat := FlatRead(File(img, ino), offset, length);
            ReadData(img, ino, offset, length) == ReadResult(|flat|, flat)
  {
    ReadWhole(img, ino, offset, length);
  }

  /** read_data fails exactly when the inode or the offset is out of range, or it meets a missing block. */
  lemma ReadFails(img: Image, ino: nat, offset: nat, length: nat)
    requires WellFormed(img)
    ensures ReadData(img, ino, offset, length).value == -1 <==>
            || ino >= |img.inodes|
            || offset > img.inodes[ino].length
            || exists k :: Start(offset) <= k < Start(offset) + Wanted(img, ino, offset, length) && !Stored(img, ino, k)
  {
    if ino < |img.inodes| && offset <= img.inodes[ino].length {
      var n := Wanted(img, ino, offset, length);
      var p := Start(offset);
      var m := |Fetch(img, ino, p, n)|;
      FetchStops(img, ino, p, n);
      if m < n {
        assert !Stored(img, ino, p + m);
      } else {
        forall k | p <= k < p + n
          ensures Stored(img, ino, k)
        {
          FetchIs(img, ino, p, n, k - p);
        }
      }
    }
  }

  ghost predicate Refines(offset: nat) {
    forall img, ino: nat, length: nat :: Whole(img, ino) && offset <= img.inodes[ino].length ==>
      var flat := FlatRead(File(img, ino), offset, length);
      ReadData(img, ino, offset, length) == ReadResult(|flat|, flat)
  }

  function Filled(b: byte): (r: seq<byte>)
    ensures |r| == BLOCK_SIZE && forall i :: 0 <= i < BLOCK_SIZE ==> r[i] == b
  {
    seq(BLOCK_SIZE, _ => b)
  }

  /** A two-block file, all zeros and then all ones. */
  function TwoBlocks(): (img: Image)
    ensures Whole(img, 0) && img.inodes[0].length == 2 * BLOCK_SIZE
  {
    var numbers := seq(MAX_BLOCKS, i => if i == 0 then 0 else 1);
    Image([Inode(2 * BLOCK_SIZE, numbers)], [Filled(0), Filled(1)], [])
  }

  lemma TwoBlocksFile()
    ensures File(TwoBlocks(), 0)[0] == 0 && File(TwoBlocks(), 0)[BLOCK_SIZE] == 1
  {
    FileAt(TwoBlocks(), 0, 0);
    FileAt(TwoBlocks(), 0, BLOCK_SIZE);
  }

  /** An offset is safe for every file and every length if and only if it is not 4096. */
  lemma OffsetExact(offset: nat)
    ensures Refines(offset) <==> offset != BLOCK_SIZE
  {
    if offset != BLOCK_SIZE {
      forall img, ino: nat, length: nat | Whole(img, ino) && offset <= img.inodes[ino].length
        ensures var flat := FlatRead(File(img, ino), offset, length);
                ReadData(img, ino, offset, length) == ReadResult(|flat|, flat)
      {
        ReadRefines(img, ino, offset, length);
      }
    } else {
      var img := TwoBlocks();
      TwoBlocksFile();
      ReadWhole(img, 0, BLOCK_SIZE, 1);
      var flat := FlatRead(File(img, 0), BLOCK_SIZE, 1);
      assert flat[0] == 1;
      assert ReadData(img, 0, BLOCK_SIZE, 1).data[0] == 0;
    }
  }
}
