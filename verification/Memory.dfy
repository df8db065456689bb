/** memset, memcpy and memmove: the align, dword and tail phases over one byte-addressed memory. */
module Memory {
  import opened CStrings

  ghost predicate OutsideSame(mem: array<byte>, was: seq<byte>, dest: nat, n: nat)
    requires |was| == mem.Length
    reads mem
  {
    forall k :: 0 <= k < mem.Length && !(dest <= k < dest + n) ==> mem[k] == was[k]
  }

  /** `n` bytes at `dest` hold what `n` bytes at `src` held before; nothing else has changed. */
  ghost predicate Copied(mem: array<byte>, was: seq<byte>, dest: nat, src: nat, n: nat)
    requires |was| == mem.Length && dest + n <= mem.Length && src + n <= mem.Length
    reads mem
  {
    && OutsideSame(mem, was, dest, n)
    && forall k :: dest <= k < dest + n ==> mem[k] == was[src + (k - dest)]
  }

  /** stosl */
  method StoreDword(mem: array<byte>, edi: nat, b: byte)
    requires edi + 4 <= mem.Length
    modifies mem
    ensures forall k :: 0 <= k < mem.Length ==> mem[k] == if edi <= k < edi + 4 then b else old(mem[k])
  {
    mem[edi], mem[edi + 1], mem[edi + 2], mem[edi + 3] := b, b, b, b;
  }

  /** memset: byte by byte up to a multiple of four, then dwords, then the remaining bytes */
  method MemSet(mem: array<byte>, s: nat, c: int, n: nat)
    requires s + n <= mem.Length
    modifies mem
    ensures forall k :: 0 <= k < mem.Length ==> mem[k] == if s <= k < s + n then c % 256 else old(mem[k])
  {
    var al: byte := c % 256;
    var edi, ecx := s, n;
    while ecx != 0 && edi % 4 != 0
      invariant s <= edi && edi + ecx == s + n && 0 <= ecx
      invariant forall k :: 0 <= k < mem.Length ==> mem[k] == if s <= k < edi then al else old(mem[k])
    {
      mem[edi] := al;
      edi := edi + 1;
      ecx := ecx - 1;
    }
    if ecx == 0 {
      return;
    }
    var edx := ecx % 4;
    ecx := ecx / 4;
    while ecx != 0
      invariant s <= edi && 0 <= ecx && edi + 4 * ecx + edx == s + n
      invariant forall k :: 0 <= k < mem.Length ==> mem[k] == if s <= k < edi then al else old(mem[k])
    {
      StoreDword(mem, edi, al);
      edi := edi + 4;
      ecx := ecx - 1;
    }
    while edx != 0
      invariant s <= edi && 0 <= edx && edi + edx == s + n
      invariant forall k :: 0 <= k < mem.Length ==> mem[k] == if s <= k < edi then al else old(mem[k])
    {
      mem[edi] := al;
      edi := edi + 1;
      edx := edx - 1;
    }
  }

  /** The ranges for which copying forward is copying. */
  predicate ForwardSafe(dest: nat, src: nat, n: nat) {
    dest <= src || src + n <= dest
  }

  /** After `i` bytes of a forward copy. */
  ghost predicate Progress(mem: array<byte>, was: seq<byte>, dest: nat, src: nat, n: nat, i: nat)
    requires |was| == mem.Length && dest + n <= mem.Length && src + n <= mem.Length
    reads mem
  {
    i <= n && OutsideSame(mem, was, dest, i) && (ForwardSafe(dest, src, n) ==> Copied(mem, was, dest, src, i))
  }

  /** `m` more bytes, all read before any is written: movsb for one, movsl for four. */
  method MoveBytes(mem: array<byte>, dest: nat, src: nat, n: nat, i: nat, m: nat, ghost was: seq<byte>)
    requires |was| == mem.Length && dest + n <= mem.Length && src + n <= mem.Length
    requires Progress(mem, was, dest, src, n, i) && i + m <= n
    modifies mem
    ensures Progress(mem, was, dest, src, n, i + m)
  {
    var block := mem[src + i..src + i + m];
    forall k | 0 <= k < m { mem[dest + i + k] := block[k]; }
    forall k | 0 <= k < mem.Length
      ensures mem[k] == if dest + i <= k < dest + i + m then block[k - (dest + i)] else old(mem[k])
    {
      assert dest + i <= k < dest + i + m ==> mem[dest + i + (k - (dest + i))] == block[k - (dest + i)];
    }
    if ForwardSafe(dest, src, n) {
      forall k | dest + i <= k < dest + i + m
        ensures mem[k] == was[src + (k - dest)]
      {
        assert block[k - (dest + i)] == old(mem[src + (k - dest)]);
      }
    }
  }

  /** memcpy: never writes outside its `n` bytes, and copies them whenever a forward copy can. */
  method MemCpy(mem: array<byte>, dest: nat, src: nat, n: nat)
    requires dest + n <= mem.Length && src + n <= mem.Length
    modifies mem
    ensures OutsideSame(mem, old(mem[..]), dest, n)
    ensures ForwardSafe(dest, src, n) ==> Copied(mem, old(mem[..]), dest, src, n)
  {
    ghost var was := mem[..];
    var i, ecx := 0, n;
    while ecx != 0 && (dest + i) % 4 != 0
      invariant 0 <= i && 0 <= ecx && i + ecx == n && Progress(mem, was, dest, src, n, i)
    {
      MoveBytes(mem, dest, src, n, i, 1, was);
      i := i + 1;
      ecx := ecx - 1;
    }
    if ecx == 0 {
      return;
    }
    var edx := ecx % 4;
    ecx := ecx / 4;
    while ecx != 0
      invariant 0 <= i && 0 <= ecx && i + 4 * ecx + edx == n && Progress(mem, was, dest, src, n, i)
    {
      MoveBytes(mem, dest, src, n, i, 4, was);
      i := i + 4;
      ecx := ecx - 1;
    }
    while edx != 0
      invariant 0 <= i && 0 <= edx && i + edx == n && Progress(mem, was, dest, src, n, i)
    {
      MoveBytes(mem, dest, src, n, i, 1, was);
      i := i + 1;
      edx := edx - 1;
    }
  }

  /** movsb with the direction flag set: the byte before the ones copied so far */
  method MoveDown(mem: array<byte>, dest: nat, src: nat, n: nat, ghost was: seq<byte>)
    requires |was| == mem.Length && src < dest && 0 < dest + n <= mem.Length && src + n <= mem.Length
    requires src > 0 && dest > 0 && Copied(mem, was, dest, src, n)
    modifies mem
    ensures Copied(mem, was, dest - 1, src - 1, n + 1)
  {
    var from, to := src - 1, dest - 1;
    assert mem[from] == was[from];
    mem[to] := mem[from];
    forall k | to <= k < to + (n + 1)
      ensures mem[k] == was[from + (k - to)]
    {
      assert k > to ==> mem[k] == old(mem[k]) == was[src + (k - dest)];
    }
  }

  /** memmove: section 7.21.2.2 of ISO C99, for every overlap; `df` is the direction flag it leaves behind */
  method MemMove(mem: array<byte>, dest: nat, src: nat, n: nat) returns (df: bool)
    requires dest + n <= mem.Length && src + n <= mem.Length
    modifies mem
    ensures Copied(mem, old(mem[..]), dest, src, n)
    ensures df <==> src < dest
  {
    df := false;
    ghost var was := mem[..];
    var ecx := n;
    if src >= dest {
      var i := 0;
      while ecx != 0
        invariant 0 <= ecx && i + ecx == n && Progress(mem, was, dest, src, n, i)
      {
        MoveBytes(mem, dest, src, n, i, 1, was);
        i := i + 1;
        ecx := ecx - 1;
      }
    } else {
      df := true;
      MoveBackward(mem, dest, src, n);
    }
  }

  /** rep movsb with the direction flag set: the last byte first */
  method MoveBackward(mem: array<byte>, dest: nat, src: nat, n: nat)
    requires src < dest && dest + n <= mem.Length
    modifies mem
    ensures Copied(mem, old(mem[..]), dest, src, n)
  {
    ghost var was := mem[..];
    // esi and edi start at the last byte and are kept one beyond it here
    var ecx, esi, edi := n, src + n, dest + n;
    while ecx != 0
      invariant 0 <= ecx <= n && edi == dest + ecx && esi == src + ecx
      invariant Copied(mem, was, edi, esi, n - ecx)
    {
      MoveDown(mem, edi, esi, n - ecx, was);
      edi, esi, ecx := edi - 1, esi - 1, ecx - 1;
    }
  }
}
