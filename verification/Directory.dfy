/** Lookup by name and by index, and listing, over the directory entries. */
module Directory {
  import opened CStrings
  import opened FileSystem

  /** The dentry_t a lookup fills in. */
  datatype Found = Missing | Found(name: seq<byte>, fileType: nat, inode: nat)

  function NameOf(img: Image, i: nat): seq<byte>
    requires WellFormed(img) && i < |img.dentries|
  {
    Text(img.dentries[i].name)
  }

  /** The number of the first entry from `i` on whose whole name is `name`, or the number of entries. */
  function FirstNamed(img: Image, name: seq<byte>, i: nat): (r: nat)
    requires WellFormed(img) && i <= |img.dentries|
    ensures i <= r <= |img.dentries|
    ensures r < |img.dentries| ==> NameOf(img, r) == name
    ensures forall k :: i <= k < r ==> NameOf(img, k) != name
    decreases |img.dentries| - i
  {
    if i == |img.dentries| || NameOf(img, i) == name then i else FirstNamed(img, name, i + 1)
  }

  function ByName(img: Image, name: seq<byte>): (f: Found)
    requires WellFormed(img)
    ensures f.Found? ==> f.name == name && 1 <= |name| <= MAX_NAME && NUL !in name
  {
    if 1 <= |name| <= MAX_NAME then
      var i := FirstNamed(img, name, 0);
      if i < |img.dentries| then Found(name, img.dentries[i].fileType, img.dentries[i].inode) else Missing
    else Missing
  }

  function ByIndex(img: Image, i: nat): Found
    requires WellFormed(img)
  {
    if i < |img.dentries| then Found(NameOf(img, i), img.dentries[i].fileType, img.dentries[i].inode) else Missing
  }

  /** Comparing the first strlen(name) characters and then the lengths is comparing the names. */
  lemma SameName(a: seq<byte>, b: seq<byte>)
    ensures Cut(a, |b|) == Cut(b, |b|) && |a| == |b| <==> a == b
  {
  }

  /** read_dentry_by_name, for a NUL-terminated `fname` */
  method ReadDentryByName(img: Image, fname: seq<byte>) returns (r: Found)
    requires WellFormed(img) && NUL in fname
    ensures r == ByName(img, Text(fname))
  {
    var len := StrLen(fname);
    if len < 1 {
      return Missing;
    }
    if len > 32 {
      return Missing;
    }
    for i := 0 to |img.dentries|
      invariant FirstNamed(img, Text(fname), 0) == FirstNamed(img, Text(fname), i)
    {
      var d := img.dentries[i];
      var cmp := StrNCmp(d.name, fname, len);
      var dlen := StrLen(d.name);
      SameName(Text(d.name), Text(fname));
      if cmp == 0 && len == dlen {
        return Found(fname[..len], d.fileType, d.inode);
      }
    }
    return Missing;
  }

  /** read_dentry_by_index */
  method ReadDentryByIndex(img: Image, index: nat) returns (r: Found)
    requires WellFormed(img)
    ensures r == ByIndex(img, index)
  {
    if index >= |img.dentries| {
      return Missing;
    }
    var d := img.dentries[index];
    var len := StrLen(d.name);
    return Found(d.name[..len], d.fileType, d.inode);
  }

  /** A name is found exactly when some entry has it, if it is 1 to 32 characters long. */
  lemma FoundExactly(img: Image, name: seq<byte>)
    requires WellFormed(img)
    ensures ByName(img, name).Found? <==>
            1 <= |name| <= MAX_NAME && exists i :: 0 <= i < |img.dentries| && NameOf(img, i) == name
  {
    var r := FirstNamed(img, name, 0);
    if r < |img.dentries| {
      assert NameOf(img, r) == name;
    }
  }

  /** What is found is the first entry with that name: its type and its inode number. */
  lemma FoundIsFirst(img: Image, name: seq<byte>, i: nat)
    requires WellFormed(img) && 1 <= |name| <= MAX_NAME && i < |img.dentries| && Text(img.dentries[i].name) == name
    requires forall k :: 0 <= k < i ==> Text(img.dentries[k].name) != name
    ensures ByName(img, name) == Found(name, img.dentries[i].fileType, img.dentries[i].inode)
  {
    var r := FirstNamed(img, name, 0);
    assert r <= i by {
      assert NameOf(img, i) == name;
    }
    assert NameOf(img, r) == name;
  }

  predicate UniqueNames(img: Image)
    requires WellFormed(img)
  {
    && (forall i :: 0 <= i < |img.dentries| ==> NameOf(img, i) != [])
    && (forall i, j :: 0 <= i < j < |img.dentries| ==> NameOf(img, i) != NameOf(img, j))
  }

  /** With unique non-empty names, the two lookups agree on every entry. */
  lemma LookupsAgree(img: Image, i: nat)
    requires WellFormed(img) && UniqueNames(img) && i < |img.dentries|
    ensures ByName(img, NameOf(img, i)) == ByIndex(img, i)
  {
    var r := FirstNamed(img, NameOf(img, i), 0);
    assert NameOf(img, i) != [];
    assert r <= i;
    assert r == i;
  }

  // ---------------------------------------------------------------- listing

  /** dir_readnew: the next name and the new index; after the last name, the index starts over. */
  function ListNext(img: Image, at: nat): (seq<byte>, nat)
    requires WellFormed(img)
  {
    if at >= |img.dentries| then ([], 0) else (NameOf(img, at), at + 1)
  }

  /** The results of `n` consecutive calls. */
  function Listing(img: Image, at: nat, n: nat): seq<seq<byte>>
    requires WellFormed(img)
    decreases n
  {
    if n == 0 then [] else
      var (name, next) := ListNext(img, at);
      [name] + Listing(img, next, n - 1)
  }

  function AfterCalls(img: Image, at: nat, n: nat): nat
    requires WellFormed(img)
    decreases n
  {
    if n == 0 then at else AfterCalls(img, ListNext(img, at).1, n - 1)
  }

  function Names(img: Image, from: nat): (r: seq<seq<byte>>)
    requires WellFormed(img) && from <= |img.dentries|
    ensures |r| == |img.dentries| - from
    ensures forall i :: 0 <= i < |r| ==> r[i] == NameOf(img, from + i)
  {
    seq(|img.dentries| - from, i requires 0 <= i < |img.dentries| - from => NameOf(img, from + i))
  }

  lemma ListingStep(img: Image, at: nat, n: nat, next: nat)
    requires WellFormed(img) && n > 0 && next == ListNext(img, at).1
    ensures Listing(img, at, n) == [ListNext(img, at).0] + Listing(img, next, n - 1)
    ensures AfterCalls(img, at, n) == AfterCalls(img, next, n - 1)
  {
  }

  /** From the start, num_dentries + 1 calls list every name in order, then the empty end, and start over. */
  lemma {:induction false} ListsAll(img: Image, at: nat, n: nat)
    requires WellFormed(img) && at <= |img.dentries| && n == |img.dentries| - at + 1
    ensures Listing(img, at, n) == Names(img, at) + [[]] && AfterCalls(img, at, n) == 0
    decreases n
  {
    if at < |img.dentries| {
      var name, rest := NameOf(img, at), Names(img, at + 1);
      ListingStep(img, at, n, at + 1);
      ListsAll(img, at + 1, n - 1);
      assert Names(img, at) == [name] + rest;
      assert [name] + (rest + [[]]) == [name] + rest + [[]];
    } else {
      ListingStep(img, at, n, 0);
      assert Listing(img, 0, 0) == [] && Names(img, at) == [];
    }
  }

  /** A buffer with the string `t` and its NUL written over the start of `was`. */
  lemma Assembled(b: seq<byte>, t: seq<byte>, was: seq<byte>)
    requires |t| < |b| == |was| && b[|t|] == NUL
    requires forall k :: 0 <= k < |t| ==> b[k] == t[k]
    requires forall k :: |t| < k < |b| ==> b[k] == was[k]
    ensures b == t + [NUL] + was[|t| + 1..]
  {
  }

  class DirReader {
    var index: nat

    constructor ()
      ensures index == 0
    {
      index := 0;
    }

    /** dir_readnew; the program's buffer receives the name and its NUL */
    method Next(img: Image, buf: array<byte>) returns (r: nat)
      requires WellFormed(img) && buf.Length > MAX_NAME
      modifies this, buf
      ensures var (name, next) := ListNext(img, old(index));
              && index == next && r == |name|
              && buf[..] == if old(index) < |img.dentries| then name + [NUL] + old(buf[..])[r + 1..] else old(buf[..])
    {
      if index >= |img.dentries| {
        index := 0;
        return 0;
      }
      var name := img.dentries[index].name;
      var len := StrLen(name);
      var i := 0;
      while name[i] != NUL
        invariant i <= len && index == old(index)
        invariant forall k :: 0 <= k < i ==> buf[k] == name[k]
        invariant forall k :: i <= k < buf.Length ==> buf[k] == old(buf[k])
        decreases len - i
      {
        buf[i] := name[i];
        i := i + 1;
      }
      FirstNul(name, i);
      buf[i] := NUL;
      Assembled(buf[..], Text(name), old(buf[..]));
      index := index + 1;
      return len;
    }
  }
}
