/**
 * file_name of a PCB: eight rows of 32 bytes one after another, and behind them the first byte of ESP0.
 * A name of 32 characters fills its row, and its NUL goes into the byte behind.
 */
module StoredNames {
  import opened CStrings
  import opened FileSystem
  import opened Directory

  const FDS := 8

  /** The size of file_name, and of a row of it together with the byte behind the row. */
  const NAMES := 256
  const SPAN := 33

  /** strcpy of `name` to row `i` */
  function Store(names: seq<byte>, i: nat, name: seq<byte>): (r: seq<byte>)
    requires |names| == NAMES + 1 && i < FDS && |name| <= MAX_NAME
    ensures |r| == |names|
    ensures forall k :: 0 <= k < |names| && !(MAX_NAME * i <= k <= MAX_NAME * i + |name|) ==> r[k] == names[k]
    ensures r[MAX_NAME * i..MAX_NAME * i + |name|] == name && r[MAX_NAME * i + |name|] == NUL
  {
    names[..MAX_NAME * i] + name + [NUL] + names[MAX_NAME * i + |name| + 1..]
  }

  /** Row `i` of the names and the byte behind it. */
  function Row(names: seq<byte>, i: nat): (r: seq<byte>)
    requires |names| == NAMES + 1 && i < FDS
    ensures |r| == SPAN
  {
    names[MAX_NAME * i..MAX_NAME * i + SPAN]
  }

  /** The lookup of the string that starts in row `i`. Without a NUL there it is too long to be a name. */
  function Lookup(img: Image, names: seq<byte>, i: nat): (f: Found)
    requires WellFormed(img) && |names| == NAMES + 1 && i < FDS
  {
    if NUL in Row(names, i) then ByName(img, Text(Row(names, i))) else Missing
  }

  /** The name stored in row `i` leaves no room in the row for its NUL. */
  predicate FillsRow(names: seq<byte>, i: nat)
    requires |names| == NAMES + 1 && i < FDS
  {
    NUL !in Row(names, i)[..MAX_NAME]
  }

  /** Storing `name` in row `i` damages the name in row `fd`: one of two neighbours has 32 characters. */
  predicate Damages(names: seq<byte>, i: nat, name: seq<byte>, fd: nat)
    requires |names| == NAMES + 1 && i < FDS && fd < FDS
  {
    (fd == i + 1 && |name| == MAX_NAME) || (fd + 1 == i && FillsRow(names, fd))
  }

  /** A name of up to 32 characters can be looked up right after it has been stored. */
  lemma StoredIsFound(img: Image, names: seq<byte>, i: nat, name: seq<byte>)
    requires WellFormed(img) && |names| == NAMES + 1 && i < FDS && |name| <= MAX_NAME && NUL !in name
    ensures Lookup(img, Store(names, i, name), i) == ByName(img, name)
  {
    var row := Row(Store(names, i, name), i);
    assert row[..|name|] == name && row[|name|] == NUL;
    TextIsPrefix(row, |name|);
  }

  /** Storing a name in one row leaves another row's lookup alone if and only if it does not damage it. */
  lemma StoreExact(img: Image, names: seq<byte>, i: nat, name: seq<byte>, fd: nat)
    requires WellFormed(img) && |names| == NAMES + 1 && i < FDS && fd < FDS && fd != i
    requires 1 <= |name| <= MAX_NAME && NUL !in name && Lookup(img, names, fd).Found?
    ensures var after := Lookup(img, Store(names, i, name), fd);
            if Damages(names, i, name, fd) then after == Missing else after == Lookup(img, names, fd)
  {
    var r := Store(names, i, name);
    if fd + 1 == i {
      StoreAbove(img, names, i, name, fd);
    } else if fd == i + 1 && |name| == MAX_NAME {
      assert Row(r, fd)[0] == NUL;
      assert Text(Row(r, fd)) == [];
    } else {
      assert Row(r, fd) == Row(names, fd);
    }
  }

  lemma StoreAbove(img: Image, names: seq<byte>, i: nat, name: seq<byte>, fd: nat)
    requires WellFormed(img) && |names| == NAMES + 1 && i < FDS && fd + 1 == i
    requires 1 <= |name| <= MAX_NAME && NUL !in name && Lookup(img, names, fd).Found?
    ensures var after := Lookup(img, Store(names, i, name), fd);
            if FillsRow(names, fd) then after == Missing else after == Lookup(img, names, fd)
  {
    var was, now := Row(names, fd), Row(Store(names, i, name), fd);
    assert now[..MAX_NAME] == was[..MAX_NAME];
    assert now[MAX_NAME] == name[0];
    assert now == now[..MAX_NAME] + [name[0]] && was == was[..MAX_NAME] + [was[MAX_NAME]];
    if !FillsRow(names, fd) {
      var t := Text(was);
      assert |t| < MAX_NAME by {
        var k :| 0 <= k < MAX_NAME && was[k] == NUL;
        assert |t| <= k;
      }
      assert now[..|t|] == t && now[|t|] == NUL;
      TextIsPrefix(now, |t|);
    }
  }
}
