/** Bytes and NUL-terminated strings as the kernel and the user programs handle them. */
module CStrings {

  type byte = x: int | 0 <= x < 256

  const NUL: byte := 0
  const TAB: byte := 9
  const NEWLINE: byte := 10
  const CARRIAGE_RETURN: byte := 13
  const SPACE: byte := 32

  /** The text of a NUL-terminated string: everything before its first NUL. */
  function Text(s: seq<byte>): (r: seq<byte>)
    requires NUL in s
    ensures |r| < |s| && r == s[..|r|] && s[|r|] == NUL && NUL !in r
  {
    if s[0] == NUL then [] else [s[0]] + Text(s[1..])
  }

  /** `Text` is determined by where the first NUL is. */
  lemma {:induction false} TextIsPrefix(s: seq<byte>, n: nat)
    requires n < |s| && s[n] == NUL && NUL !in s[..n]
    ensures Text(s) == s[..n]
    decreases n
  {
    if n > 0 {
      assert s[..n][0] == s[0];
      assert s[1..][..n - 1] == s[..n][1..];
      TextIsPrefix(s[1..], n - 1);
    }
  }

  /** strlen */
  method StrLen(s: seq<byte>) returns (len: nat)
    requires NUL in s
    ensures len == |Text(s)|
  {
    len := 0;
    while s[len] != NUL
      invariant len <= |Text(s)|
      decreases |s| - len
    {
      len := len + 1;
    }
    FirstNul(s, len);
  }

  predicate SameUpto(a: seq<byte>, b: seq<byte>, i: nat) {
    i <= |a| && i <= |b| && forall k :: 0 <= k < i ==> a[k] == b[k]
  }

  lemma SameCut(a: seq<byte>, b: seq<byte>, i: nat, n: nat)
    requires SameUpto(a, b, i) && (i == n || (i == |a| == |b| && i <= n))
    ensures Cut(a, n) == Cut(b, n)
  {
  }

  /** A byte read as a signed character. */
  function Signed(b: byte): int {
    if b < 128 then b else b - 256
  }

  /** `i`, below `n`, is the first place where the two strings differ. */
  predicate FirstDifference(s1: seq<byte>, s2: seq<byte>, n: nat, i: nat)
    requires NUL in s1 && NUL in s2
  {
    i < n && i <= |Text(s1)| && i <= |Text(s2)| && s1[..i] == s2[..i] && s1[i] != s2[i]
  }

  /**
   * The kernel's strncmp. The result is zero exactly when the two texts, each cut to `n` characters,
   * are the same; otherwise it is the difference, of signed characters, where they first differ.
   */
  method StrNCmp(s1: seq<byte>, s2: seq<byte>, n: nat) returns (r: int)
    requires NUL in s1 && NUL in s2
    ensures r == 0 <==> Cut(Text(s1), n) == Cut(Text(s2), n)
    ensures r != 0 ==> exists i: nat :: FirstDifference(s1, s2, n, i) && r == Signed(s1[i]) - Signed(s2[i])
  {
    ghost var t1, t2 := Text(s1), Text(s2);
    var i := 0;
    while i < n
      invariant i <= n && SameUpto(t1, t2, i)
    {
      if s1[i] != s2[i] || s1[i] == NUL {
        r := Signed(s1[i]) - Signed(s2[i]);
        if r == 0 {
          EndTogether(s1, s2, i, n);
        } else {
          CutDiffers(s1, s2, i, n);
        }
        return;
      }
      i := i + 1;
    }
    SameCut(t1, t2, n, n);
    r := 0;
  }

  /** The user library's strncmp, which loops differently and takes characters as unsigned. */
  method UserStrNCmp(s1: seq<byte>, s2: seq<byte>, n: nat) returns (r: int)
    requires NUL in s1 && NUL in s2
    ensures r == 0 <==> Cut(Text(s1), n) == Cut(Text(s2), n)
    ensures r != 0 ==> exists i: nat :: FirstDifference(s1, s2, n, i) && r == s1[i] as int - s2[i] as int
  {
    if n == 0 {
      return 0;
    }
    ghost var t1, t2 := Text(s1), Text(s2);
    var i: nat, left: nat := 0, n;
    while s1[i] == s2[i]
      invariant i < n && left == n - i && SameUpto(t1, t2, i)
      decreases left
    {
      if s1[i] == NUL {
        EndTogether(s1, s2, i, n);
        return 0;
      }
      left := left - 1;
      if left == 0 {
        SameCut(t1, t2, n, n);
        return 0;
      }
      i := i + 1;
    }
    CutDiffers(s1, s2, i, n);
    r := s1[i] as int - s2[i] as int;
  }

  function Cut(t: seq<byte>, n: nat): (r: seq<byte>)
    ensures |r| == if |t| < n then |t| else n
    ensures r <= t
  {
    if |t| <= n then t else t[..n]
  }

  lemma FirstNul(s: seq<byte>, i: nat)
    requires NUL in s && i <= |Text(s)| && s[i] == NUL
    ensures |Text(s)| == i
  {
    assert s[..i] == Text(s)[..i];
    TextIsPrefix(s, i);
  }

  lemma EndTogether(s1: seq<byte>, s2: seq<byte>, i: nat, n: nat)
    requires NUL in s1 && NUL in s2
    requires i < n && SameUpto(Text(s1), Text(s2), i) && s1[i] == s2[i] == NUL
    ensures Cut(Text(s1), n) == Cut(Text(s2), n)
  {
    FirstNul(s1, i);
    FirstNul(s2, i);
    SameCut(Text(s1), Text(s2), i, n);
  }

  lemma CutDiffers(s1: seq<byte>, s2: seq<byte>, i: nat, n: nat)
    requires NUL in s1 && NUL in s2
    requires i < n && SameUpto(Text(s1), Text(s2), i) && s1[i] != s2[i]
    ensures FirstDifference(s1, s2, n, i) && Cut(Text(s1), n) != Cut(Text(s2), n)
  {
    assert s1[..i] == Text(s1)[..i] && s2[..i] == Text(s2)[..i];
    var c1, c2 := Cut(Text(s1), n), Cut(Text(s2), n);
    if i < |Text(s1)| && i < |Text(s2)| {
      assert c1[i] == s1[i] && c2[i] == s2[i];
    } else {
      assert |c1| != |c2|;
    }
  }

  lemma Regroup(a: seq<byte>, b: seq<byte>, c: seq<byte>)
    ensures a + (b + c) == a + b + c
  {
  }

  function Overwrite(s: seq<byte>, at: nat, c: byte): (r: seq<byte>)
    requires at < |s|
    ensures |r| == |s|
  {
    s[at := c]
  }
}
