/** What several parts of the kernel share. */
module Common {

  /** The number of virtual terminals. */
  const TERMS := 3

  predicate NoRepeat<T(==)>(c: seq<T>) {
    forall i, j :: 0 <= i < j < |c| ==> c[i] != c[j]
  }
}
