/** What several components share. */
module Basics {
  datatype Option<+T> = None | Some(value: T)

  /** A page in bytes. */
  const PAGE_SIZE: nat := 4096

  const INVALID_PAGE_ID: int := -1

  const TWO_TO_THE_32 := 0x1_0000_0000

  /** The unsigned 32-bit increment. */
  function Incremented(x: nat): nat {
    if x == TWO_TO_THE_32 - 1 then 0 else x + 1
  }

  /** The unsigned 32-bit decrement. */
  function Decremented(x: nat): nat {
    if x == 0 then TWO_TO_THE_32 - 1 else x - 1
  }

  predicate Distinct<T(==)>(s: seq<T>) {
    forall i, j :: 0 <= i < j < |s| ==> s[i] != s[j]
  }

  lemma SubsetSize<T>(small: set<T>, large: set<T>)
    requires small <= large
    ensures |small| <= |large|
    ensures |small| == |large| ==> small == large
  {
    assert large == small + (large - small);
  }
}
