/** Small things that several modules share. */
module Basics {

  datatype Option<+T> = None | Some(value: T)

  /** The number of values of a 32-bit counter. */
  const U32 := 0x1_0000_0000

  function Min(a: nat, b: nat): nat { if a < b then a else b }

  lemma Glue<T>(a: seq<T>, b: seq<T>, c: seq<T>)
    ensures a + (b + c) == (a + b) + c
  {
  }

  lemma SubsetSize<T>(a: set<T>, b: set<T>)
    requires a <= b
    ensures |a| <= |b| && (a != b ==> |a| < |b|)
  {
    assert b == a + (b - a) && |b| == |a| + |b - a|;
  }
}
