/** Ascending order on numbers: the order `sort_unstable` puts a vector of hashes in. */
module Sorting {

  predicate Ascending(s: seq<nat>) { forall i, j :: 0 <= i < j < |s| ==> s[i] <= s[j] }

  function Insert(x: nat, s: seq<nat>): (r: seq<nat>)
    requires Ascending(s)
    ensures Ascending(r) && multiset(r) == multiset(s) + multiset{x}
  {
    if s == [] || x <= s[0] then [x] + s
    else
      var rest := Insert(x, s[1..]);
      assert s == [s[0]] + s[1..];
      FromMultiset(rest, s[1..], x, s[0]);
      [s[0]] + rest
  }

  /** Every element of `rest` is `x` or comes from `tail`, so a lower bound of both bounds it. */
  lemma FromMultiset(rest: seq<nat>, tail: seq<nat>, x: nat, low: nat)
    requires multiset(rest) == multiset(tail) + multiset{x}
    requires low <= x && forall i :: 0 <= i < |tail| ==> low <= tail[i]
    ensures forall i :: 0 <= i < |rest| ==> low <= rest[i]
  {
    forall i | 0 <= i < |rest| ensures low <= rest[i] {
      assert rest[i] in multiset(rest);
      assert rest[i] == x || rest[i] in multiset(tail);
    }
  }

  function Sorted(s: seq<nat>): (r: seq<nat>)
    ensures Ascending(r) && multiset(r) == multiset(s)
  {
    if s == [] then []
    else
      assert s == [s[0]] + s[1..];
      Insert(s[0], Sorted(s[1..]))
  }

  lemma {:induction false} AscendingIsUnique(a: seq<nat>, b: seq<nat>)
    requires Ascending(a) && Ascending(b) && multiset(a) == multiset(b)
    ensures a == b
  {
    assert |multiset(a)| == |a| && |multiset(b)| == |b|;
    if a != [] {
      LeastFirst(a, b);
      LeastFirst(b, a);
      TailMultiset(a);
      TailMultiset(b);
      AscendingIsUnique(a[1..], b[1..]);
      assert a == [a[0]] + a[1..] && b == [b[0]] + b[1..];
    }
  }

  lemma LeastFirst(a: seq<nat>, b: seq<nat>)
    requires Ascending(a) && multiset(a) == multiset(b) && a != [] && b != []
    ensures a[0] <= b[0]
  {
    assert b[0] in multiset(a);
    var i :| 0 <= i < |a| && a[i] == b[0];
  }

  lemma TailMultiset(a: seq<nat>)
    requires a != []
    ensures multiset(a[1..]) == multiset(a) - multiset{a[0]}
  {
    assert a == [a[0]] + a[1..];
  }

  /** Sorting forgets the order and nothing else. */
  lemma SortedIffSameMultiset(a: seq<nat>, b: seq<nat>)
    ensures Sorted(a) == Sorted(b) <==> multiset(a) == multiset(b)
  {
    if multiset(a) == multiset(b) {
      AscendingIsUnique(Sorted(a), Sorted(b));
    }
  }
}
