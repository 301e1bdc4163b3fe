/** Sequences that hold the same elements in different orders. */
module Permutation {
  function Without<T>(xs: seq<T>, j: nat): seq<T>
    requires j < |xs|
  {
    xs[..j] + xs[j + 1..]
  }

  lemma {:induction false} WithoutLast<T>(xs: seq<T>, j: nat)
    requires j < |xs| - 1
    ensures Without(xs, j) == Without(xs[..|xs| - 1], j) + [xs[|xs| - 1]]
  {
  }

  lemma {:induction false} MultisetWithout<T>(xs: seq<T>, j: nat)
    requires j < |xs|
    ensures multiset(xs) == multiset(Without(xs, j)) + multiset{xs[j]}
  {
    assert xs == xs[..j] + [xs[j]] + xs[j + 1..];
  }

  lemma {:induction false} CancelOne<T>(a: multiset<T>, b: multiset<T>, x: T)
    requires a + multiset{x} == b + multiset{x}
    ensures a == b
  {
    forall y: T ensures a[y] == b[y] {
      assert (a + multiset{x})[y] == (b + multiset{x})[y];
    }
  }

  lemma {:induction false} TwiceInMultiset<T>(xs: seq<T>, i: nat, j: nat)
    requires i < j < |xs| && xs[i] == xs[j]
    ensures multiset(xs)[xs[i]] >= 2
  {
    assert xs == xs[..j] + [xs[j]] + xs[j + 1..];
    assert xs[i] in xs[..j];
  }

  lemma {:induction false} TwoPositions<T>(xs: seq<T>, x: T) returns (i: nat, j: nat)
    requires multiset(xs)[x] >= 2
    ensures i < j < |xs| && xs[i] == x == xs[j]
  {
    var k := |xs| - 1;
    assert xs == xs[..k] + [xs[k]];
    if xs[k] == x {
      assert x in multiset(xs[..k]);
      i :| 0 <= i < k && xs[..k][i] == x;
      j := k;
    } else {
      i, j := TwoPositions(xs[..k], x);
    }
  }

  lemma {:induction false} SameMembers<T>(xs: seq<T>, ys: seq<T>)
    requires multiset(xs) == multiset(ys)
    ensures |xs| == |ys| && forall x :: x in xs <==> x in ys
  {
    assert |multiset(xs)| == |xs| && |multiset(ys)| == |ys|;
    forall x ensures x in xs <==> x in ys {
      assert x in xs <==> x in multiset(xs);
      assert x in ys <==> x in multiset(ys);
    }
  }

  lemma {:induction false} NothingReordered<T>(xs: seq<T>, ys: seq<T>)
    requires multiset(xs) == multiset(ys) && xs == []
    ensures ys == []
  {
    SameMembers(xs, ys);
  }

  /** Where the last element of the one stands in the other; without it they still hold the same. */
  lemma {:induction false} LastMoved<T>(xs: seq<T>, ys: seq<T>) returns (j: nat)
    requires multiset(xs) == multiset(ys) && xs != []
    ensures j < |ys| && ys[j] == xs[|xs| - 1]
    ensures multiset(xs[..|xs| - 1]) == multiset(Without(ys, j))
  {
    var k := |xs| - 1;
    MultisetWithout(xs, k);
    assert Without(xs, k) == xs[..k];
    SameMembers(xs, ys);
    assert xs[k] in xs;
    j :| 0 <= j < |ys| && ys[j] == xs[k];
    MultisetWithout(ys, j);
    CancelOne(multiset(xs[..k]), multiset(Without(ys, j)), xs[k]);
  }
}
