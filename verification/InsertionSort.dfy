/**
  Insertion sort of 32-bit words as the guest program performs it: elements larger than the one to
  be inserted move up by one place, which leaves a hole that moves down.
 */
module InsertionSort {
  import opened Words

  ghost predicate Sorted(es: seq<u32>, n: nat)
    requires n <= |es|
  {
    forall i, j :: 0 <= i < j < n ==> Signed32(es[i]) <= Signed32(es[j])
  }

  /** The inner loop: `x` is put into the hole at `j` or further down. */
  function Insert(es: seq<u32>, j: nat, x: u32): (r: seq<u32>)
    requires j < |es|
    ensures |r| == |es|
    decreases j
  {
    if j == 0 || Signed32(x) >= Signed32(es[j - 1]) then es[j := x]
    else Insert(es[j := es[j - 1]], j - 1, x)
  }

  /** The outer loop, from element `i` on. */
  function SortFrom(es: seq<u32>, i: nat): (r: seq<u32>)
    ensures |r| == |es|
    decreases |es| - i
  {
    if i >= |es| then es else SortFrom(Insert(es, i, es[i]), i + 1)
  }

  lemma MoveUp(es: seq<u32>, j: nat, x: u32)
    requires 0 < j < |es|
    ensures multiset(es[j := es[j - 1]][j - 1 := x]) == multiset(es[j := x])
  {
    var fs := es[j := x];
    assert es[j := es[j - 1]][j - 1 := x] == fs[j := fs[j - 1]][j - 1 := fs[j]];
  }

  lemma {:induction false} InsertPermutes(es: seq<u32>, j: nat, x: u32)
    requires j < |es|
    ensures multiset(Insert(es, j, x)) == multiset(es[j := x])
    decreases j
  {
    if j > 0 && Signed32(x) < Signed32(es[j - 1]) {
      InsertPermutes(es[j := es[j - 1]], j - 1, x);
      MoveUp(es, j, x);
    }
  }

  /** The hole's element counts for nothing; above the hole everything exceeds `x` and is sorted. */
  ghost predicate SortedAround(es: seq<u32>, j: nat, n: nat, x: u32)
    requires j < n <= |es|
  {
    && (forall a, b :: 0 <= a < b < n && a != j && b != j ==> Signed32(es[a]) <= Signed32(es[b]))
    && (forall b :: j < b < n ==> Signed32(x) <= Signed32(es[b]))
  }

  lemma {:induction false} InsertSorts(es: seq<u32>, j: nat, n: nat, x: u32)
    requires j < n <= |es| && SortedAround(es, j, n, x)
    ensures Sorted(Insert(es, j, x), n)
    decreases j
  {
    if j > 0 && Signed32(x) < Signed32(es[j - 1]) {
      InsertSorts(es[j := es[j - 1]], j - 1, n, x);
    } else {
      var r := es[j := x];
      forall a, b | 0 <= a < b < n ensures Signed32(r[a]) <= Signed32(r[b]) {
        if b == j && a < j - 1 { assert Signed32(es[a]) <= Signed32(es[j - 1]); }
      }
    }
  }

  lemma {:induction false} SortFromSorts(es: seq<u32>, i: nat)
    requires Sorted(es, if i <= |es| then i else |es|)
    ensures Sorted(SortFrom(es, i), |es|)
    ensures multiset(SortFrom(es, i)) == multiset(es)
    decreases |es| - i
  {
    if i < |es| {
      InsertPermutes(es, i, es[i]);
      assert es[i := es[i]] == es;
      InsertSorts(es, i, i + 1, es[i]);
      SortFromSorts(Insert(es, i, es[i]), i + 1);
    }
  }
}
