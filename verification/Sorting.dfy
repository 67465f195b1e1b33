/**
 Sorting a slice of the array of data points in place.  Callers rely on the contract of `SortSlice`
 only, which any sorting procedure meets.
 */
module Sorting {
  import opened Slices

  ghost predicate SortedBy(order: seq<nat>, left: nat, right: nat, key: nat -> int) {
    forall i, j :: left <= i <= j <= right && j < |order| ==> key(order[i]) <= key(order[j])
  }

  /** Same points in the same slice, and the array is a permutation of what it was. */
  ghost predicate Permuted(a: seq<nat>, b: seq<nat>, left: nat, right: nat) {
    multiset(a) == multiset(b) && Rearranged(a, b, Slice(left, right, 0))
  }

  method Swap(a: array<nat>, i: nat, j: nat, ghost left: nat, ghost right: nat)
    requires left <= i <= j <= right < a.Length
    modifies a
    ensures a[..] == old(a[..])[i := old(a[j])][j := old(a[i])]
    ensures Permuted(old(a[..]), a[..], left, right)
  {
    ghost var before, sl := a[..], Slice(left, right, 0);
    a[i], a[j] := a[j], a[i];
    forall p ensures Contains(before, sl, p) <==> Contains(a[..], sl, p) {
      if Contains(before, sl, p) {
        var k :| left <= k <= right && before[k] == p;
        assert a[..][if k == i then j else if k == j then i else k] == p;
      }
      if Contains(a[..], sl, p) {
        var k :| left <= k <= right && a[..][k] == p;
        assert before[if k == i then j else if k == j then i else k] == p;
      }
    }
  }

  method Smallest(a: array<nat>, left: nat, right: nat, key: nat -> int) returns (m: nat)
    requires left <= right < a.Length
    ensures left <= m <= right && forall k :: left <= k <= right ==> key(a[m]) <= key(a[k])
  {
    m := left;
    var k := left + 1;
    while k <= right
      invariant left <= m < k <= right + 1
      invariant forall j :: left <= j < k ==> key(a[m]) <= key(a[j])
    {
      if key(a[k]) < key(a[m]) {
        m := k;
      }
      k := k + 1;
    }
  }

  method SortSlice(a: array<nat>, left: nat, right: nat, key: nat -> int)
    requires left <= right < a.Length
    modifies a
    ensures SortedBy(a[..], left, right, key)
    ensures Permuted(old(a[..]), a[..], left, right)
  {
    ghost var before := a[..];
    var i := left;
    while i <= right
      invariant left <= i <= right + 1
      invariant Permuted(before, a[..], left, right)
      invariant forall j, k :: left <= j < i && j <= k <= right ==> key(a[j]) <= key(a[k])
    {
      ghost var previous := a[..];
      var m := Smallest(a, i, right, key);
      Swap(a, i, m, left, right);
      forall j, k | left <= j < i + 1 && j <= k <= right ensures key(a[j]) <= key(a[k]) {
        var k' := if k == i then m else if k == m then i else k;
        assert a[k] == previous[k'];
      }
      i := i + 1;
    }
  }

  // ---------- permutations have no duplicates ----------

  ghost predicate Distinct(order: seq<nat>) {
    forall i, j :: 0 <= i < j < |order| ==> order[i] != order[j]
  }

  lemma {:induction false} DistinctCounts(s: seq<nat>)
    ensures Distinct(s) <==> forall x :: multiset(s)[x] <= 1
  {
    if s != [] {
      var last, front := s[|s| - 1], s[..|s| - 1];
      DistinctCounts(front);
      assert s == front + [last];
      assert multiset(s) == multiset(front) + multiset{last};
      if Distinct(s) {
        assert last !in front;
        assert last !in multiset(front);
        assert forall x :: multiset(s)[x] <= 1;
      }
      if forall x :: multiset(s)[x] <= 1 {
        assert forall x :: multiset(front)[x] <= multiset(s)[x];
        assert multiset(s)[last] == multiset(front)[last] + 1;
        assert last !in front;
      }
    }
  }

  lemma PermutedDistinct(a: seq<nat>, b: seq<nat>)
    requires multiset(a) == multiset(b) && Distinct(a)
    ensures Distinct(b)
  {
    DistinctCounts(a);
    DistinctCounts(b);
  }
}
