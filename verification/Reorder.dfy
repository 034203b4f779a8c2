/** Sorting elements for a handler and bringing its results back into the original order, in place. */
module Reorder {

  /** The numbers are distinct positions below their count. */
  ghost predicate IsPermutation(s: seq<nat>) {
    && (forall i :: 0 <= i < |s| ==> s[i] < |s|)
    && forall i, j :: 0 <= i < j < |s| ==> s[i] != s[j]
  }

  ghost function Seconds<U>(s: seq<(U, nat)>): (r: seq<nat>)
    ensures |r| == |s| && forall i :: 0 <= i < |s| ==> r[i] == s[i].1
  {
    seq(|s|, i requires 0 <= i < |s| => s[i].1)
  }

  /** Element `i` moved to place `indices[i]`, for all `i`. */
  ghost function Placed<T>(elems: seq<T>, indices: seq<nat>): (r: seq<T>)
    requires |elems| == |indices| && IsPermutation(indices)
    ensures |r| == |elems| && forall i :: 0 <= i < |elems| ==> r[indices[i]] == elems[i]
  {
    PlacedUpTo(elems, indices, |elems|)
  }

  ghost function PlacedUpTo<T>(elems: seq<T>, indices: seq<nat>, n: nat): (r: seq<T>)
    requires |elems| == |indices| && IsPermutation(indices) && n <= |elems|
    ensures |r| == |elems| && forall i :: 0 <= i < n ==> r[indices[i]] == elems[i]
  {
    if n == 0 then elems else PlacedUpTo(elems, indices, n - 1)[indices[n - 1] := elems[n - 1]]
  }

  /** The positions whose element is not in its place. */
  ghost function Misplaced<U>(s: seq<(U, nat)>): set<nat> { set k: nat | k < |s| && s[k].1 != k }

  /** A swap that brings one element to its place disturbs no other that is in place. */
  lemma SwapShrinks<U>(s: seq<(U, nat)>, i: nat)
    requires i < |s| && IsPermutation(Seconds(s)) && s[i].1 != i
    ensures var idx := s[i].1; idx < |s| && Misplaced(Swapped(s, i, idx)) < Misplaced(s)
  {
    var t := Seconds(s);
    var idx := t[i];
    assert t[idx] != idx;
    assert idx in Misplaced(s) && idx !in Misplaced(Swapped(s, i, idx));
  }

  /** Every element still knows its place, and the first `i` are there. */
  ghost predicate Reordering<T, U>(arr: seq<T>, idx: seq<(U, nat)>, target: seq<T>, start: seq<(U, nat)>, i: nat) {
    && |arr| == |idx| == |target| && IsPermutation(Seconds(idx))
    && (forall k :: 0 <= k < |arr| ==> idx[k].1 < |arr| && arr[k] == target[idx[k].1] && idx[k] in start)
    && forall k :: 0 <= k < i && k < |arr| ==> idx[k].1 == k
  }

  function Swapped<T>(s: seq<T>, i: nat, j: nat): seq<T>
    requires i < |s| && j < |s|
  {
    s[i := s[j]][j := s[i]]
  }

  lemma SwapPermutes(t: seq<nat>, i: nat, j: nat)
    requires i < |t| && j < |t| && IsPermutation(t)
    ensures IsPermutation(Swapped(t, i, j))
  {
  }

  lemma SwapKeeps<T, U>(arr: seq<T>, idx: seq<(U, nat)>, target: seq<T>, start: seq<(U, nat)>, i: nat)
    requires Reordering(arr, idx, target, start, i) && i < |arr| && idx[i].1 != i
    ensures var j := idx[i].1; Reordering(Swapped(arr, i, j), Swapped(idx, i, j), target, start, i)
  {
    var j := idx[i].1;
    var t := Seconds(idx);
    assert t[i] == j && t[j] == idx[j].1;
    SwapPermutes(t, i, j);
    assert Seconds(Swapped(idx, i, j)) == Swapped(t, i, j);
  }

  /** Follows the cycles of the permutation. Every swap brings an element to its place for good. */
  method Reorder<T, U>(arr: array<T>, indices: array<(U, nat)>)
    requires arr.Length == indices.Length && arr as object != indices as object
    requires IsPermutation(Seconds(indices[..]))
    modifies arr, indices
    ensures forall i :: 0 <= i < arr.Length ==> arr[old(indices[i]).1] == old(arr[i])
    ensures forall i :: 0 <= i < arr.Length ==> indices[i].1 == i && indices[i] in old(indices[..])
  {
    ghost var start := indices[..];
    ghost var target := StartReordering(arr[..], start);
    var i := 0;
    while i < arr.Length
      invariant 0 <= i <= arr.Length && Reordering(arr[..], indices[..], target, start, i)
    {
      FillPlace(arr, indices, i, target, start);
      i := i + 1;
    }
    EndReordering(old(arr[..]), arr[..], indices[..], target, start);
    assert forall k :: 0 <= k < arr.Length ==> old(arr[k]) == old(arr[..])[k] && old(indices[k]) == start[k];
    assert forall k :: 0 <= k < arr.Length ==> indices[k] == indices[..][k];
  }

  lemma StartReordering<T, U>(arr: seq<T>, start: seq<(U, nat)>) returns (target: seq<T>)
    requires |arr| == |start| && IsPermutation(Seconds(start))
    ensures Reordering(arr, start, target, start, 0)
    ensures forall k :: 0 <= k < |arr| ==> target[start[k].1] == arr[k]
  {
    target := Placed(arr, Seconds(start));
    assert forall k :: 0 <= k < |arr| ==> Seconds(start)[k] == start[k].1;
  }

  lemma EndReordering<T, U>(before: seq<T>, arr: seq<T>, idx: seq<(U, nat)>, target: seq<T>, start: seq<(U, nat)>)
    requires |before| == |start| == |arr| && Reordering(arr, idx, target, start, |arr|)
    requires forall k :: 0 <= k < |before| ==> start[k].1 < |target| && target[start[k].1] == before[k]
    ensures forall k :: 0 <= k < |arr| ==> start[k].1 < |arr| && arr[start[k].1] == before[k]
    ensures forall k :: 0 <= k < |arr| ==> idx[k].1 == k && idx[k] in start
  {
    assert arr == target;
  }

  /** The inner loop: swaps until the element that belongs at `i` is there. */
  method FillPlace<T, U>(arr: array<T>, indices: array<(U, nat)>, i: nat, ghost target: seq<T>,
      ghost start: seq<(U, nat)>)
    requires arr.Length == indices.Length && arr as object != indices as object && i < arr.Length
    requires Reordering(arr[..], indices[..], target, start, i)
    modifies arr, indices
    ensures Reordering(arr[..], indices[..], target, start, i + 1)
  {
    while indices[i].1 != i
      invariant Reordering(arr[..], indices[..], target, start, i)
      decreases Misplaced(indices[..])
    {
      SwapToPlace(arr, indices, i, target, start);
    }
    assert indices[..][i].1 == i;
  }

  method SwapToPlace<T, U>(arr: array<T>, indices: array<(U, nat)>, i: nat, ghost target: seq<T>,
      ghost start: seq<(U, nat)>)
    requires arr.Length == indices.Length && arr as object != indices as object && i < arr.Length
    requires Reordering(arr[..], indices[..], target, start, i) && indices[i].1 != i
    modifies arr, indices
    ensures Reordering(arr[..], indices[..], target, start, i)
    ensures Misplaced(indices[..]) < Misplaced(old(indices[..]))
  {
    ghost var a, s := arr[..], indices[..];
    var idx := indices[i].1;
    SwapKeeps(a, s, target, start, i);
    SwapShrinks(s, i);
    arr[i], arr[idx] := arr[idx], arr[i];
    assert arr[..] == Swapped(a, i, idx);
    indices[i], indices[idx] := indices[idx], indices[i];
    assert indices[..] == Swapped(s, i, idx);
  }

  // ---------------------------------------------------------------- sorting for the handler

  predicate PairLe(a: (int, nat), b: (int, nat)) { a.0 < b.0 || (a.0 == b.0 && a.1 <= b.1) }

  ghost predicate PairsSorted(s: seq<(int, nat)>) { forall i, j :: 0 <= i < j < |s| ==> PairLe(s[i], s[j]) }

  /** The pairs hold elements of `elems` with their positions, each position at most once. */
  ghost predicate PairsOf(s: seq<(int, nat)>, elems: seq<int>, n: nat) {
    && (forall i :: 0 <= i < |s| ==> s[i].1 < n <= |elems| && s[i].0 == elems[s[i].1])
    && forall i, j :: 0 <= i < j < |s| ==> s[i].1 != s[j].1
  }

  function InsertPair(s: seq<(int, nat)>, p: (int, nat)): (r: seq<(int, nat)>)
    ensures |r| == |s| + 1
  {
    if s == [] then [p] else if PairLe(p, s[0]) then [p] + s else [s[0]] + InsertPair(s[1..], p)
  }

  lemma {:induction false} InsertPairElems(s: seq<(int, nat)>, p: (int, nat), k: nat)
    requires k < |InsertPair(s, p)|
    ensures var r := InsertPair(s, p);
      r[k] == p || (k < |s| && r[k] == s[k]) || (0 < k && r[k] == s[k - 1])
  {
    if s != [] && !PairLe(p, s[0]) && k > 0 {
      InsertPairElems(s[1..], p, k - 1);
    }
  }

  lemma {:induction false} InsertPairSorted(s: seq<(int, nat)>, p: (int, nat))
    requires PairsSorted(s)
    ensures PairsSorted(InsertPair(s, p))
  {
    if s != [] && !PairLe(p, s[0]) {
      var rest := InsertPair(s[1..], p);
      InsertPairSorted(s[1..], p);
      forall j | 0 <= j < |rest| ensures PairLe(s[0], rest[j]) {
        InsertPairElems(s[1..], p, j);
      }
    }
  }

  lemma {:induction false} InsertPairOf(s: seq<(int, nat)>, elems: seq<int>, n: nat)
    requires n < |elems| && PairsOf(s, elems, n)
    ensures PairsOf(InsertPair(s, (elems[n], n)), elems, n + 1)
  {
    var p := (elems[n], n);
    if s != [] && !PairLe(p, s[0]) {
      var rest := InsertPair(s[1..], p);
      InsertPairOf(s[1..], elems, n);
      forall j | 0 <= j < |rest| ensures s[0].1 != rest[j].1 {
        InsertPairElems(s[1..], p, j);
      }
    }
  }

  /** The first `n` elements with their positions, in order. */
  function SortPairs(elems: seq<int>, n: nat): (r: seq<(int, nat)>)
    requires n <= |elems|
    ensures |r| == n
  {
    if n == 0 then [] else InsertPair(SortPairs(elems, n - 1), (elems[n - 1], n - 1))
  }

  lemma {:induction false} SortPairsOf(elems: seq<int>, n: nat)
    requires n <= |elems|
    ensures PairsOf(SortPairs(elems, n), elems, n) && PairsSorted(SortPairs(elems, n))
  {
    if n > 0 {
      SortPairsOf(elems, n - 1);
      InsertPairOf(SortPairs(elems, n - 1), elems, n - 1);
      InsertPairSorted(SortPairs(elems, n - 1), (elems[n - 1], n - 1));
    }
  }

  /** The handler sees the elements in order and maps each of them on its own. */
  method Handle<U(0)>(vec: seq<(int, nat)>, f: int -> U) returns (r: array<U>)
    requires PairsSorted(vec)
    ensures fresh(r) && r.Length == |vec| && forall i :: 0 <= i < |vec| ==> r[i] == f(vec[i].0)
  {
    r := new U[|vec|];
    var i := 0;
    while i < |vec|
      invariant 0 <= i <= |vec| && forall k :: 0 <= k < i ==> r[k] == f(vec[k].0)
    {
      r[i] := f(vec[i].0);
      i := i + 1;
    }
  }

  /** Although the handler works on sorted elements, its results come back in the order of the input. */
  method WithOrderedElems<U(0)>(elems: seq<int>, f: int -> U) returns (r: seq<U>)
    ensures |r| == |elems| && forall i :: 0 <= i < |elems| ==> r[i] == f(elems[i])
  {
    var vec := SortPairs(elems, |elems|);
    SortPairsOf(elems, |elems|);
    var result := Handle(vec, f);
    var indices := new (int, nat)[|vec|](i requires 0 <= i < |vec| => vec[i]);
    assert indices[..] == vec;
    ghost var before := result[..];
    Reorder(result, indices);
    r := result[..];
    forall i | 0 <= i < |elems| ensures r[i] == f(elems[i]) {
      assert indices[i] in vec;
      var k :| 0 <= k < |vec| && vec[k] == indices[i];
    }
  }
}
