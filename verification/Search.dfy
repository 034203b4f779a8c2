/** Binary searches on sorted slices that take duplicates into account. */
module Search {
  import opened Options

  ghost predicate SortedBy<T>(s: seq<T>, key: T -> int) { forall i, j :: 0 <= i < j < |s| ==> key(s[i]) <= key(s[j]) }

  /** The number of elements of a sorted slice whose keys are below `item`. */
  method PartitionPoint<T>(s: seq<T>, item: int, key: T -> int) returns (idx: nat)
    requires SortedBy(s, key)
    ensures idx <= |s|
    ensures forall i :: 0 <= i < |s| ==> (i < idx <==> key(s[i]) < item)
  {
    var lo, hi := 0, |s|;
    while lo < hi
      invariant 0 <= lo <= hi <= |s|
      invariant forall i :: 0 <= i < lo ==> key(s[i]) < item
      invariant forall i :: hi <= i < |s| ==> key(s[i]) >= item
    {
      var mid := lo + (hi - lo) / 2;
      if key(s[mid]) < item {
        lo := mid + 1;
      } else {
        hi := mid;
      }
    }
    idx := lo;
  }

  /** The first of the elements with key `item`, if there is one. */
  method FindLowestMatchByKey<T>(s: seq<T>, item: int, key: T -> int) returns (r: Option<nat>)
    requires SortedBy(s, key)
    ensures r.None? <==> forall i :: 0 <= i < |s| ==> key(s[i]) != item
    ensures r.Some? ==> r.value < |s| && key(s[r.value]) == item && forall i :: 0 <= i < r.value ==> key(s[i]) < item
  {
    var idx := PartitionPoint(s, item, key);
    if idx < |s| && key(s[idx]) == item {
      return Some(idx);
    }
    return None;
  }

  /** Index `i` holds the greatest key that is not above `item`. */
  ghost predicate IsLowerBound<T>(s: seq<T>, item: int, key: T -> int, i: nat) {
    i < |s| && key(s[i]) <= item && forall j :: 0 <= j < |s| && key(s[j]) <= item ==> key(s[j]) <= key(s[i])
  }

  /** Of the elements with the key of element `i`, element `i` comes first. */
  ghost predicate FirstOfRun<T>(s: seq<T>, key: T -> int, i: nat)
    requires i < |s|
  {
    forall j :: 0 <= j < |s| && key(s[j]) == key(s[i]) ==> i <= j
  }

  ghost predicate LastOfRun<T>(s: seq<T>, key: T -> int, i: nat)
    requires i < |s|
  {
    forall j :: 0 <= j < |s| && key(s[j]) == key(s[i]) ==> j <= i
  }

  /**
   * An element with the greatest key that is not above `item`. It is the first of its run, except that
   * when there is no exact match and the run begins the slice, it is the last of its run.
   */
  ghost predicate IsAnswer<T>(s: seq<T>, item: int, key: T -> int, r: Option<nat>) {
    match r
    case None => forall i :: 0 <= i < |s| ==> key(s[i]) > item
    case Some(i) =>
      && IsLowerBound(s, item, key, i)
      && if key(s[i]) != item && key(s[0]) == key(s[i]) then LastOfRun(s, key, i) else FirstOfRun(s, key, i)
  }

  method FindMatchOrLowerBoundByKey<T>(s: seq<T>, item: int, key: T -> int) returns (r: Option<nat>)
    requires SortedBy(s, key)
    ensures IsAnswer(s, item, key, r)
  {
    var idx := PartitionPoint(s, item, key);
    if idx < |s| && key(s[idx]) == item {
      return Some(idx);
    }
    if idx == 0 {
      return None;
    }
    idx := idx - 1;
    var cmp := key(s[idx]);
    var i := idx;
    while i > 0
      invariant 0 <= i <= idx
      invariant forall j :: i <= j <= idx ==> key(s[j]) == cmp
    {
      i := i - 1;
      if key(s[i]) != cmp {
        return Some(i + 1);
      }
    }
    return Some(idx);
  }

  /** Two elements with the greatest key below the item begin the slice: the answer is the last of them. */
  lemma LastOfFirstRun(r: Option<nat>)
    requires IsAnswer([1, 1, 5], 3, (k: int) => k, r)
    ensures r == Some(1)
  {
    var s, key := [1, 1, 5], (k: int) => k;
    assert key(s[0]) == 1 && key(s[1]) == 1 && key(s[2]) == 5;
  }

  /**
   * An answer is the first of its run exactly when there is an exact match, or a key other than the smallest is not
   * above the item, or the smallest key occurs once.
   */
  lemma FirstIff<T>(s: seq<T>, item: int, key: T -> int, i: nat)
    requires SortedBy(s, key) && IsAnswer(s, item, key, Some(i))
    ensures FirstOfRun(s, key, i) <==>
      || (exists j :: 0 <= j < |s| && key(s[j]) == item)
      || (exists j :: 0 <= j < |s| && key(s[0]) < key(s[j]) <= item)
      || |s| == 1 || key(s[0]) < key(s[1])
  {
    if key(s[i]) == key(s[0]) && FirstOfRun(s, key, i) {
      assert i == 0;
    }
  }

  /** The answer is determined by the slice and the item. */
  lemma AnswerUnique<T>(s: seq<T>, item: int, key: T -> int, r: Option<nat>, r': Option<nat>)
    requires IsAnswer(s, item, key, r) && IsAnswer(s, item, key, r')
    ensures r == r'
  {
    if r.Some? && r'.Some? {
      assert key(s[r.value]) == key(s[r'.value]);
    }
  }
}
