/** The quicksort of `Sorter` (common/sort.go) on a slice, modelled as a sequence
    that each step replaces: `partition` around the middle element, then the two
    sides recursively. Compared with `Compare`, so `Compare(pivot, x) != -1` reads
    "x is at most the pivot". */
module Sort {
  import opened Order

  /** The slice with positions `i` and `j` exchanged. */
  function Swap(a: seq<int>, i: nat, j: nat): (b: seq<int>)
    requires i < |a| && j < |a|
    ensures |b| == |a| && b[i] == a[j] && b[j] == a[i]
    ensures forall k | 0 <= k < |a| && k != i && k != j :: b[k] == a[k]
  {
    a[i := a[j]][j := a[i]]
  }

  /** `b` is `a` with the values of `a[lo..hi]` rearranged: the same values in all,
      and the same value at every position outside the range. */
  ghost predicate PermutesRange(a: seq<int>, b: seq<int>, lo: int, hi: int) {
    && |a| == |b| && 0 <= lo <= hi <= |a|
    && multiset(a) == multiset(b)
    && forall k | 0 <= k < |a| && !(lo <= k < hi) :: a[k] == b[k]
  }

  /** The range itself holds the same values before and after. */
  lemma PermutesRangeSlice(a: seq<int>, b: seq<int>, lo: int, hi: int)
    requires PermutesRange(a, b, lo, hi)
    ensures a[..lo] == b[..lo] && a[hi..] == b[hi..]
    ensures multiset(a[lo..hi]) == multiset(b[lo..hi])
  {
    assert a[..lo] == b[..lo];
    assert a[hi..] == b[hi..];
    ThreeParts(a, lo, hi);
    ThreeParts(b, lo, hi);
    MiddleEqual(multiset(a), multiset(b), multiset(a[..lo]), multiset(a[hi..]), multiset(a[lo..hi]), multiset(b[lo..hi]));
  }

  lemma ThreeParts(a: seq<int>, lo: int, hi: int)
    requires 0 <= lo <= hi <= |a|
    ensures multiset(a) == multiset(a[..lo]) + multiset(a[lo..hi]) + multiset(a[hi..])
  {
    assert a == a[..lo] + a[lo..hi] + a[hi..];
  }

  lemma MiddleEqual(ma: multiset<int>, mb: multiset<int>, p: multiset<int>, q: multiset<int>, x: multiset<int>, y: multiset<int>)
    requires ma == mb && ma == p + x + q && mb == p + y + q
    ensures x == y
  {
    forall e ensures x[e] == y[e] {
      assert (p + x + q)[e] == p[e] + x[e] + q[e];
      assert (p + y + q)[e] == p[e] + y[e] + q[e];
    }
  }

  /** Every value in the rearranged range came from somewhere in the range. */
  lemma PermutedFrom(a: seq<int>, b: seq<int>, lo: int, hi: int, k: int) returns (m: int)
    requires PermutesRange(a, b, lo, hi) && lo <= k < hi
    ensures lo <= m < hi && a[m] == b[k]
  {
    PermutesRangeSlice(a, b, lo, hi);
    assert b[k] == b[lo..hi][k - lo];
    assert b[k] in multiset(a[lo..hi]);
    var m' :| 0 <= m' < hi - lo && a[lo..hi][m'] == b[k];
    m := lo + m';
  }

  lemma SwapMultiset(a: seq<int>, i: nat, j: nat)
    requires i < |a| && j < |a|
    ensures multiset(Swap(a, i, j)) == multiset(a)
  {
  }

  lemma SwapPermutes(a: seq<int>, i: nat, j: nat, lo: int, hi: int)
    requires 0 <= lo <= i < hi <= |a| && lo <= j < hi
    ensures PermutesRange(a, Swap(a, i, j), lo, hi)
  {
    SwapMultiset(a, i, j);
  }

  lemma PermutesTrans(a: seq<int>, b: seq<int>, c: seq<int>, lo: int, hi: int)
    requires PermutesRange(a, b, lo, hi) && PermutesRange(b, c, lo, hi)
    ensures PermutesRange(a, c, lo, hi)
  {
  }

  /** A permutation of a sub-range is a permutation of any range around it. */
  lemma PermutesWiden(a: seq<int>, b: seq<int>, lo: int, hi: int, lo': int, hi': int)
    requires PermutesRange(a, b, lo, hi) && 0 <= lo' <= lo && hi <= hi' <= |a|
    ensures PermutesRange(a, b, lo', hi')
  {
  }

  /** A value bound that holds of a range holds of any rearrangement of it. */
  lemma PermutesKeepsBounds(a: seq<int>, b: seq<int>, lo: int, hi: int, lower: int, upper: int)
    requires PermutesRange(a, b, lo, hi)
    requires forall k | lo <= k < hi :: lower <= a[k] <= upper
    ensures forall k | lo <= k < hi :: lower <= b[k] <= upper
  {
    forall k | lo <= k < hi ensures lower <= b[k] <= upper {
      var m := PermutedFrom(a, b, lo, hi, k);
    }
  }

  /** `partition`: moves the pivot `a[pivotIndex]` to the end, sweeps every value
      at most the pivot to the front of the range, and puts the pivot right after
      them; returns the pivot's final position. */
  method Partition(a: seq<int>, left: int, right: int, pivotIndex: int) returns (b: seq<int>, s: int)
    requires 0 <= left <= pivotIndex <= right < |a|
    ensures left <= s <= right
    ensures PermutesRange(a, b, left, right + 1)
    ensures b[s] == a[pivotIndex]
    ensures forall k | left <= k < s :: b[k] <= b[s]
    ensures forall k | s < k <= right :: b[k] > b[s]
  {
    var pivotValue := a[pivotIndex];
    var moved := Swap(a, pivotIndex, right);
    SwapPermutes(a, pivotIndex, right, left, right + 1);
    var swept, store := Sweep(moved, left, right, pivotValue);
    s := store;
    b := Swap(swept, right, s);
    SwapPermutes(swept, right, s, left, right + 1);
    PermutesTrans(a, moved, swept, left, right + 1);
    PermutesTrans(a, swept, b, left, right + 1);
    forall k | left <= k < s ensures b[k] <= pivotValue {
      assert b[k] == swept[k];
    }
    forall k | s < k <= right ensures b[k] > pivotValue {
      if k == right { assert b[k] == swept[s]; } else { assert b[k] == swept[k]; }
    }
  }

  /** The loop of `partition`: every value of `a[left..right)` at most the pivot
      is swapped down to `storeIndex`, which then moves up by one. */
  method Sweep(a: seq<int>, left: int, right: int, pivotValue: int) returns (b: seq<int>, s: int)
    requires 0 <= left <= right < |a| && a[right] == pivotValue
    ensures left <= s <= right
    ensures PermutesRange(a, b, left, right + 1) && b[right] == pivotValue
    ensures forall k | left <= k < s :: b[k] <= pivotValue
    ensures forall k | s <= k < right :: b[k] > pivotValue
  {
    b := a;
    s := left;
    var i := left;
    while i < right
      invariant left <= s <= i <= right
      invariant PermutesRange(a, b, left, right + 1)
      invariant b[right] == pivotValue
      invariant forall k | left <= k < s :: b[k] <= pivotValue
      invariant forall k | s <= k < i :: b[k] > pivotValue
    {
      if Compare(pivotValue, b[i]) != -1 {
        var b' := Swap(b, s, i);
        SwapPermutes(b, s, i, left, right + 1);
        forall k | left <= k < s + 1 ensures b'[k] <= pivotValue {
          if k == s { assert b'[k] == b[i]; } else { assert b'[k] == b[k]; }
        }
        forall k | s + 1 <= k < i + 1 ensures b'[k] > pivotValue {
          if k == i { assert b'[k] == b[s]; } else { assert b'[k] == b[k]; }
        }
        b := b';
        s := s + 1;
      }
      i := i + 1;
    }
  }

  /** `b[lo..hi]` is non-decreasing. */
  ghost predicate SortedRange(b: seq<int>, lo: int, hi: int) {
    forall i, j | lo <= i < j < hi && 0 <= i && j < |b| :: b[i] <= b[j]
  }

  /** `QuickSort(a, left, right)`: sorts `a[left..right]` (both ends included) in
      place. A range with `right <= left` is left untouched, whatever its bounds. */
  method QuickSort(a: seq<int>, left: int, right: int) returns (b: seq<int>)
    requires right > left ==> 0 <= left && right < |a|
    ensures right <= left ==> b == a
    ensures right > left ==> PermutesRange(a, b, left, right + 1) && SortedRange(b, left, right + 1)
    decreases right - left
  {
    if right > left {
      var newPivot := (left + right) / 2;
      var p, s := Partition(a, left, right, newPivot);
      var lower := QuickSort(p, left, s - 1);
      var c := QuickSort(lower, s + 1, right);
      if s - 1 <= left {
        assert PermutesRange(p, lower, left, s);
      }
      if right <= s + 1 {
        assert PermutesRange(lower, c, s + 1, right + 1);
      }
      SortedAfterPartition(a, p, lower, c, left, right, s);
      b := c;
    } else {
      b := a;
    }
  }

  /** The two recursive calls finish the job `partition` started. */
  lemma SortedAfterPartition(a: seq<int>, p: seq<int>, lower: seq<int>, c: seq<int>, left: int, right: int, s: int)
    requires 0 <= left <= s <= right < |a|
    requires PermutesRange(a, p, left, right + 1)
    requires forall k | left <= k < s :: p[k] <= p[s]
    requires forall k | s < k <= right :: p[k] > p[s]
    requires PermutesRange(p, lower, left, s) && SortedRange(lower, left, s)
    requires PermutesRange(lower, c, s + 1, right + 1) && SortedRange(c, s + 1, right + 1)
    ensures PermutesRange(a, c, left, right + 1) && SortedRange(c, left, right + 1)
  {
    var pivot := p[s];
    PermutesWiden(p, lower, left, s, left, right + 1);
    PermutesWiden(lower, c, s + 1, right + 1, left, right + 1);
    assert c[s] == pivot;
    forall k | left <= k < s ensures c[k] <= pivot {
      var m := PermutedFrom(p, lower, left, s, k);
    }
    forall k | s < k <= right ensures c[k] > pivot {
      var m := PermutedFrom(lower, c, s + 1, right + 1, k);
      assert lower[m] == p[m];
    }
  }

  /** `Sort`: without a comparator (`Compare == nil`) it reports false and leaves
      the slice alone; otherwise it quicksorts the whole slice and reports true.
      The result is then the one sorted rearrangement of the input. */
  method Sort(a: seq<int>, hasCompare: bool) returns (ok: bool, b: seq<int>)
    ensures ok == hasCompare
    ensures !ok ==> b == a
    ensures ok ==> Sorted(b) && multiset(b) == multiset(a)
    ensures ok ==> forall c: seq<int> | Sorted(c) && multiset(c) == multiset(a) :: c == b
  {
    if !hasCompare {
      return false, a;
    }
    b := QuickSort(a, 0, |a| - 1);
    if |a| > 1 {
      assert a[0..|a|] == a && b[0..|b|] == b;
    }
    forall c: seq<int> | Sorted(c) && multiset(c) == multiset(a) ensures c == b {
      SortedUnique(c, b);
    }
    ok := true;
  }
}
