/** The `rearrange` closure that the `Rebuild` of structures/binary-search-tree.go,
    structures/bstree.go and structures/bst.go each carry, in identical copies:
    the order in which a sorted slice is inserted into the rebuilt tree. */
module Medians {
  /** The order `Rebuild` inserts in: the median of `values[left..right]` first,
      then the same for the part before it and the part after it. The result is
      a rearrangement of that slice. */
  function Rearrange(values: seq<int>, left: int, right: int): (r: seq<int>)
    requires 0 <= left <= right + 1 <= |values|
    ensures |r| == right - left + 1
    ensures right >= left ==> r[0] == values[(left + right) / 2]
    ensures multiset(r) == multiset(values[left..right + 1])
    decreases right - left + 1
  {
    if right >= left then
      var mid := (left + right) / 2;
      var a := Rearrange(values, left, mid - 1);
      var b := Rearrange(values, mid + 1, right);
      var r := [values[mid]] + a + b;
      Combine(values, left, mid, right, a, b, r);
      r
    else
      []
  }

  /** The step of `Rearrange`: the median before the two rearranged parts. */
  lemma Combine(values: seq<int>, left: int, mid: int, right: int, a: seq<int>, b: seq<int>, r: seq<int>)
    requires 0 <= left <= mid <= right < |values|
    requires |a| == mid - left && multiset(a) == multiset(values[left..mid])
    requires |b| == right - mid && multiset(b) == multiset(values[mid + 1..right + 1])
    requires r == [values[mid]] + a + b
    ensures |r| == right - left + 1 && r[0] == values[mid]
    ensures multiset(r) == multiset(values[left..right + 1])
  {
    MedianFirst(values, left, mid, right, a, b);
  }

  /** The median in front of rearrangements of the two parts around it
      rearranges the whole slice. */
  lemma MedianFirst(values: seq<int>, left: int, mid: int, right: int, a: seq<int>, b: seq<int>)
    requires 0 <= left <= mid <= right < |values|
    requires multiset(a) == multiset(values[left..mid]) && multiset(b) == multiset(values[mid + 1..right + 1])
    ensures multiset([values[mid]] + a + b) == multiset(values[left..right + 1])
  {
    MedianSplit(values, left, mid, right);
    assert multiset([values[mid]] + a + b) == multiset{values[mid]} + multiset(a) + multiset(b);
  }

  lemma MedianSplit(values: seq<int>, left: int, mid: int, right: int)
    requires 0 <= left <= mid <= right < |values|
    ensures multiset(values[left..right + 1])
         == multiset{values[mid]} + multiset(values[left..mid]) + multiset(values[mid + 1..right + 1])
  {
    assert values[left..right + 1] == values[left..mid] + [values[mid]] + values[mid + 1..right + 1];
  }

  /** The lower median of a non-empty sequence. */
  function Median(values: seq<int>): int
    requires values != []
  {
    values[(|values| - 1) / 2]
  }

  /** The median of the whole slice comes first. */
  lemma RearrangeHead(values: seq<int>)
    ensures values != [] ==>
      |Rearrange(values, 0, |values| - 1)| > 0 && Rearrange(values, 0, |values| - 1)[0] == Median(values)
  {
  }
}
