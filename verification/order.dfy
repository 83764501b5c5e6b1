/** The comparator every structure of the collection is parameterised by, fixed
    here to the natural order of the integers, and the notion of a sorted sequence. */
module Order {

  /** The three-way comparator of the integer constructors (for example
      `NewIntBSTree`): 1 when a > b, 0 when a == b, -1 when a < b. */
  function Compare(a: int, b: int): (c: int)
    ensures c == 1 <==> a > b
    ensures c == 0 <==> a == b
    ensures c == -1 <==> a < b
  {
    if a > b then 1 else if a == b then 0 else -1
  }

  /** Non-decreasing, compared pairwise. */
  ghost predicate Sorted(s: seq<int>) {
    forall i, j | 0 <= i < j < |s| :: s[i] <= s[j]
  }

  /** Strictly increasing: sorted and free of duplicates. */
  ghost predicate StrictlySorted(s: seq<int>) {
    forall i, j | 0 <= i < j < |s| :: s[i] < s[j]
  }

  /** Every element of `s` is at most `x`. */
  ghost predicate AllAtMost(s: multiset<int>, x: int) {
    forall y | y in s :: y <= x
  }

  /** Every element of `s` is at least `x`. */
  ghost predicate AllAtLeast(s: multiset<int>, x: int) {
    forall y | y in s :: x <= y
  }

  /** Every element occurs once. */
  ghost predicate NoDuplicates(m: multiset<int>) {
    forall y | y in m :: m[y] == 1
  }

  /** A sorted sequence is determined by its multiset of elements. */
  lemma {:induction false} SortedUnique(a: seq<int>, b: seq<int>)
    requires Sorted(a) && Sorted(b)
    requires multiset(a) == multiset(b)
    ensures a == b
    decreases |a|
  {
    if a == [] {
      assert |multiset(b)| == 0;
    } else {
      SortedSameHead(a, b);
      assert a == [a[0]] + a[1..] && b == [a[0]] + b[1..];
      MultisetCancel(a[0], a[1..], b[1..]);
      SortedUnique(a[1..], b[1..]);
    }
  }

  lemma SortedSameHead(a: seq<int>, b: seq<int>)
    requires Sorted(a) && Sorted(b) && |a| > 0
    requires multiset(a) == multiset(b)
    ensures |b| > 0 && a[0] == b[0]
  {
    assert |b| == |multiset(b)| == |multiset(a)| == |a|;
    assert a[0] in a && b[0] in b;
    assert a[0] in multiset(b) && b[0] in multiset(a);
    assert a[0] in b && b[0] in a;
  }

  lemma MultisetCancel(x: int, a: seq<int>, b: seq<int>)
    requires multiset([x] + a) == multiset([x] + b)
    ensures multiset(a) == multiset(b)
  {
    assert multiset([x] + a) == multiset{x} + multiset(a);
    assert multiset([x] + b) == multiset{x} + multiset(b);
    assert multiset(a) == multiset([x] + a) - multiset{x};
  }

  /** `w'` is `w` with the element at position `i` taken out. */
  predicate RemovedAt(w: seq<int>, i: int, w': seq<int>) {
    0 <= i < |w| && w' == w[..i] + w[i + 1..]
  }

  /** `w'` is `w` with the slice `w[o..e]` replaced by `m`. */
  predicate ReplacedSlice(w: seq<int>, o: int, e: int, m: seq<int>, w': seq<int>) {
    0 <= o <= e <= |w| && w' == w[..o] + m + w[e..]
  }

  /** Removing one position keeps a sequence sorted. */
  lemma SortedRemove(s: seq<int>, k: int)
    requires Sorted(s) && 0 <= k < |s|
    ensures Sorted(s[..k] + s[k + 1..])
  {
    var t := s[..k] + s[k + 1..];
    forall i, j | 0 <= i < j < |t| ensures t[i] <= t[j] {
      var i' := if i < k then i else i + 1;
      var j' := if j < k then j else j + 1;
      assert t[i] == s[i'] && t[j] == s[j'];
    }
  }
}
