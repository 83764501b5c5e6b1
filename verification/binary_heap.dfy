/** The array max-heap of structures/binary-heap.go. The values live in slots
    `heap[1..i]` (slot 0 is unused), the children of slot `k` are `2k` and
    `2k + 1`, and every method of the Go type becomes a function or method that
    returns the new heap. */
module BinaryHeap {
  import opened Order
  import opened Sort

  /** `defaultSize`: the initial capacity and the growth step of `Insert`. */
  const DefaultSize: nat := 50

  datatype HeapError = NoElement | KeyValue | InvalidIndex

  datatype Outcome<T> = Ok(value: T) | Err(error: HeapError)

  /** `Heap` and the rightmost occupied slot `i`. */
  datatype Heap = Heap(heap: seq<int>, i: int)

  /** The boundary is a slot of the slice. */
  predicate Valid(h: Heap) {
    0 <= h.i < |h.heap|
  }

  // ---------------------------------------------------------------------------
  // Slots and subtrees

  /** Slot `k` lies in the subtree rooted at slot `i`. */
  predicate Desc(k: int, i: int)
    requires i >= 1
    decreases k
  {
    k >= i && (k == i || Desc(k / 2, i))
  }

  lemma {:induction false} DescOfRoot(k: int)
    requires k >= 1
    ensures Desc(k, 1)
    decreases k
  {
    if k > 1 {
      DescOfRoot(k / 2);
    }
  }

  lemma {:induction false} DescTrans(k: int, j: int, i: int)
    requires i >= 1 && j >= 1 && Desc(k, j) && Desc(j, i)
    ensures Desc(k, i)
    decreases k
  {
    if k != j {
      DescTrans(k / 2, j, i);
    }
  }

  /** Two slots whose subtrees do not nest have disjoint subtrees. */
  lemma {:induction false} DescDisjoint(k: int, i: int, j: int)
    requires i >= 1 && j >= 1 && !Desc(j, i) && !Desc(i, j) && Desc(k, j)
    ensures !Desc(k, i)
    decreases k
  {
    if k != j && k != i {
      DescDisjoint(k / 2, i, j);
    }
  }

  /** The subtree of a slot inside the subtree of `i` lies inside it too. */
  lemma SubtreeInside(a: seq<int>, b: seq<int>, n: int, i: int, j: int)
    requires 1 <= i && Desc(j, i) && n < |a| && n < |b|
    requires forall k | i <= k <= n && Desc(k, i) :: a[k] == b[k]
    ensures forall k | j <= k <= n && Desc(k, j) :: a[k] == b[k]
  {
    forall k | j <= k <= n && Desc(k, j) ensures a[k] == b[k] {
      DescTrans(k, j, i);
    }
  }

  /** The subtree at `i`, cut off at slot `n`, is a max-heap: every slot holds at
      least what its children hold. */
  ghost predicate HeapAt(a: seq<int>, n: int, i: int)
    requires i >= 1 && n < |a|
    decreases n + 1 - i
  {
    i > n ||
      ((2 * i > n || a[i] >= a[2 * i]) && (2 * i + 1 > n || a[i] >= a[2 * i + 1])
       && HeapAt(a, n, 2 * i) && HeapAt(a, n, 2 * i + 1))
  }

  /** The whole heap `a[1..n]`, stated pairwise: no slot exceeds its parent. */
  ghost predicate IsMaxHeap(a: seq<int>, n: int)
    requires n < |a|
  {
    forall k | 2 <= k <= n :: a[k / 2] >= a[k]
  }

  lemma {:induction false} HeapAtFromPairs(a: seq<int>, n: int, i: int)
    requires i >= 1 && n < |a| && IsMaxHeap(a, n)
    ensures HeapAt(a, n, i)
    decreases n + 1 - i
  {
    if i <= n {
      assert 2 * i <= n ==> a[(2 * i) / 2] >= a[2 * i];
      assert 2 * i + 1 <= n ==> a[(2 * i + 1) / 2] >= a[2 * i + 1];
      HeapAtFromPairs(a, n, 2 * i);
      HeapAtFromPairs(a, n, 2 * i + 1);
    }
  }

  /** A heap's subtrees are heaps. */
  lemma {:induction false} HeapAtDesc(a: seq<int>, n: int, i: int, k: int)
    requires i >= 1 && n < |a| && HeapAt(a, n, i) && Desc(k, i)
    ensures HeapAt(a, n, k)
    decreases k
  {
    if k != i {
      HeapAtDesc(a, n, i, k / 2);
      assert k == 2 * (k / 2) || k == 2 * (k / 2) + 1;
    }
  }

  /** The recursive and the pairwise statement of the heap order agree. */
  lemma HeapIffPairs(a: seq<int>, n: int)
    requires n < |a|
    ensures HeapAt(a, n, 1) <==> IsMaxHeap(a, n)
  {
    if IsMaxHeap(a, n) {
      HeapAtFromPairs(a, n, 1);
    }
    if HeapAt(a, n, 1) {
      forall k | 2 <= k <= n ensures a[k / 2] >= a[k] {
        DescOfRoot(k / 2);
        HeapAtDesc(a, n, 1, k / 2);
        assert k == 2 * (k / 2) || k == 2 * (k / 2) + 1;
      }
    }
  }

  /** The root of a heap holds its largest value. */
  lemma {:induction false} HeapRootIsMax(a: seq<int>, n: int, i: int, k: int)
    requires i >= 1 && n < |a| && HeapAt(a, n, i) && Desc(k, i) && k <= n
    ensures a[k] <= a[i]
    decreases k
  {
    if k != i {
      var p := k / 2;
      HeapRootIsMax(a, n, i, p);
      HeapAtDesc(a, n, i, p);
      assert k == 2 * p || k == 2 * p + 1;
    }
  }

  /** A heap only depends on the slots of its subtree. */
  lemma {:induction false} HeapAtFrame(a: seq<int>, b: seq<int>, n: int, i: int)
    requires i >= 1 && n < |a| && n < |b|
    requires forall k | i <= k <= n && Desc(k, i) :: a[k] == b[k]
    ensures HeapAt(a, n, i) <==> HeapAt(b, n, i)
    decreases n + 1 - i
  {
    if i <= n {
      assert Desc(2 * i, i) && Desc(2 * i + 1, i);
      SubtreeInside(a, b, n, i, 2 * i);
      SubtreeInside(a, b, n, i, 2 * i + 1);
      HeapAtFrame(a, b, n, 2 * i);
      HeapAtFrame(a, b, n, 2 * i + 1);
    }
  }

  /** Cutting a heap off earlier leaves a heap. */
  lemma {:induction false} HeapAtShrink(a: seq<int>, n: int, m: int, i: int)
    requires i >= 1 && m <= n < |a| && HeapAt(a, n, i)
    ensures HeapAt(a, m, i)
    decreases n + 1 - i
  {
    if i <= m {
      HeapAtShrink(a, n, m, 2 * i);
      HeapAtShrink(a, n, m, 2 * i + 1);
    }
  }

  // ---------------------------------------------------------------------------
  // maxHeapify, build

  /** The slot `maxHeapify` picks: the largest of `i` and its children, preferring
      `i`, then the left child, on ties. */
  function Largest(a: seq<int>, n: int, i: int): (l: int)
    requires i >= 1 && n < |a|
    requires i <= n
    ensures l == i || (l == 2 * i && 2 * i <= n) || (l == 2 * i + 1 && 2 * i + 1 <= n)
    ensures a[l] >= a[i] && (2 * i <= n ==> a[l] >= a[2 * i]) && (2 * i + 1 <= n ==> a[l] >= a[2 * i + 1])
  {
    var left := 2 * i;
    var right := left + 1;
    var largest := if left <= n && Compare(a[left], a[i]) == 1 then left else i;
    if right <= n && Compare(a[right], a[largest]) == 1 then right else largest
  }

  /** What sifting slot `i` down does to `a`: a rearrangement of its values that
      moves only slots of the subtree at `i`, leaves in slot `i` the largest of
      `i` and its children, and makes the subtree at `i` a heap when the subtrees
      of the children were heaps. */
  ghost predicate SiftedDown(a: seq<int>, r: seq<int>, n: int, i: int)
    requires i >= 1 && n < |a|
  {
    && |r| == |a| && multiset(r) == multiset(a)
    && (forall k | 0 <= k < |a| && !(k <= n && Desc(k, i)) :: r[k] == a[k])
    && (HeapAt(a, n, 2 * i) && HeapAt(a, n, 2 * i + 1) ==> HeapAt(r, n, i))
    && (i <= n ==> r[i] == a[Largest(a, n, i)])
  }

  /** `maxHeapify(i)`: sifts the value at slot `i` down, swapping it with the
      larger child while that child is larger. */
  function MaxHeapify(a: seq<int>, n: int, i: int): (r: seq<int>)
    requires i >= 1 && n < |a|
    ensures SiftedDown(a, r, n, i)
    decreases n + 1 - i
  {
    if i > n then a
    else
      var largest := Largest(a, n, i);
      if largest == i then
        a
      else
        var s := Swap(a, i, largest);
        var r := MaxHeapify(s, n, largest);
        HeapifyStep(a, s, r, n, i, largest);
        r
  }

  /** After the swap, the children of the slot the value moved to still head heaps. */
  lemma HeapifyChildStillHeap(a: seq<int>, s: seq<int>, n: int, i: int, largest: int)
    requires 1 <= i <= n < |a| && |s| == |a|
    requires largest == 2 * i || largest == 2 * i + 1
    requires largest <= n
    requires s == Swap(a, i, largest)
    ensures HeapAt(a, n, largest) ==> HeapAt(s, n, 2 * largest) && HeapAt(s, n, 2 * largest + 1)
  {
    if HeapAt(a, n, largest) {
      forall c | c == 2 * largest || c == 2 * largest + 1 ensures HeapAt(s, n, c) {
        if c <= n {
          assert Desc(c, largest);
          HeapAtDesc(a, n, largest, c);
          forall k | c <= k <= n && Desc(k, c) ensures a[k] == s[k] {
            assert k != i && k != largest;
          }
          HeapAtFrame(a, s, n, c);
        }
      }
    }
  }

  /** Closing the recursive case of `MaxHeapify`. */
  lemma HeapifyStep(a: seq<int>, s: seq<int>, r: seq<int>, n: int, i: int, largest: int)
    requires 1 <= i <= n < |a|
    requires largest == Largest(a, n, i) && largest != i
    requires s == Swap(a, i, largest) && SiftedDown(s, r, n, largest)
    ensures SiftedDown(a, r, n, i)
  {
    SwapMultiset(a, i, largest);
    HeapifyStepFrame(a, s, r, n, i, largest);
    if HeapAt(a, n, 2 * i) && HeapAt(a, n, 2 * i + 1) {
      HeapifyStepHeap(a, s, r, n, i, largest);
    }
  }

  /** The recursive case moves only slots below `i`. */
  lemma HeapifyStepFrame(a: seq<int>, s: seq<int>, r: seq<int>, n: int, i: int, largest: int)
    requires 1 <= i <= n < |a|
    requires largest == Largest(a, n, i) && largest != i
    requires s == Swap(a, i, largest) && SiftedDown(s, r, n, largest)
    ensures forall k | 0 <= k < |a| && !(k <= n && Desc(k, i)) :: r[k] == a[k]
  {
    assert Desc(largest, i);
    forall k | 0 <= k < |a| && !(k <= n && Desc(k, i)) ensures r[k] == a[k] {
      if k <= n && Desc(k, largest) {
        DescTrans(k, largest, i);
      }
    }
  }

  /** The recursive case makes a heap at `i` of two heaps below it. */
  lemma HeapifyStepHeap(a: seq<int>, s: seq<int>, r: seq<int>, n: int, i: int, largest: int)
    requires 1 <= i <= n < |a|
    requires largest == Largest(a, n, i) && largest != i
    requires s == Swap(a, i, largest) && SiftedDown(s, r, n, largest)
    requires HeapAt(a, n, 2 * i) && HeapAt(a, n, 2 * i + 1)
    ensures HeapAt(r, n, i)
  {
    assert Desc(largest, i);
    HeapifyChildStillHeap(a, s, n, i, largest);
    var sibling := if largest == 2 * i then 2 * i + 1 else 2 * i;
    // The sibling subtree is untouched.
    if sibling <= n {
      forall k | sibling <= k <= n && Desc(k, sibling) ensures r[k] == s[k] && s[k] == a[k] {
        assert Desc(sibling, i);
        DescTrans(k, sibling, i);
        assert !Desc(largest, sibling) && !Desc(sibling, largest);
        DescDisjoint(k, largest, sibling);
        assert k != i && k != largest;
      }
      HeapAtFrame(a, r, n, sibling);
    }
    // The new value at `largest` comes from `a[i]` or from a child of `largest`,
    // all of them at most `a[largest]`.
    var l2 := Largest(s, n, largest);
    assert s[largest] == a[i];
    if l2 != largest {
      assert l2 == 2 * largest || l2 == 2 * largest + 1;
      assert s[l2] == a[l2];
      assert Desc(l2, largest);
      HeapRootIsMax(a, n, largest, l2);
    }
  }

  /** Heapifying slot `i` keeps every later slot the head of a heap. */
  lemma HeapifyKeepsLater(a: seq<int>, r: seq<int>, n: int, i: int)
    requires 1 <= i && n < |a| && |r| == |a|
    requires forall j | i < j :: HeapAt(a, n, j)
    requires forall k | 0 <= k < |a| && !(k <= n && Desc(k, i)) :: r[k] == a[k]
    requires HeapAt(r, n, i)
    ensures forall j | i - 1 < j :: HeapAt(r, n, j)
  {
    forall j | i - 1 < j ensures HeapAt(r, n, j) {
      if j == i {
      } else if Desc(j, i) {
        HeapAtDesc(r, n, i, j);
      } else {
        forall k | j <= k <= n && Desc(k, j) ensures a[k] == r[k] {
          DescDisjoint(k, i, j);
        }
        HeapAtFrame(a, r, n, j);
      }
    }
  }

  /** The loop of `build`, from slot `i` down to slot 1. */
  function BuildDown(a: seq<int>, n: int, i: int): (r: seq<int>)
    requires 0 <= i && 0 <= n < |a|
    requires forall j | i < j :: HeapAt(a, n, j)
    ensures |r| == |a| && PermutesRange(a, r, 1, n + 1)
    ensures forall j | 0 < j :: HeapAt(r, n, j)
    decreases i
  {
    if i == 0 then a
    else
      var r' := MaxHeapify(a, n, i);
      HeapifyKeepsLater(a, r', n, i);
      assert PermutesRange(a, r', 1, n + 1);
      var r := BuildDown(r', n, i - 1);
      PermutesTrans(a, r', r, 1, n + 1);
      r
  }

  /** `build`: heapifies the slots `n / 2` down to 1; afterwards `a[1..n]` is a heap
      holding the same values, and nothing outside it moved. */
  function Build(a: seq<int>, n: int): (r: seq<int>)
    requires 0 <= n < |a|
    ensures |r| == |a| && PermutesRange(a, r, 1, n + 1)
    ensures HeapAt(r, n, 1)
  {
    LeavesAreHeaps(a, n);
    BuildDown(a, n, n / 2)
  }

  lemma LeavesAreHeaps(a: seq<int>, n: int)
    requires 0 <= n < |a|
    ensures forall j | n / 2 < j :: HeapAt(a, n, j)
  {
    forall j | n / 2 < j ensures HeapAt(a, n, j) {
      if j <= n {
        assert HeapAt(a, n, 2 * j) && HeapAt(a, n, 2 * j + 1);
      }
    }
  }

  // ---------------------------------------------------------------------------
  // The heap object

  /** The values currently stored: slots 1 to `i`. */
  function Values(h: Heap): seq<int>
    requires Valid(h)
  {
    h.heap[1..h.i + 1]
  }

  ghost predicate IsHeap(h: Heap)
    requires Valid(h)
  {
    HeapAt(h.heap, h.i, 1)
  }

  /** `Size`: the number of values stored. */
  function Size(h: Heap): (n: int)
    requires Valid(h)
    ensures n == |Values(h)|
  {
    h.i
  }

  /** `NewEmptyBinaryHeap`: `defaultSize` empty slots and no values. Go fills the
      slots with nil; here they hold 0. */
  function NewEmptyBinaryHeap(): (h: Heap)
    ensures Valid(h) && Values(h) == [] && |h.heap| == DefaultSize && IsHeap(h)
  {
    Heap(seq(DefaultSize, _ => 0), 0)
  }

  /** `NewBinaryHeap`: slot 0 holds 0, the values follow in slots 1 to n, and
      `build` turns them into a heap. */
  function NewBinaryHeap(values: seq<int>): (h: Heap)
    ensures Valid(h) && IsHeap(h) && h.heap[0] == 0 && |h.heap| == |values| + 1
    ensures multiset(Values(h)) == multiset(values)
  {
    var cpy := [0] + values;
    var heap := Build(cpy, |values|);
    BuiltSlots(values, cpy, heap);
    Heap(heap, |values|)
  }

  /** Building the heap leaves slot 0 alone and permutes the values behind it. */
  lemma BuiltSlots(values: seq<int>, cpy: seq<int>, heap: seq<int>)
    requires cpy == [0] + values && PermutesRange(cpy, heap, 1, |values| + 1)
    ensures heap[0] == 0 && multiset(heap[1..|values| + 1]) == multiset(values)
  {
    PermutesRangeSlice(cpy, heap, 1, |values| + 1);
    assert cpy[1..|values| + 1] == values;
    assert heap[0] == cpy[0];
  }

  /** Slot 1 of a non-empty heap is one of its values and the largest of them. */
  lemma HeapHoldsMax(h: Heap)
    requires Valid(h) && h.i >= 1
    ensures h.heap[1] in multiset(Values(h))
    ensures IsHeap(h) ==> AllAtMost(multiset(Values(h)), h.heap[1])
  {
    assert Values(h)[0] == h.heap[1];
    if IsHeap(h) {
      forall y | y in multiset(Values(h)) ensures y <= h.heap[1] {
        var k :| 0 <= k < |Values(h)| && Values(h)[k] == y;
        DescOfRoot(k + 1);
        HeapRootIsMax(h.heap, h.i, 1, k + 1);
      }
    }
  }

  // ---------------------------------------------------------------------------
  // Reading and extracting the maximum

  /** `HeapMaximum`: slot 1, which a heap holds as its largest value; `NoElement`
      when the heap is empty. */
  function HeapMaximum(h: Heap): (r: Outcome<int>)
    requires Valid(h)
    ensures r.Err? <==> Size(h) < 1
    ensures r.Err? ==> r.error == NoElement
    ensures r.Ok? ==> r.value in multiset(Values(h))
    ensures r.Ok? && IsHeap(h) ==> AllAtMost(multiset(Values(h)), r.value)
  {
    if h.i < 1 then
      Err(NoElement)
    else
      HeapHoldsMax(h);
      Ok(h.heap[1])
  }

  /** `ExtractHeapMaximum`: hands back slot 1, moves the last value into slot 1,
      shrinks the heap by one and sifts slot 1 down. The value returned is the one
      `HeapMaximum` reports, it leaves the heap, and a heap stays a heap. */
  function ExtractHeapMaximum(h: Heap): (r: Outcome<(int, Heap)>)
    requires Valid(h)
    ensures r.Err? <==> Size(h) < 1
    ensures r.Err? ==> r.error == NoElement
    ensures r.Ok? ==> Valid(r.value.1) && Size(r.value.1) == Size(h) - 1 && |r.value.1.heap| == |h.heap|
    ensures r.Ok? ==> HeapMaximum(h) == Ok(r.value.0)
    ensures r.Ok? ==> multiset(Values(r.value.1)) + multiset{r.value.0} == multiset(Values(h))
    ensures r.Ok? && IsHeap(h) ==> IsHeap(r.value.1)
  {
    if h.i < 1 then
      Err(NoElement)
    else
      var a := h.heap[1 := h.heap[h.i]];
      var b := MaxHeapify(a, h.i - 1, 1);
      ExtractKeeps(h, a, b);
      Ok((h.heap[1], Heap(b, h.i - 1)))
  }

  lemma ExtractKeeps(h: Heap, a: seq<int>, b: seq<int>)
    requires Valid(h) && h.i >= 1
    requires a == h.heap[1 := h.heap[h.i]] && b == MaxHeapify(a, h.i - 1, 1)
    ensures multiset(b[1..h.i]) + multiset{h.heap[1]} == multiset(Values(h))
    ensures IsHeap(h) ==> HeapAt(b, h.i - 1, 1)
  {
    var n := h.i - 1;
    assert PermutesRange(a, b, 1, h.i);
    PermutesRangeSlice(a, b, 1, h.i);
    LastToFirst(h.heap, a, h.i);
    if IsHeap(h) {
      ChildrenStayHeaps(h.heap, a, h.i, n);
    }
  }

  /** Moving the last value into slot 1 drops the first one from the multiset. */
  lemma LastToFirst(heap: seq<int>, a: seq<int>, i: int)
    requires 1 <= i < |heap| && a == heap[1 := heap[i]]
    ensures multiset(a[1..i]) + multiset{heap[1]} == multiset(heap[1..i + 1])
  {
    if i >= 2 {
      var mid := heap[2..i];
      assert a[2..i] == mid;
      assert a[1..i] == [a[1]] + a[2..i];
      assert heap[1..i + 1] == [heap[1]] + mid + [heap[i]];
      EndToFront(heap[1], heap[i], mid);
    }
  }

  lemma EndToFront(x: int, y: int, mid: seq<int>)
    ensures multiset([y] + mid) + multiset{x} == multiset([x] + mid + [y])
  {
  }

  /** Changing slot 1 and cutting the heap off at `m` keeps both children of the
      root heads of heaps. */
  lemma ChildrenStayHeaps(a: seq<int>, s: seq<int>, n: int, m: int)
    requires 0 <= m <= n < |a| && |s| == |a| && HeapAt(a, n, 1)
    requires forall k | 2 <= k <= m :: s[k] == a[k]
    ensures HeapAt(s, m, 2) && HeapAt(s, m, 3)
  {
    ChildStaysHeap(a, s, n, m, 2);
    ChildStaysHeap(a, s, n, m, 3);
  }

  lemma ChildStaysHeap(a: seq<int>, s: seq<int>, n: int, m: int, c: int)
    requires 0 <= m <= n < |a| && |s| == |a| && HeapAt(a, n, 1) && (c == 2 || c == 3)
    requires forall k | 2 <= k <= m :: s[k] == a[k]
    ensures HeapAt(s, m, c)
  {
    assert Desc(c, 1);
    HeapAtDesc(a, n, 1, c);
    HeapAtShrink(a, n, m, c);
    HeapAtFrame(a, s, m, c);
  }

  /** Extracting twice yields values in non-increasing order. */
  lemma ExtractNonIncreasing(h: Heap)
    requires Valid(h) && IsHeap(h)
    requires ExtractHeapMaximum(h).Ok?
    requires ExtractHeapMaximum(ExtractHeapMaximum(h).value.1).Ok?
    ensures ExtractHeapMaximum(ExtractHeapMaximum(h).value.1).value.0 <= ExtractHeapMaximum(h).value.0
  {
    var (m1, h1) := ExtractHeapMaximum(h).value;
    var m2 := ExtractHeapMaximum(h1).value.0;
    assert HeapMaximum(h1) == Ok(m2);
    assert m2 in multiset(Values(h1));
    assert m2 in multiset(Values(h));
    assert HeapMaximum(h) == Ok(m1);
  }

  // ---------------------------------------------------------------------------
  // updateKey, Insert

  /** The heap order holds on `a[1..n]` except possibly between slot `j` and its
      parent, and the parent of `j` dominates the children of `j`: the state of
      `updateKey` while a raised key climbs. */
  ghost predicate HeapExceptAt(a: seq<int>, n: int, j: int)
    requires 1 <= j && n < |a|
  {
    && (forall k | 2 <= k <= n && k != j :: a[k / 2] >= a[k])
    && (j > 1 && 2 * j <= n ==> a[j / 2] >= a[2 * j])
    && (j > 1 && 2 * j + 1 <= n ==> a[j / 2] >= a[2 * j + 1])
  }

  /** Raising a key of a heap breaks the order at most between it and its parent. */
  lemma RaiseKeepsExcept(a: seq<int>, n: int, i: int, key: int)
    requires 1 <= i <= n < |a| && HeapAt(a, n, 1) && a[i] <= key
    ensures HeapExceptAt(a[i := key], n, i)
  {
    HeapIffPairs(a, n);
    assert 2 * i <= n ==> a[(2 * i) / 2] >= a[2 * i];
    assert 2 * i + 1 <= n ==> a[(2 * i + 1) / 2] >= a[2 * i + 1];
  }

  /** One swap of the climb: the order is now broken at most above the parent. */
  lemma SiftUpStep(r: seq<int>, s: seq<int>, n: int, j: int)
    requires 2 <= j <= n < |r| && HeapExceptAt(r, n, j) && r[j] > r[j / 2]
    requires s == Swap(r, j, j / 2)
    ensures HeapExceptAt(s, n, j / 2)
  {
    var p := j / 2;
    forall k | 2 <= k <= n && k != p ensures s[k / 2] >= s[k] {
      if k == j {
      } else if k / 2 == p {
        assert r[k / 2] >= r[k];
      } else if k / 2 == j {
        assert k == 2 * j || k == 2 * j + 1;
      } else {
        assert r[k / 2] >= r[k];
      }
    }
    if p > 1 {
      assert r[p / 2] >= r[p];
      var c := if j == 2 * p then 2 * p + 1 else 2 * p;
      assert c <= n ==> r[c / 2] >= r[c];
    }
  }

  /** The loop of `updateKey`: while slot `j` holds more than its parent, swap them
      and move up. */
  method SiftUp(a: seq<int>, n: int, i: int) returns (r: seq<int>)
    requires 1 <= i <= n < |a|
    ensures PermutesRange(a, r, 1, n + 1)
    ensures HeapExceptAt(a, n, i) ==> IsMaxHeap(r, n)
  {
    r := a;
    var j := i;
    while j > 1 && Compare(r[j], r[j / 2]) == 1
      invariant 1 <= j <= n && |r| == |a|
      invariant PermutesRange(a, r, 1, n + 1)
      invariant HeapExceptAt(a, n, i) ==> HeapExceptAt(r, n, j)
      decreases j
    {
      var p := j / 2;
      var s := Swap(r, j, p);
      SwapPermutes(r, j, p, 1, n + 1);
      PermutesTrans(a, r, s, 1, n + 1);
      if HeapExceptAt(a, n, i) {
        SiftUpStep(r, s, n, j);
      }
      r := s;
      j := p;
    }
  }

  /** Overwriting slot `i` trades its value for `key` in the multiset of slots 1 to `n`. */
  lemma ReplaceOne(heap: seq<int>, a: seq<int>, n: int, i: int, key: int)
    requires 1 <= i <= n < |heap| && a == heap[i := key]
    ensures multiset(a[1..n + 1]) == multiset(heap[1..n + 1]) - multiset{heap[i]} + multiset{key}
  {
    var before, after := heap[1..i], heap[i + 1..n + 1];
    assert heap[1..n + 1] == before + [heap[i]] + after;
    assert a[1..n + 1] == before + [key] + after;
  }

  /** `updateKey`: `InvalidIndex` past the last value, `KeyValue` when the key is
      smaller than the one it replaces; otherwise the key replaces slot `i` and
      climbs. A heap stays a heap. */
  method UpdateKey(h: Heap, i: int, key: int) returns (r: Outcome<Heap>)
    requires Valid(h) && 0 <= i
    ensures r == Err(InvalidIndex) <==> i > Size(h)
    ensures r == Err(KeyValue) <==> i <= Size(h) && h.heap[i] > key
    ensures r.Ok? <==> i <= Size(h) && h.heap[i] <= key
    ensures r.Ok? ==> Valid(r.value) && Size(r.value) == Size(h) && |r.value.heap| == |h.heap|
    ensures r.Ok? && i == 0 ==> Values(r.value) == Values(h)
    ensures r.Ok? && i >= 1 ==>
      multiset(Values(r.value)) == multiset(Values(h)) - multiset{h.heap[i]} + multiset{key}
    ensures r.Ok? && i >= 1 && HeapExceptAt(h.heap[i := key], h.i, i) ==> IsHeap(r.value)
    ensures r.Ok? && IsHeap(h) ==> IsHeap(r.value)
  {
    if i > h.i {
      return Err(InvalidIndex);
    }
    if Compare(h.heap[i], key) == 1 {
      return Err(KeyValue);
    }
    var a := h.heap[i := key];
    if i == 0 {
      SlotZeroIgnored(h, key);
      return Ok(Heap(a, h.i));
    }
    var b := SiftUp(a, h.i, i);
    ClimbFacts(h, i, key, a, b);
    return Ok(Heap(b, h.i));
  }

  /** Slot 0 is no value of the heap: writing it changes neither the values nor
      the order. */
  lemma SlotZeroIgnored(h: Heap, key: int)
    requires Valid(h)
    ensures Values(Heap(h.heap[0 := key], h.i)) == Values(h)
    ensures IsHeap(h) ==> IsHeap(Heap(h.heap[0 := key], h.i))
  {
    var a := h.heap[0 := key];
    assert Values(Heap(a, h.i)) == Values(h);
    forall k | 1 <= k <= h.i && Desc(k, 1) ensures h.heap[k] == a[k] { }
    HeapAtFrame(h.heap, a, h.i, 1);
  }

  /** What the climb after a raised key leaves: the values with the one key
      replaced, and a heap when the rest was one. */
  lemma ClimbFacts(h: Heap, i: int, key: int, a: seq<int>, b: seq<int>)
    requires Valid(h) && 1 <= i <= h.i && h.heap[i] <= key && a == h.heap[i := key]
    requires PermutesRange(a, b, 1, h.i + 1) && (HeapExceptAt(a, h.i, i) ==> IsMaxHeap(b, h.i))
    ensures multiset(b[1..h.i + 1]) == multiset(Values(h)) - multiset{h.heap[i]} + multiset{key}
    ensures HeapExceptAt(a, h.i, i) ==> HeapAt(b, h.i, 1)
    ensures IsHeap(h) ==> HeapAt(b, h.i, 1)
  {
    PermutesRangeSlice(a, b, 1, h.i + 1);
    ReplaceOne(h.heap, a, h.i, i, key);
    HeapIffPairs(b, h.i);
    if IsHeap(h) {
      RaiseKeepsExcept(h.heap, h.i, i, key);
    }
  }

  /** `Insert`: the heap grows by one slot (the slice by `defaultSize` slots when it
      is full), the key goes there and climbs. It never fails. */
  method Insert(h: Heap, key: int) returns (r: Heap)
    requires Valid(h)
    ensures Valid(r) && Size(r) == Size(h) + 1
    ensures |r.heap| == if Size(h) + 1 >= |h.heap| then |h.heap| + DefaultSize else |h.heap|
    ensures multiset(Values(r)) == multiset(Values(h)) + multiset{key}
    ensures IsHeap(h) ==> IsHeap(r)
  {
    var n := h.i + 1;
    var a := Grown(h, key);
    var u := UpdateKey(Heap(a, n), n, key);
    r := u.value;
    AddOne(Values(h), Values(Heap(a, n)), Values(r), key);
  }

  /** The slice `Insert` hands to `updateKey`: `defaultSize` more slots when it is
      full, and `key` in the new last slot. It holds one more value, and a heap
      before is a heap except above the new slot. */
  function Grown(h: Heap, key: int): (a: seq<int>)
    requires Valid(h)
    ensures |a| == if h.i + 1 >= |h.heap| then |h.heap| + DefaultSize else |h.heap|
    ensures h.i + 1 < |a| && a[h.i + 1] == key
    ensures Values(Heap(a, h.i + 1)) == Values(h) + [key]
    ensures IsHeap(h) ==> HeapExceptAt(a[h.i + 1 := key], h.i + 1, h.i + 1)
  {
    var b := if h.i + 1 >= |h.heap| then h.heap + seq(DefaultSize, _ => 0) else h.heap;
    var a := b[h.i + 1 := key];
    GrowKeeps(h, a, key);
    a
  }

  /** A heap before is a heap except above the new slot. */
  lemma GrowKeeps(h: Heap, a: seq<int>, key: int)
    requires Valid(h) && h.i + 1 < |a| && |h.heap| <= |a| && a[h.i + 1] == key
    requires forall k | 0 <= k <= h.i :: a[k] == h.heap[k]
    ensures Values(Heap(a, h.i + 1)) == Values(h) + [key]
    ensures IsHeap(h) ==> HeapExceptAt(a[h.i + 1 := key], h.i + 1, h.i + 1)
  {
    var n := h.i + 1;
    assert a[n := key] == a;
    if IsHeap(h) {
      HeapIffPairs(h.heap, h.i);
      forall k | 2 <= k <= n && k != n ensures a[k / 2] >= a[k] {
        assert h.heap[k / 2] >= h.heap[k];
      }
    }
  }

  /** Adding `key` and then trading `key` for `key` adds `key` once. */
  lemma AddOne(vh: seq<int>, va: seq<int>, vr: seq<int>, key: int)
    requires va == vh + [key]
    requires multiset(vr) == multiset(va) - multiset{key} + multiset{key}
    ensures multiset(vr) == multiset(vh) + multiset{key}
  {
  }

  // ---------------------------------------------------------------------------
  // Heapsort

  /** The state of the `Heapsort` loop with `m` values left in the heap part:
      `a[1..m]` is a heap, `a[m+1..n]` is ascending and nothing in the heap part
      exceeds anything after it. */
  ghost predicate SortingState(a: seq<int>, m: int, n: int)
    requires 0 <= m <= n < |a|
  {
    && HeapAt(a, m, 1)
    && (forall x, y | m < x <= y <= n :: a[x] <= a[y])
    && (forall x, y | 1 <= x <= m < y <= n :: a[x] <= a[y])
  }

  /** One round of the `Heapsort` loop keeps its state. */
  lemma HeapsortStep(a: seq<int>, s: seq<int>, b: seq<int>, m: int, n: int)
    requires 2 <= m <= n < |a|
    requires s == Swap(a, 1, m) && b == MaxHeapify(s, m - 1, 1)
    ensures PermutesRange(a, b, 1, m + 1)
    ensures SortingState(a, m, n) ==> SortingState(b, m - 1, n)
  {
    SwapPermutes(a, 1, m, 1, m + 1);
    assert PermutesRange(s, b, 1, m);
    PermutesWiden(s, b, 1, m, 1, m + 1);
    PermutesTrans(a, s, b, 1, m + 1);
    if SortingState(a, m, n) {
      ChildrenStayHeaps(a, s, m, m - 1);
      assert HeapAt(b, m - 1, 1);
      var z := NewRootFrom(a, s, b, m);
      HeapsortSuffix(a, b, m, n);
      HeapsortSplit(a, b, m, n, z);
    }
  }

  /** After the swap and the sift, the new root is some value of the old heap part. */
  lemma NewRootFrom(a: seq<int>, s: seq<int>, b: seq<int>, m: int) returns (z: int)
    requires 2 <= m < |a|
    requires s == Swap(a, 1, m) && b == MaxHeapify(s, m - 1, 1)
    ensures 1 <= z <= m && b[1] == a[z]
  {
    var l := Largest(s, m - 1, 1);
    z := if l == 1 then m else l;
  }

  /** The sorted part grows by the old root, which is at most everything after it. */
  lemma HeapsortSuffix(a: seq<int>, b: seq<int>, m: int, n: int)
    requires 2 <= m <= n < |a| && |b| == |a| && SortingState(a, m, n)
    requires b[m] == a[1] && forall k | m < k < |a| :: b[k] == a[k]
    ensures forall x, y | m - 1 < x <= y <= n :: b[x] <= b[y]
  {
    forall x, y | m - 1 < x <= y <= n ensures b[x] <= b[y] {
      if x == m && y > m {
        assert a[1] <= a[y];
      }
    }
  }

  /** The new heap part is at most its root, a value of the old heap part, and
      that is at most everything from slot `m` on. */
  lemma HeapsortSplit(a: seq<int>, b: seq<int>, m: int, n: int, z: int)
    requires 2 <= m <= n < |a| && |b| == |a| && SortingState(a, m, n)
    requires b[m] == a[1] && forall k | m < k < |a| :: b[k] == a[k]
    requires 1 <= z <= m && b[1] == a[z] && HeapAt(b, m - 1, 1)
    ensures forall x, y | 1 <= x <= m - 1 < y <= n :: b[x] <= b[y]
  {
    DescOfRoot(z);
    HeapRootIsMax(a, m, 1, z);
    forall x, y | 1 <= x <= m - 1 < y <= n ensures b[x] <= b[y] {
      DescOfRoot(x);
      HeapRootIsMax(b, m - 1, 1, x);
      if y > m {
        assert a[z] <= a[y];
      }
    }
  }

  /** The `Heapsort` loop from `m` values in the heap part down to one. */
  function SortDown(a: seq<int>, m: int, n: int): (r: seq<int>)
    requires 0 <= m <= n < |a|
    ensures PermutesRange(a, r, 1, m + 1)
    ensures SortingState(a, m, n) ==> forall x, y | 1 <= x <= y <= n :: r[x] <= r[y]
    decreases m
  {
    if m <= 1 then
      a
    else
      var s := Swap(a, 1, m);
      var b := MaxHeapify(s, m - 1, 1);
      HeapsortStep(a, s, b, m, n);
      var r := SortDown(b, m - 1, n);
      PermutesWiden(b, r, 1, m, 1, m + 1);
      PermutesTrans(a, b, r, 1, m + 1);
      r
  }

  /** `Heapsort` with the size restored to what it was: the values of a heap come
      out ascending in slots 1 to `Size`, as a permutation of what was there. */
  function Heapsort(h: Heap): (r: Heap)
    requires Valid(h)
    ensures Valid(r) && Size(r) == Size(h) && |r.heap| == |h.heap|
    ensures PermutesRange(h.heap, r.heap, 1, h.i + 1)
    ensures multiset(Values(r)) == multiset(Values(h))
    ensures IsHeap(h) ==> Sorted(Values(r))
  {
    var a := SortDown(h.heap, h.i, h.i);
    PermutesRangeSlice(h.heap, a, 1, h.i + 1);
    SortedOut(h, a);
    Heap(a, h.i)
  }

  /** A heap is a sorting state with nothing sorted yet, so what `SortDown`
      leaves in slots 1 to `Size` is ascending. */
  lemma SortedOut(h: Heap, a: seq<int>)
    requires Valid(h) && |a| == |h.heap|
    requires SortingState(h.heap, h.i, h.i) ==> forall x, y | 1 <= x <= y <= h.i :: a[x] <= a[y]
    ensures IsHeap(h) ==> Sorted(a[1..h.i + 1])
  {
    if IsHeap(h) {
      assert SortingState(h.heap, h.i, h.i);
      var v := a[1..h.i + 1];
      forall x, y | 0 <= x <= y < |v| ensures v[x] <= v[y] {
        assert v[x] == a[x + 1] && v[y] == a[y + 1];
      }
    }
  }

  /** `Heapsort` as the Go code writes it: the same sorting loop, then the size is
      reset to `len(Heap) - 1`, which counts every spare slot as a value. */
  function HeapsortAsWritten(h: Heap): (r: Heap)
    requires Valid(h)
    ensures Valid(r) && r.heap == Heapsort(h).heap
    ensures Size(r) == |h.heap| - 1
  {
    Heap(SortDown(h.heap, h.i, h.i), |h.heap| - 1)
  }

  /** The heap `NewEmptyBinaryHeap` followed by `Insert(5)` builds: one value in a
      slice of 50 slots. The Go `Heapsort` leaves it with 49 values. */
  lemma HeapsortAsWrittenGrows()
    ensures var h := Heap([0, 5] + seq(48, _ => 0), 1);
      Valid(h) && IsHeap(h) && Size(h) == 1
      && Size(HeapsortAsWritten(h)) == 49 && Size(Heapsort(h)) == 1
  {
  }
}
