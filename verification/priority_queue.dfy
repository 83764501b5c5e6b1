/** structures/priorityQ.go: the five methods `Len`, `Less`, `Swap`, `Push`
    and `Pop` over a slice, the back end a binary heap driver works on, with
    the ascending comparator. The type itself keeps no order: `Push` appends
    and `Pop` takes the last value, and the ordering is the driver's work. */
module PriorityQueues {
  import opened Order

  datatype PriorityQ = PriorityQ(queue: seq<int>)

  /** `NewPriorityQ`: no values. */
  function NewPriorityQ(): (pq: PriorityQ)
    ensures Len(pq) == 0 && !HasNext(pq)
  {
    PriorityQ([])
  }

  /** `Len`: the number of values. */
  function Len(pq: PriorityQ): (n: nat)
    ensures n == 0 <==> pq.queue == []
  {
    |pq.queue|
  }

  /** `HasNext`: there is a value to pop. */
  function HasNext(pq: PriorityQ): (b: bool)
    ensures b <==> Len(pq) != 0
  {
    |pq.queue| != 0
  }

  /** `Less(i, j)`: true unless the comparator says the value at `i` is the
      greater one; with the ascending comparator, the value at `i` is at most
      the one at `j`. Indexes outside the slice panic. */
  function Less(pq: PriorityQ, i: int, j: int): (b: bool)
    requires 0 <= i < |pq.queue| && 0 <= j < |pq.queue|
    ensures b <==> pq.queue[i] <= pq.queue[j]
  {
    Compare(pq.queue[i], pq.queue[j]) != 1
  }

  /** `Less` is total and transitive, the order a heap driver relies on. */
  lemma LessTotalOrder(pq: PriorityQ)
    ensures forall i, j | 0 <= i < |pq.queue| && 0 <= j < |pq.queue| :: Less(pq, i, j) || Less(pq, j, i)
    ensures forall i, j, k | 0 <= i < |pq.queue| && 0 <= j < |pq.queue| && 0 <= k < |pq.queue| ::
      Less(pq, i, j) && Less(pq, j, k) ==> Less(pq, i, k)
  {
  }

  /** `Swap(i, j)`: the two positions exchange their values and nothing else
      changes. */
  function Swap(pq: PriorityQ, i: int, j: int): (r: PriorityQ)
    requires 0 <= i < |pq.queue| && 0 <= j < |pq.queue|
    ensures Len(r) == Len(pq)
    ensures r.queue[i] == pq.queue[j] && r.queue[j] == pq.queue[i]
    ensures forall k | 0 <= k < |pq.queue| && k != i && k != j :: r.queue[k] == pq.queue[k]
    ensures multiset(r.queue) == multiset(pq.queue)
  {
    PriorityQ(pq.queue[i := pq.queue[j]][j := pq.queue[i]])
  }

  /** Swapping twice restores the queue. */
  lemma SwapTwice(pq: PriorityQ, i: int, j: int)
    requires 0 <= i < |pq.queue| && 0 <= j < |pq.queue|
    ensures Swap(Swap(pq, i, j), i, j) == pq
  {
    assert Swap(Swap(pq, i, j), i, j).queue == pq.queue;
  }

  /** `Push`: the value goes to the end of the slice. */
  function Push(pq: PriorityQ, v: int): (r: PriorityQ)
    ensures r.queue == pq.queue + [v]
    ensures Len(r) == Len(pq) + 1
  {
    PriorityQ(pq.queue + [v])
  }

  /** `Pop`: the last value of the slice leaves and is returned. An empty queue
      makes the slice index panic. */
  function Pop(pq: PriorityQ): (res: (PriorityQ, int))
    requires HasNext(pq)
    ensures Len(res.0) == Len(pq) - 1
    ensures pq.queue == res.0.queue + [res.1]
  {
    (PriorityQ(pq.queue[..|pq.queue| - 1]), pq.queue[|pq.queue| - 1])
  }

  /** `Pop` undoes `Push`: called on their own, without a heap driver, the two
      give last-in first-out order, whatever the values. */
  lemma PopPush(pq: PriorityQ, v: int)
    ensures HasNext(Push(pq, v)) && Pop(Push(pq, v)) == (pq, v)
  {
    assert (pq.queue + [v])[..|pq.queue|] == pq.queue;
  }

  /** `Reset`: empty again. */
  function Reset(pq: PriorityQ): (r: PriorityQ)
    ensures Len(r) == 0 && !HasNext(r)
  {
    PriorityQ([])
  }

  /** `Copy`: a new slice of the same length filled position by position with
      copies of the values, and the same comparator. */
  method Copy(pq: PriorityQ) returns (r: PriorityQ)
    ensures Len(r) == Len(pq)
    ensures forall i | 0 <= i < Len(pq) :: r.queue[i] == pq.queue[i]
  {
    var cpy := seq(|pq.queue|, _ => 0);
    var i := 0;
    while i < |pq.queue|
      invariant 0 <= i <= |pq.queue| && |cpy| == |pq.queue|
      invariant forall k | 0 <= k < i :: cpy[k] == pq.queue[k]
    {
      cpy := cpy[i := pq.queue[i]];
      i := i + 1;
    }
    r := PriorityQ(cpy);
  }
}
