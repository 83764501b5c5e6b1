/** structures/linked-list.go, `DoubleLinkedList`: a circular doubly linked
    list through a sentinel node whose value is nil. Nodes are named by
    numbers, the sentinel by 0; `next`, `prev` and `val` are the pointer and
    value fields, and `order` is the sequence of nodes met from the sentinel
    along `Next`. `Linked` says that the pointers realise that order. */
module DoubleLinkedLists {
  import opened Options
  import opened Order
  import opened LinkedLists

  const Sentinel: nat := 0

  datatype Ring = Ring(order: seq<nat>, val: map<nat, int>, next: map<nat, nat>, prev: map<nat, nat>)

  /** The node at position `k` of the circle, the sentinel standing at `-1`
      and at `|order|`. */
  function Id(order: seq<nat>, k: int): nat {
    if 0 <= k < |order| then order[k] else Sentinel
  }

  /** The pointer structure of a list in the given order: distinct nodes other
      than the sentinel, each with a value, the sentinel without one, each
      `Next` leading to the following node and each `Prev` to the preceding
      one, around the circle. */
  predicate Linked(r: Ring) {
    (forall k | 0 <= k < |r.order| :: r.order[k] != Sentinel && r.order[k] in r.val) &&
    (forall i, j | 0 <= i < j < |r.order| :: r.order[i] != r.order[j]) &&
    Sentinel !in r.val && Sentinel in r.next && Sentinel in r.prev &&
    (forall n | n in r.order :: n in r.next && n in r.prev) &&
    (forall k | -1 <= k < |r.order| :: Id(r.order, k) in r.next && r.next[Id(r.order, k)] == Id(r.order, k + 1)) &&
    (forall k | 0 <= k <= |r.order| :: Id(r.order, k) in r.prev && r.prev[Id(r.order, k)] == Id(r.order, k - 1))
  }

  /** The values in list order. */
  function Values(r: Ring): (s: seq<int>)
    requires Linked(r)
    ensures |s| == |r.order| && forall k | 0 <= k < |s| :: s[k] == r.val[r.order[k]]
  {
    seq(|r.order|, k requires 0 <= k < |r.order| => r.val[r.order[k]])
  }

  /** `Next` and `Prev` are mutually consistent: from every node of the circle,
      the sentinel included, one step forward and one back (or back and
      forward) returns to it. */
  lemma Consistent(r: Ring, n: nat)
    requires Linked(r) && (n == Sentinel || n in r.order)
    ensures n in r.next && r.next[n] in r.prev && r.prev[r.next[n]] == n
    ensures n in r.prev && r.prev[n] in r.next && r.next[r.prev[n]] == n
  {
    var k :| -1 <= k < |r.order| && Id(r.order, k) == n by {
      if n != Sentinel {
        var j :| 0 <= j < |r.order| && r.order[j] == n;
        assert Id(r.order, j) == n;
      } else {
        assert Id(r.order, -1) == n;
      }
    }
    assert r.next[Id(r.order, k)] == Id(r.order, k + 1);
    assert r.prev[Id(r.order, k + 1)] == Id(r.order, k);
    if k == -1 {
      assert Id(r.order, |r.order|) == n;
      assert r.prev[Id(r.order, |r.order|)] == Id(r.order, |r.order| - 1);
      assert r.next[Id(r.order, |r.order| - 1)] == Id(r.order, |r.order|);
    } else {
      assert r.prev[Id(r.order, k)] == Id(r.order, k - 1);
      assert r.next[Id(r.order, k - 1)] == Id(r.order, k);
    }
  }

  /** `NewDoubleLinkedList`: the sentinel alone, its `Prev` and `Next` itself. */
  function NewDoubleLinkedList(): (r: Ring)
    ensures Linked(r) && r.order == []
    ensures r.next[Sentinel] == Sentinel && r.prev[Sentinel] == Sentinel
  {
    Ring([], map[], map[Sentinel := Sentinel], map[Sentinel := Sentinel])
  }

  /** `Insert`: a new node `id` holding `v` is linked in right after the
      sentinel, in the four assignments of the Go code. */
  function Insert(r: Ring, id: nat, v: int): (r': Ring)
    requires Linked(r) && id != Sentinel && id !in r.order
    ensures Linked(r') && r'.order == [id] + r.order
    ensures Values(r') == [v] + Values(r)
  {
    var n1 := r.next[id := r.next[Sentinel]];
    var p1 := r.prev[n1[Sentinel] := id];
    var n2 := n1[Sentinel := id];
    var p2 := p1[id := Sentinel];
    var r' := Ring([id] + r.order, r.val[id := v], n2, p2);
    InsertLinked(r, id, v, r');
    r'
  }

  lemma InsertLinked(r: Ring, id: nat, v: int, r': Ring)
    requires Linked(r) && id != Sentinel && id !in r.order
    requires r' == Ring([id] + r.order, r.val[id := v],
      r.next[id := r.next[Sentinel]][Sentinel := id],
      r.prev[r.next[Sentinel] := id][id := Sentinel])
    ensures Linked(r')
  {
    var o, o' := r.order, r'.order;
    assert forall k | -1 <= k <= |o| :: Id(o', k + 1) == Id(o, k) || (k == -1 && Id(o', k + 1) == id);
    forall k | -1 <= k < |o'|
      ensures Id(o', k) in r'.next && r'.next[Id(o', k)] == Id(o', k + 1)
    {
      if k == -1 {
      } else if k == 0 {
        assert r.next[Id(o, -1)] == Id(o, 0);
      } else {
        assert Id(o', k) == Id(o, k - 1) && Id(o', k + 1) == Id(o, k);
        assert r.next[Id(o, k - 1)] == Id(o, k);
      }
    }
    forall k | 0 <= k <= |o'|
      ensures Id(o', k) in r'.prev && r'.prev[Id(o', k)] == Id(o', k - 1)
    {
      if k == 0 {
      } else if k == 1 {
        assert r.next[Id(o, -1)] == Id(o, 0);
      } else {
        assert Id(o', k) == Id(o, k - 1) && Id(o', k - 1) == Id(o, k - 2);
        assert r.prev[Id(o, k - 1)] == Id(o, k - 2);
        assert r.next[Id(o, -1)] == Id(o, 0);
      }
    }
  }

  /** The position of a node of the list. */
  function IndexOf(order: seq<nat>, n: nat): (k: nat)
    requires n in order
    ensures k < |order| && order[k] == n && n !in order[..k]
    decreases |order|
  {
    if order[0] == n then 0
    else
      var k := IndexOf(order[1..], n);
      assert order[..k + 1] == [order[0]] + order[1..][..k];
      k + 1
  }

  /** The circle with the node at position `k` left out. */
  lemma IdsRemoved(o: seq<nat>, k: nat, o': seq<nat>)
    requires k < |o| && o' == o[..k] + o[k + 1..]
    ensures forall j {:trigger Id(o', j)} | -1 <= j <= |o'| :: Id(o', j) == (if j < k then Id(o, j) else Id(o, j + 1))
  {
    forall j | -1 <= j <= |o'|
      ensures Id(o', j) == (if j < k then Id(o, j) else Id(o, j + 1))
    {
      if 0 <= j < |o'| {
        assert o'[j] == (if j < k then o[j] else o[j + 1]);
      }
    }
  }

  /** `DeleteNode(n)`: the neighbours of `n` are linked to each other, in the
      two assignments of the Go code; `n` leaves the order and every other node
      keeps its place. A nil `n` panics, and the sentinel is never passed. */
  function DeleteNode(r: Ring, n: nat): (r': Ring)
    requires Linked(r) && n in r.order
    ensures Linked(r')
    ensures r'.order == r.order[..IndexOf(r.order, n)] + r.order[IndexOf(r.order, n) + 1..]
    ensures Values(r') == Values(r)[..IndexOf(r.order, n)] + Values(r)[IndexOf(r.order, n) + 1..]
  {
    Consistent(r, n);
    var n1 := r.next[r.prev[n] := r.next[n]];
    var p1 := r.prev[n1[n] := r.prev[n]];
    var k := IndexOf(r.order, n);
    var r' := Ring(r.order[..k] + r.order[k + 1..], r.val, n1, p1);
    DeleteLinked(r, n, k, r');
    r'
  }

  lemma DeleteLinked(r: Ring, n: nat, k: nat, r': Ring)
    requires Linked(r) && k < |r.order| && r.order[k] == n
    requires n in r.next && n in r.prev
    requires r' == Ring(r.order[..k] + r.order[k + 1..], r.val,
      r.next[r.prev[n] := r.next[n]],
      r.prev[r.next[n] := r.prev[n]])
    ensures Linked(r')
    ensures Values(r') == Values(r)[..k] + Values(r)[k + 1..]
  {
    DeleteNext(r, n, k, r');
    DeletePrev(r, n, k, r');
  }

  /** After the deletion every `Next` leads to the following node. */
  lemma DeleteNext(r: Ring, n: nat, k: nat, r': Ring)
    requires Linked(r) && k < |r.order| && r.order[k] == n
    requires r'.order == r.order[..k] + r.order[k + 1..]
    requires n in r.prev && r'.next == r.next[r.prev[n] := r.next[n]]
    ensures forall j | -1 <= j < |r'.order| :: Id(r'.order, j) in r'.next && r'.next[Id(r'.order, j)] == Id(r'.order, j + 1)
  {
    var o, o' := r.order, r'.order;
    IdsRemoved(o, k, o');
    assert r.prev[Id(o, k)] == Id(o, k - 1) && r.next[Id(o, k)] == Id(o, k + 1);
    forall j | -1 <= j < |o'|
      ensures Id(o', j) in r'.next && r'.next[Id(o', j)] == Id(o', j + 1)
    {
      if j < k - 1 {
        assert r.next[Id(o, j)] == Id(o, j + 1);
      } else if j == k - 1 {
      } else {
        assert r.next[Id(o, j + 1)] == Id(o, j + 2);
      }
    }
  }

  /** After the deletion every `Prev` leads to the preceding node. */
  lemma DeletePrev(r: Ring, n: nat, k: nat, r': Ring)
    requires Linked(r) && k < |r.order| && r.order[k] == n
    requires r'.order == r.order[..k] + r.order[k + 1..]
    requires n in r.next && r'.prev == r.prev[r.next[n] := r.prev[n]]
    ensures forall j | 0 <= j <= |r'.order| :: Id(r'.order, j) in r'.prev && r'.prev[Id(r'.order, j)] == Id(r'.order, j - 1)
  {
    var o, o' := r.order, r'.order;
    IdsRemoved(o, k, o');
    assert r.prev[Id(o, k)] == Id(o, k - 1) && r.next[Id(o, k)] == Id(o, k + 1);
    forall j | 0 <= j <= |o'|
      ensures Id(o', j) in r'.prev && r'.prev[Id(o', j)] == Id(o', j - 1)
    {
      if j < k {
        assert r.prev[Id(o, j)] == Id(o, j - 1);
      } else if j == k {
      } else {
        assert r.prev[Id(o, j + 1)] == Id(o, j);
      }
    }
  }

  /** `Search`: follows `Next` from the sentinel while the next node has a value
      (so until the circle closes) and returns the first node whose value
      compares equal, or nil. */
  method Search(r: Ring, v: int) returns (res: Option<nat>)
    requires Linked(r)
    ensures res.None? <==> v !in Values(r)
    ensures res.Some? ==> FirstMatch(Values(r), v).Some? && res.value == r.order[FirstMatch(Values(r), v).value]
  {
    var pt := Sentinel;
    ghost var k := 0;
    while r.next[pt] in r.val
      invariant 0 <= k <= |r.order| && pt == Id(r.order, k - 1)
      invariant v !in Values(r)[..k]
      decreases |r.order| - k
    {
      assert r.next[pt] == Id(r.order, k);
      pt := r.next[pt];
      if Compare(r.val[pt], v) == 0 {
        FirstMatchAt(Values(r), v, k);
        return Some(pt);
      }
      assert Values(r)[..k + 1] == Values(r)[..k] + [Values(r)[k]];
      k := k + 1;
    }
    assert r.next[pt] == Id(r.order, k);
    assert Values(r)[..k] == Values(r);
    return None;
  }

  /** `Delete`: `DeleteNode(Search(v))`. When no node matches, `DeleteNode`
      dereferences nil: that run is `None`. Otherwise the first matching node
      leaves the list and is returned. */
  method Delete(r: Ring, v: int) returns (res: Option<(Ring, nat)>)
    requires Linked(r)
    ensures res.None? <==> v !in Values(r)
    ensures res.Some? ==> Linked(res.value.0) && res.value.1 in r.order && r.val[res.value.1] == v
    ensures res.Some? ==> (FirstMatch(Values(r), v).Some? &&
      Values(res.value.0) == Values(r)[..FirstMatch(Values(r), v).value] + Values(r)[FirstMatch(Values(r), v).value + 1..])
  {
    var node := Search(r, v);
    if node.None? {
      return None;
    }
    var k := FirstMatch(Values(r), v).value;
    assert IndexOf(r.order, node.value) == k;
    return Some((DeleteNode(r, node.value), node.value));
  }
}
