/** structures/bstree.go: the variant whose `Search` and `Delete` hand back the
    value found and whose `Values` queues nil pointers for missing children. Its
    `Insert` is the duplicate-allowing descent of `BinaryTrees.Insert` (the loop
    is `BinaryTrees.InsertLoop`), and `Delete` is `BinaryTrees.Delete`. */
module BsTree {
  import opened Options
  import opened Order
  import opened BinaryTrees
  import opened Levels
  import opened LevelRebuild
  import opened LevelCopy
  import Flatten
  import Sort
  import opened Medians
  import BinarySearchTree

  /** `Search`: the value of the first node on the descent that compares equal. */
  method Search(t: Tree, x: int) returns (r: Option<int>)
    ensures r.Some? ==> r.value == x
    ensures r.Some? <==> BinaryTrees.Search(t, x).Some?
    ensures Ordered(t) ==> (r.Some? <==> x in Elems(t))
  {
    var n := SearchLoop(t, x);
    if n.Some? {
      return Some(Subtree(t, n.value).val);
    }
    return None;
  }

  /** `Delete`: the value of the deleted node, or nothing, with the tree unchanged,
      when the search fails. */
  function Delete(t: Tree, x: int): (res: (Tree, Option<int>))
    ensures res.1.Some? ==> res.1.value == x
    ensures res.1.Some? <==> BinaryTrees.Search(t, x).Some?
    ensures Ordered(t) ==> (res.1.Some? <==> x in Elems(t))
    ensures res.1.None? ==> res.0 == t
    ensures res.1.Some? ==> Elems(res.0) == Elems(t) - multiset{x}
    ensures Ordered(t) ==> Ordered(res.0)
  {
    var d := BinaryTrees.Delete(t, x);
    (d.0, if d.1 then Some(x) else None)
  }

  /** `Values(fill)`: the values level by level, from the root down to the
      deepest level. With `fill` set, a nil pointer is queued for every missing
      child; the next level then dequeues it and the `.(*Node)` assertion on an
      untyped nil fails, so the call fails (`None`) exactly when a placeholder
      lands on a level above the height, which is when the tree is not perfect. */
  method Values(t: Tree, fill: bool) returns (r: Option<seq<seq<int>>>)
    ensures r.None? <==> !GapFree(t, Height(t), fill)
    ensures !fill ==> r.Some?
    ensures r.Some? ==> r.value == LevelsTo(t, Height(t))
  {
    if t == Nil {
      return Some([]);
    }
    var queue1: seq<Tree> := [t];
    var queue2: seq<Tree> := [];
    var ans: seq<seq<int>> := [];
    var cache: seq<int> := [];
    var hasRealValInNextLoop := false;
    ghost var k: nat := 0;
    ghost var done: seq<Tree> := [];
    LoopStart(t, fill);
    while true
      invariant k < Height(t)
      invariant LoopInv(t, fill, k, done, queue1, queue2, cache, hasRealValInNextLoop, ans)
      decreases Height(t) - k, |queue1|
    {
      if queue1 == [] {
        LoopNextLevel(t, fill, k, done, queue2, cache, hasRealValInNextLoop, ans);
        ans := ans + [cache];
        if !hasRealValInNextLoop || queue2 == [] {
          break;
        }
        queue1 := queue2;
        queue2 := [];
        cache := [];
        hasRealValInNextLoop := false;
        k := k + 1;
        done := [];
      } else {
        var cur := queue1[0];
        ghost var rest := queue1[1..];
        queue1 := queue1[1..];
        if cur == Nil {
          LoopGap(t, fill, k, done, rest, queue2, cache, hasRealValInNextLoop, ans);
          return None;
        }
        LoopDequeue(t, fill, k, done, cur, rest, queue2, cache, hasRealValInNextLoop, ans);
        cache := cache + [cur.val];
        queue2, hasRealValInNextLoop := EnqueueChildren(cur, fill, queue2, hasRealValInNextLoop);
        done := done + [cur];
      }
    }
    GapFreeWithoutFill(t, k + 1);
    return Some(ans);
  }

  /** The state of the loop of `Values` partway through level `k`: the entries
      of the level already dequeued (`done`) followed by those still queued make
      up the level, `queue2` holds what `done` contributes to the next level,
      `cache` their values, and `ans` every level above. */
  ghost predicate LoopInv(t: Tree, fill: bool, k: nat, done: seq<Tree>, queue1: seq<Tree>,
    queue2: seq<Tree>, cache: seq<int>, has: bool, ans: seq<seq<int>>)
  {
    k < Height(t) &&
    done + queue1 == ItemsAt(t, k, fill) &&
    Nil !in done &&
    queue2 == Kids(done, fill) &&
    cache == Vals(done) &&
    (has <==> Vals(queue2) != []) &&
    ans == LevelsTo(t, k) &&
    GapFree(t, k, fill)
  }

  lemma LoopStart(t: Tree, fill: bool)
    requires t.Node?
    ensures LoopInv(t, fill, 0, [], [t], [], [], false, [])
  {
    FirstLevel(t, fill);
  }

  /** A placeholder at the front of the queue: the tree has a gap above its height. */
  lemma LoopGap(t: Tree, fill: bool, k: nat, done: seq<Tree>, rest: seq<Tree>,
    queue2: seq<Tree>, cache: seq<int>, has: bool, ans: seq<seq<int>>)
    requires LoopInv(t, fill, k, done, [Nil] + rest, queue2, cache, has, ans)
    ensures fill && !GapFree(t, Height(t), fill)
  {
    assert ItemsAt(t, k, fill)[|done|] == Nil;
    assert HasGap(t, k, fill);
    GapFreeWithoutFill(t, k + 1);
  }

  /** A real node at the front of the queue moves to `done`. */
  lemma LoopDequeue(t: Tree, fill: bool, k: nat, done: seq<Tree>, cur: Tree, rest: seq<Tree>,
    queue2: seq<Tree>, cache: seq<int>, has: bool, ans: seq<seq<int>>)
    requires cur.Node?
    requires LoopInv(t, fill, k, done, [cur] + rest, queue2, cache, has, ans)
    ensures LoopInv(t, fill, k, done + [cur], rest,
      queue2 + ChildEntry(cur.left, fill) + ChildEntry(cur.right, fill), cache + [cur.val],
      has || cur.left.Node? || cur.right.Node?, ans)
  {
    MoveFront(done, cur, rest, ItemsAt(t, k, fill));
    DequeueNode(done, cur, fill);
  }

  /** Moving the front of the queue to the dequeued part keeps the level. */
  lemma MoveFront(done: seq<Tree>, cur: Tree, rest: seq<Tree>, level: seq<Tree>)
    requires done + ([cur] + rest) == level
    ensures (done + [cur]) + rest == level
  {
  }

  /** A level fully dequeued: its values complete `ans`, and the loop goes on
      to the next level exactly when that level lies above the height. */
  lemma LoopNextLevel(t: Tree, fill: bool, k: nat, done: seq<Tree>,
    queue2: seq<Tree>, cache: seq<int>, has: bool, ans: seq<seq<int>>)
    requires LoopInv(t, fill, k, done, [], queue2, cache, has, ans)
    ensures ans + [cache] == LevelsTo(t, k + 1)
    ensures GapFree(t, k + 1, fill)
    ensures (!has || queue2 == []) <==> k + 1 == Height(t)
    ensures has && queue2 != [] ==> LoopInv(t, fill, k + 1, [], queue2, [], [], false, ans + [cache])
  {
    assert done == ItemsAt(t, k, fill);
    FinishLevel(t, k, fill, done);
  }

  /** The children of a dequeued node join the next level's queue: a child
      that is present, and a missing one as a placeholder when filling. */
  method EnqueueChildren(cur: Tree, fill: bool, queue: seq<Tree>, hasReal: bool)
    returns (queue': seq<Tree>, hasReal': bool)
    requires cur.Node?
    ensures queue' == queue + ChildEntry(cur.left, fill) + ChildEntry(cur.right, fill)
    ensures hasReal' <==> hasReal || cur.left.Node? || cur.right.Node?
  {
    queue', hasReal' := queue, hasReal;
    if cur.left != Nil {
      queue' := queue' + [cur.left];
      hasReal' := true;
    } else if fill {
      queue' := queue' + [Nil];
    }
    if cur.right != Nil {
      queue' := queue' + [cur.right];
      hasReal' := true;
    } else if fill {
      queue' := queue' + [Nil];
    }
  }

  /** `FlattenedValues(fill)`: the levels of `Values` laid end to end. It fails
      when `Values` fails; otherwise every stored value appears in it exactly as
      often as it is stored. */
  method FlattenedValues(t: Tree, fill: bool) returns (r: Option<seq<int>>)
    ensures r.None? <==> !GapFree(t, Height(t), fill)
    ensures !fill ==> r.Some?
    ensures r.Some? ==> r.value == Flatten.Concat(LevelsTo(t, Height(t)))
    ensures r.Some? ==> multiset(r.value) == Elems(t)
  {
    var levels := Values(t, fill);
    if levels.None? {
      return None;
    }
    var flat := Flatten.Flatten2D(levels.value);
    LevelsHoldTree(t, Height(t));
    return Some(flat);
  }

  /** `Depth`: the number of levels `Values` lists, which is the height: no node
      lies deeper and some node lies exactly that deep. */
  method Depth(t: Tree) returns (d: nat)
    ensures d == Height(t)
    ensures forall p | ValidPath(t, p) :: |p| < d
    ensures t.Node? ==> exists p | ValidPath(t, p) :: |p| + 1 == d
  {
    var levels := Values(t, false);
    d := |levels.value|;
    BinarySearchTree.HeightBounds(t);
  }

  /** `Copy`: the level-order listing inserted into an empty tree. The copy holds
      the same values and has the shape `Insert` builds; a tree of that shape,
      which is every tree built by `Insert` alone and every search tree of
      distinct values, is copied exactly. */
  method Copy(t: Tree) returns (r: Tree)
    ensures Elems(r) == Elems(t)
    ensures Shaped(r)
    ensures Shaped(t) ==> r == t
    ensures Ordered(t) && NoDuplicates(Elems(t)) ==> r == t
  {
    if Ordered(t) && NoDuplicates(Elems(t)) {
      DistinctOrderedShaped(t);
    }
    var values := FlattenedValues(t, false);
    r := InsertAll(Nil, values.value);
    InsertAllKeepsShape(Nil, values.value);
    if Shaped(t) {
      LevelOrderRebuilds(t, Height(t));
    }
  }

  /** `Rebuild`: the level-order listing sorted, rearranged medians first, and
      inserted into an empty tree. The result holds the same values, its walk is
      their sorted order, and its root is the median of that walk. */
  method Rebuild(t: Tree) returns (r: Tree)
    ensures Elems(r) == Elems(t)
    ensures Shaped(r) && Ordered(r)
    ensures Sorted(InOrder(r))
    ensures t.Node? ==> r.Node? && r.val == Median(InOrder(r))
  {
    var values := FlattenedValues(t, false);
    var ok, sorted := Sort.Sort(values.value, true);
    var order := Rearrange(sorted, 0, |sorted| - 1);
    RearrangeWhole(sorted, order);
    r := InsertAll(Nil, order);
    RebuildFacts(t, sorted, order, r);
  }

  /** Rearranging a whole slice keeps its values and puts its median first. */
  lemma RearrangeWhole(sorted: seq<int>, order: seq<int>)
    requires order == Rearrange(sorted, 0, |sorted| - 1)
    ensures multiset(order) == multiset(sorted)
    ensures sorted != [] ==> order != [] && order[0] == Median(sorted)
  {
    assert sorted[0..|sorted|] == sorted;
    RearrangeHead(sorted);
  }

  lemma RebuildFacts(t: Tree, sorted: seq<int>, order: seq<int>, r: Tree)
    requires Sorted(sorted) && multiset(sorted) == Elems(t)
    requires multiset(order) == multiset(sorted)
    requires sorted != [] ==> order != [] && order[0] == Median(sorted)
    requires r == InsertAll(Nil, order)
    ensures Elems(r) == Elems(t)
    ensures Shaped(r) && Ordered(r)
    ensures Sorted(InOrder(r))
    ensures t.Node? ==> r.Node? && r.val == Median(InOrder(r))
  {
    RebuildWalk(t, sorted, order, r);
    if t.Node? {
      assert t.val in multiset(sorted);
      FirstInsertedIsRoot(order);
    }
  }

  /** The rebuilt tree's walk is the sorted listing. */
  lemma RebuildWalk(t: Tree, sorted: seq<int>, order: seq<int>, r: Tree)
    requires Sorted(sorted) && multiset(sorted) == Elems(t)
    requires multiset(order) == Elems(t) && r == InsertAll(Nil, order)
    ensures Elems(r) == Elems(t)
    ensures Shaped(r) && Ordered(r)
    ensures InOrder(r) == sorted
  {
    InsertAllKeepsShape(Nil, order);
    ShapedIsOrdered(r);
    OrderedIffSorted(r);
    SortedUnique(InOrder(r), sorted);
  }

  /** The first value inserted into an empty tree stays at its root. */
  lemma FirstInsertedIsRoot(s: seq<int>)
    requires s != []
    ensures InsertAll(Nil, s).Node? && InsertAll(Nil, s).val == s[0]
  {
    assert s == [s[0]] + s[1..];
    RootOfInsertAll(s[0], s[1..], s);
  }

  lemma RootOfInsertAll(x: int, rest: seq<int>, s: seq<int>)
    requires s == [x] + rest
    ensures InsertAll(Nil, s).Node? && InsertAll(Nil, s).val == x
  {
    InsertFirst(x, rest);
    InsertAllBelowRoot(Nil, x, Nil, rest);
  }
}
