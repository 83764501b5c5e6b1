/** structures/bst.go: the variant whose `Search` hands back the node found,
    whose `Delete` only reports success, and whose `Values` fills missing
    children with a `DummyNode`, a node without value or children. In the model
    that placeholder is `Nil`: it caches `nil`, and its two missing children are
    queued as two more placeholders. */
module Bst {
  import opened Options
  import opened Order
  import opened BinaryTrees
  import opened Levels
  import opened LevelRebuild
  import opened LevelCopy
  import Flatten
  import Sort
  import opened Medians
  import BinarySearchTree
  import BsTree

  /** `Insert`: one more occurrence of the value, hung as a new leaf where the
      descent rule leads. The walk gains exactly that one value, the search order
      and the shape `Insert` builds are both kept. */
  method Insert(t: Tree, x: int) returns (r: Tree)
    ensures Elems(r) == Elems(t) + multiset{x}
    ensures exists k | 0 <= k <= Size(t) :: InOrder(r) == InOrder(t)[..k] + [x] + InOrder(t)[k..]
    ensures Ordered(t) ==> Ordered(r)
    ensures Shaped(t) ==> Shaped(r)
  {
    r := InsertLoop(t, x);
    var k := InsertSplice(t, x);
    if Shaped(t) {
      InsertKeepsShape(t, x);
    }
  }

  /** `Search`: the first node on the descent whose value compares equal, as a
      subtree; for a search tree it is found exactly when the value is stored. */
  method Search(t: Tree, x: int) returns (r: Option<Tree>)
    ensures r.Some? ==> r.value.Node? && r.value.val == x
    ensures r.Some? <==> BinaryTrees.Search(t, x).Some?
    ensures r.Some? ==> r.value == Subtree(t, BinaryTrees.Search(t, x).value)
    ensures Ordered(t) ==> (r.Some? <==> x in Elems(t))
  {
    var n := SearchLoop(t, x);
    if n.Some? {
      return Some(Subtree(t, n.value));
    }
    return None;
  }

  /** `Delete`: true when the search finds a node, which in a search tree is
      exactly when `x` is stored; then exactly one position of the walk, one
      holding `x`, is dropped and the rest keeps its order, so a search tree
      stays one. */
  function Delete(t: Tree, x: int): (res: (Tree, bool))
    ensures res.1 <==> BinaryTrees.Search(t, x).Some?
    ensures Ordered(t) ==> (res.1 <==> x in Elems(t))
    ensures !res.1 ==> res.0 == t
    ensures res.1 ==> exists i | 0 <= i < Size(t) ::
      InOrder(t)[i] == x && InOrder(res.0) == InOrder(t)[..i] + InOrder(t)[i + 1..]
    ensures Ordered(t) ==> Ordered(res.0)
  {
    var n := BinaryTrees.Search(t, x);
    var res := DeleteNode(t, n);
    assert res == BinaryTrees.Delete(t, x);
    if n.Some? then
      IndexInWalk(t, n.value);
      res
    else
      res
  }

  /** `Values(replacement)`: the caches level by level, from the root down to the
      deepest level. With `replacement` each level has all of its positions,
      `nil` where there is no node; without it, only the nodes. The loop stops at
      the first level without a real value, or when no entry was queued. */
  method Values(t: Tree, fill: bool) returns (ans: seq<seq<Option<int>>>)
    ensures ans == Filled(t, Height(t), fill)
    ensures |ans| == Height(t)
  {
    if t == Nil {
      return [];
    }
    var queue1: seq<Tree> := [t];
    ans := [];
    ghost var k: nat := 0;
    FirstLevel(t, fill);
    while true
      invariant k <= Height(t)
      invariant queue1 == ItemsAt(t, k, fill)
      invariant ans == Filled(t, k, fill)
      decreases Height(t) - k
    {
      var cache, queue2, hasRealValInThisLoop := DrainLevel(queue1, fill);
      FinishFilledLevel(t, k, fill, queue1);
      if !hasRealValInThisLoop {
        break;
      }
      ans := ans + [cache];
      if queue2 == [] {
        break;
      }
      queue1 := queue2;
      k := k + 1;
    }
  }

  /** Dequeues one level: the values it caches (`nil` for a placeholder), the next
      level it queues, and whether it met a real value. */
  method DrainLevel(queue: seq<Tree>, fill: bool) returns (cache: seq<Option<int>>, next: seq<Tree>, hasReal: bool)
    ensures cache == Labels(queue)
    ensures next == Kids(queue, fill)
    ensures hasReal <==> Vals(queue) != []
  {
    cache, next, hasReal := [], [], false;
    var i := 0;
    while i < |queue|
      invariant 0 <= i <= |queue|
      invariant cache == Labels(queue[..i])
      invariant next == Kids(queue[..i], fill)
      invariant hasReal <==> Vals(queue[..i]) != []
    {
      var cur := queue[i];
      DequeueEntry(queue[..i], cur, fill);
      assert queue[..i + 1] == queue[..i] + [cur];
      if !hasReal && cur.Node? {
        hasReal := true;
      }
      cache := cache + [Label(cur)];
      next := QueueChildren(cur, next, fill);
      i := i + 1;
    }
    assert queue[..i] == queue;
  }

  /** The children of a dequeued entry joining the next queue; a missing child,
      and both children of a placeholder, as a placeholder when filling. */
  method QueueChildren(cur: Tree, queue2: seq<Tree>, fill: bool) returns (q: seq<Tree>)
    ensures q == queue2 + ChildEntry(LeftOf(cur), fill) + ChildEntry(RightOf(cur), fill)
  {
    q := queue2;
    if LeftOf(cur) != Nil {
      q := q + [LeftOf(cur)];
    } else if fill {
      q := q + [Nil];
    }
    if RightOf(cur) != Nil {
      q := q + [RightOf(cur)];
    } else if fill {
      q := q + [Nil];
    }
  }

  /** The levels `Values` lists, read three ways: dropping the `nil`s gives the
      real values of each level; with `replacement` level `k` has all `2^k`
      positions; without it every entry is a value. */
  lemma ValuesLevels(t: Tree, fill: bool)
    ensures forall k | 0 <= k < Height(t) :: Present(Filled(t, Height(t), fill)[k]) == Level(t, k)
    ensures fill ==> forall k | 0 <= k < Height(t) :: |Filled(t, Height(t), fill)[k]| == Pow2(k)
    ensures !fill ==> forall k | 0 <= k < Height(t) :: Filled(t, Height(t), fill)[k] == Somes(Level(t, k))
  {
    FilledPresent(t, Height(t), fill);
    FilledWithoutFill(t, Height(t));
    forall k | 0 <= k < Height(t) ensures fill ==> |Filled(t, Height(t), fill)[k]| == Pow2(k) {
      FilledWidth(t, k);
    }
  }

  /** `FlattenedValues(replacement)`: the caches of `Values` end to end. The
      values present in it are the stored values, each as often as it is stored;
      without `replacement` there is no `nil` in it. */
  method FlattenedValues(t: Tree, fill: bool) returns (r: seq<Option<int>>)
    ensures r == Flatten.Concat(Filled(t, Height(t), fill))
    ensures multiset(Present(r)) == Elems(t)
    ensures !fill ==> r == Somes(Flatten.Concat(LevelsTo(t, Height(t))))
  {
    var levels := Values(t, fill);
    r := Flatten.Flatten2D(levels);
    FlattenedFacts(t, fill);
  }

  lemma FlattenedFacts(t: Tree, fill: bool)
    ensures Present(Flatten.Concat(Filled(t, Height(t), fill))) == Flatten.Concat(LevelsTo(t, Height(t)))
    ensures multiset(Present(Flatten.Concat(Filled(t, Height(t), fill)))) == Elems(t)
    ensures !fill ==> Flatten.Concat(Filled(t, Height(t), fill)) == Somes(Flatten.Concat(LevelsTo(t, Height(t))))
  {
    var h := Height(t);
    PresentConcat(Filled(t, h, fill));
    FilledPresent(t, h, fill);
    LevelsHoldTree(t, h);
    if !fill {
      FilledWithoutFill(t, h);
      SomesConcat(LevelsTo(t, h));
    }
  }

  /** `Depth`: the number of levels `Values(false)` lists, which is the height. */
  method Depth(t: Tree) returns (d: nat)
    ensures d == Height(t)
    ensures forall p | ValidPath(t, p) :: |p| < d
    ensures t.Node? ==> exists p | ValidPath(t, p) :: |p| + 1 == d
  {
    var levels := Values(t, false);
    d := |levels|;
    BinarySearchTree.HeightBounds(t);
  }

  /** `Copy`: every value of `FlattenedValues(false)` inserted into an empty tree;
      a tree of the shape `Insert` builds, which every search tree of distinct
      values has, is copied exactly. */
  method Copy(t: Tree) returns (r: Tree)
    ensures Elems(r) == Elems(t)
    ensures Shaped(r)
    ensures Shaped(t) ==> r == t
    ensures Ordered(t) && NoDuplicates(Elems(t)) ==> r == t
  {
    if Ordered(t) && NoDuplicates(Elems(t)) {
      DistinctOrderedShaped(t);
    }
    var values := FlattenedValues(t, false);
    var listing := Present(values);
    PresentSomes(Flatten.Concat(LevelsTo(t, Height(t))));
    r := InsertAll(Nil, listing);
    InsertAllKeepsShape(Nil, listing);
    if Shaped(t) {
      LevelOrderRebuilds(t, Height(t));
    }
  }

  /** `Rebuild`: the values sorted, rearranged medians first, and inserted into an
      empty tree. The walk of the result is the sorted listing of the values and
      its root is the median of that walk. */
  method Rebuild(t: Tree) returns (r: Tree)
    ensures Elems(r) == Elems(t)
    ensures Shaped(r) && Ordered(r)
    ensures Sorted(InOrder(r))
    ensures t.Node? ==> r.Node? && r.val == Median(InOrder(r))
  {
    var values := FlattenedValues(t, false);
    var listing := Present(values);
    PresentSomes(Flatten.Concat(LevelsTo(t, Height(t))));
    var ok, sorted := Sort.Sort(listing, true);
    var order := Rearrange(sorted, 0, |sorted| - 1);
    BsTree.RearrangeWhole(sorted, order);
    r := InsertAll(Nil, order);
    BsTree.RebuildFacts(t, sorted, order, r);
  }
}
