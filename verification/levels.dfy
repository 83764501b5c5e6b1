/** The breadth-first listing of a binary search tree, level by level, that the
    `Values` methods of structures/bstree.go and structures/bst.go compute with two
    queues, and the facts `Depth`, `FlattenedValues` and `Copy` rest on. A queue
    entry is a `Tree`. When filling is on, `Nil` is the placeholder queued for a
    missing child (a nil pointer in bstree.go, a `DummyNode` in bst.go), and a
    placeholder is followed by two placeholders on the next level. */
module Levels {
  import opened Options
  import opened Order
  import opened BinaryTrees
  import Flatten

  function Pow2(k: nat): (n: nat)
    ensures n >= 1
  {
    if k == 0 then 1 else 2 * Pow2(k - 1)
  }

  /** `n` placeholders. */
  function Nils(n: nat): (s: seq<Tree>)
    ensures |s| == n
  {
    seq(n, _ => Nil)
  }

  /** The queue entries for depth `k` below `t`, left to right. */
  function ItemsAt(t: Tree, k: nat, fill: bool): seq<Tree> {
    match t
    case Nil => if fill then Nils(Pow2(k)) else []
    case Node(l, _, r) => if k == 0 then [t] else ItemsAt(l, k - 1, fill) + ItemsAt(r, k - 1, fill)
  }

  /** What one child pointer contributes to the next queue. */
  function ChildEntry(c: Tree, fill: bool): seq<Tree> {
    if c.Node? || fill then [c] else []
  }

  /** What one dequeued entry contributes to the next queue: a node its two
      children, a missing child turned into a placeholder when filling; a
      placeholder two more placeholders. */
  function KidsOf(n: Tree, fill: bool): seq<Tree> {
    match n
    case Nil => if fill then [Nil, Nil] else []
    case Node(l, _, r) => ChildEntry(l, fill) + ChildEntry(r, fill)
  }

  /** The next queue after dequeuing all of `q` in order. */
  function Kids(q: seq<Tree>, fill: bool): seq<Tree>
    decreases |q|
  {
    if q == [] then [] else Kids(q[..|q| - 1], fill) + KidsOf(q[|q| - 1], fill)
  }

  /** The value a dequeued entry adds to the level's cache: `nil` for a placeholder. */
  function Label(n: Tree): Option<int> {
    if n.Node? then Some(n.val) else None
  }

  function Labels(q: seq<Tree>): (r: seq<Option<int>>)
    ensures |r| == |q|
    decreases |q|
  {
    if q == [] then [] else Labels(q[..|q| - 1]) + [Label(q[|q| - 1])]
  }

  /** The real values among the entries, placeholders skipped. */
  function Vals(q: seq<Tree>): seq<int>
    decreases |q|
  {
    if q == [] then [] else Vals(q[..|q| - 1]) + (if q[|q| - 1].Node? then [q[|q| - 1].val] else [])
  }

  /** The values present in a cache, placeholders skipped. */
  function Present(s: seq<Option<int>>): seq<int>
    decreases |s|
  {
    if s == [] then [] else Present(s[..|s| - 1]) + (if s[|s| - 1].Some? then [s[|s| - 1].value] else [])
  }

  function Somes(s: seq<int>): (r: seq<Option<int>>)
    ensures |r| == |s|
  {
    seq(|s|, i requires 0 <= i < |s| => Some(s[i]))
  }

  /** The real values on level `k`, left to right. */
  function Level(t: Tree, k: nat): seq<int> {
    Vals(ItemsAt(t, k, false))
  }

  /** The first `d` levels. */
  function LevelsTo(t: Tree, d: nat): (ls: seq<seq<int>>)
    ensures |ls| == d
  {
    seq(d, k requires 0 <= k < d => Level(t, k))
  }

  /** The first `d` caches, placeholders included. */
  function Filled(t: Tree, d: nat, fill: bool): (ls: seq<seq<Option<int>>>)
    ensures |ls| == d
  {
    seq(d, k requires 0 <= k < d => Labels(ItemsAt(t, k, fill)))
  }

  /** The children a dequeued entry has; a placeholder has none. */
  function LeftOf(n: Tree): Tree {
    if n.Node? then n.left else Nil
  }

  function RightOf(n: Tree): Tree {
    if n.Node? then n.right else Nil
  }

  /** A placeholder on level `k`, which is where bstree.go's `Values(true)` fails. */
  predicate HasGap(t: Tree, k: nat, fill: bool) {
    Nil in ItemsAt(t, k, fill)
  }

  /** No placeholder on the first `k` levels. */
  ghost predicate GapFree(t: Tree, k: nat, fill: bool) {
    forall j | 0 <= j < k :: !HasGap(t, j, fill)
  }

  // ---------------------------------------------------------------------------
  // Queues

  lemma {:induction false} KidsAppend(a: seq<Tree>, b: seq<Tree>, fill: bool)
    ensures Kids(a + b, fill) == Kids(a, fill) + Kids(b, fill)
    decreases |b|
  {
    if b == [] {
      assert a + b == a;
    } else {
      var b' := b[..|b| - 1];
      assert (a + b)[..|a + b| - 1] == a + b';
      assert (a + b)[|a + b| - 1] == b[|b| - 1];
      KidsAppend(a, b', fill);
    }
  }

  lemma {:induction false} LabelsAppend(a: seq<Tree>, b: seq<Tree>)
    ensures Labels(a + b) == Labels(a) + Labels(b)
    decreases |b|
  {
    if b == [] {
      assert a + b == a;
    } else {
      var b' := b[..|b| - 1];
      assert (a + b)[..|a + b| - 1] == a + b';
      assert (a + b)[|a + b| - 1] == b[|b| - 1];
      LabelsAppend(a, b');
    }
  }

  lemma {:induction false} ValsAppend(a: seq<Tree>, b: seq<Tree>)
    ensures Vals(a + b) == Vals(a) + Vals(b)
    decreases |b|
  {
    if b == [] {
      assert a + b == a;
    } else {
      var b' := b[..|b| - 1];
      assert (a + b)[..|a + b| - 1] == a + b';
      assert (a + b)[|a + b| - 1] == b[|b| - 1];
      ValsAppend(a, b');
    }
  }

  lemma {:induction false} PresentAppend(a: seq<Option<int>>, b: seq<Option<int>>)
    ensures Present(a + b) == Present(a) + Present(b)
    decreases |b|
  {
    if b == [] {
      assert a + b == a;
    } else {
      var b' := b[..|b| - 1];
      assert (a + b)[..|a + b| - 1] == a + b';
      assert (a + b)[|a + b| - 1] == b[|b| - 1];
      PresentAppend(a, b');
    }
  }

  /** Dropping the placeholders from a level's cache leaves the level's real values. */
  lemma {:induction false} PresentLabels(q: seq<Tree>)
    ensures Present(Labels(q)) == Vals(q)
    decreases |q|
  {
    if q != [] {
      var q' := q[..|q| - 1];
      PresentLabels(q');
      PresentAppend(Labels(q'), [Label(q[|q| - 1])]);
      assert Present([Label(q[|q| - 1])]) == Present([]) + (if q[|q| - 1].Node? then [q[|q| - 1].val] else []);
    }
  }

  lemma {:induction false} NilsSplit(m: nat, n: nat)
    ensures Nils(m + n) == Nils(m) + Nils(n)
  {
    assert forall i | 0 <= i < m + n :: Nils(m + n)[i] == (Nils(m) + Nils(n))[i];
  }

  /** A run of `n` placeholders queues `2n` placeholders. */
  lemma {:induction false} KidsOfNils(n: nat)
    ensures Kids(Nils(n), true) == Nils(2 * n)
  {
    if n > 0 {
      assert Nils(n)[..n - 1] == Nils(n - 1);
      KidsOfNils(n - 1);
      NilsSplit(2 * (n - 1), 2);
      assert Nils(2) == [Nil, Nil];
    }
  }

  lemma {:induction false} ValsOfNils(n: nat)
    ensures Vals(Nils(n)) == []
  {
    if n > 0 {
      assert Nils(n)[..n - 1] == Nils(n - 1);
      ValsOfNils(n - 1);
    }
  }

  lemma KidsSingle(n: Tree, fill: bool)
    ensures Kids([n], fill) == KidsOf(n, fill)
  {
    assert [n][..0] == [];
  }

  /** Depth zero below a child pointer is the child's own queue entry. */
  lemma ItemsAtTop(c: Tree, fill: bool)
    ensures ItemsAt(c, 0, fill) == ChildEntry(c, fill)
  {
    if c == Nil && fill {
      assert Nils(Pow2(0)) == [Nil];
    }
  }

  /** Dequeuing level `k` queues exactly level `k + 1`: the two-queue loop walks
      the levels one after another. */
  lemma {:induction false} KidsOfLevel(t: Tree, k: nat, fill: bool)
    ensures Kids(ItemsAt(t, k, fill), fill) == ItemsAt(t, k + 1, fill)
  {
    match t
    case Nil =>
      if fill {
        KidsOfNils(Pow2(k));
      }
    case Node(l, v, r) =>
      if k == 0 {
        KidsOfRoot(l, v, r, fill);
      } else {
        KidsOfLevel(l, k - 1, fill);
        KidsOfLevel(r, k - 1, fill);
        KidsOfLevelBelow(l, v, r, k - 1, fill);
      }
  }

  /** The first step of `KidsOfLevel`: dequeuing the root queues its two children. */
  lemma KidsOfRoot(l: Tree, v: int, r: Tree, fill: bool)
    ensures Kids(ItemsAt(Node(l, v, r), 0, fill), fill) == ItemsAt(Node(l, v, r), 1, fill)
  {
    var t := Node(l, v, r);
    assert ItemsAt(t, 0, fill) == [t];
    KidsSingle(t, fill);
    ItemsAtTop(l, fill);
    ItemsAtTop(r, fill);
  }

  /** The step of `KidsOfLevel` below a node. */
  lemma KidsOfLevelBelow(l: Tree, v: int, r: Tree, k: nat, fill: bool)
    requires Kids(ItemsAt(l, k, fill), fill) == ItemsAt(l, k + 1, fill)
    requires Kids(ItemsAt(r, k, fill), fill) == ItemsAt(r, k + 1, fill)
    ensures Kids(ItemsAt(Node(l, v, r), k + 1, fill), fill) == ItemsAt(Node(l, v, r), k + 2, fill)
  {
    var a, b := ItemsAt(l, k, fill), ItemsAt(r, k, fill);
    assert ItemsAt(Node(l, v, r), k + 1, fill) == a + b;
    assert ItemsAt(Node(l, v, r), k + 2, fill) == ItemsAt(l, k + 1, fill) + ItemsAt(r, k + 1, fill);
    KidsAppend(a, b, fill);
  }

  // ---------------------------------------------------------------------------
  // Levels

  /** A level holds the same real values whether or not placeholders are queued. */
  lemma {:induction false} FillKeepsValues(t: Tree, k: nat)
    ensures Vals(ItemsAt(t, k, true)) == Level(t, k)
  {
    match t
    case Nil =>
      FillKeepsNil(k);
    case Node(l, v, r) =>
      if k > 0 {
        FillKeepsValues(l, k - 1);
        FillKeepsValues(r, k - 1);
        FillKeepsValuesBelow(l, v, r, k - 1);
      } else {
        FillKeepsRoot(l, v, r);
      }
  }

  /** Below a missing node only placeholders are queued. */
  lemma FillKeepsNil(k: nat)
    ensures Vals(ItemsAt(Nil, k, true)) == Level(Nil, k)
  {
    ValsOfNils(Pow2(k));
    assert ItemsAt(Nil, k, false) == [];
  }

  /** At depth zero both queues hold just the root. */
  lemma FillKeepsRoot(l: Tree, v: int, r: Tree)
    ensures Vals(ItemsAt(Node(l, v, r), 0, true)) == Level(Node(l, v, r), 0)
  {
    var t := Node(l, v, r);
    assert ItemsAt(t, 0, true) == [t];
    assert ItemsAt(t, 0, false) == [t];
  }

  /** The step of `FillKeepsValues` below a node. */
  lemma FillKeepsValuesBelow(l: Tree, v: int, r: Tree, k: nat)
    requires Vals(ItemsAt(l, k, true)) == Level(l, k) && Vals(ItemsAt(r, k, true)) == Level(r, k)
    ensures Vals(ItemsAt(Node(l, v, r), k + 1, true)) == Level(Node(l, v, r), k + 1)
  {
    var a, b := ItemsAt(l, k, true), ItemsAt(r, k, true);
    assert ItemsAt(Node(l, v, r), k + 1, true) == a + b;
    ValsAppend(a, b);
    LevelOfNode(l, v, r, k);
  }

  lemma LevelOfRoot(l: Tree, v: int, r: Tree)
    ensures Level(Node(l, v, r), 0) == [v]
  {
    var q := [Node(l, v, r)];
    assert ItemsAt(Node(l, v, r), 0, false) == q;
    assert q[..0] == [];
    assert Vals(q) == Vals([]) + [v];
  }

  /** Below a node, level `k + 1` is the left subtree's level `k` followed by the
      right subtree's. */
  lemma LevelOfNode(l: Tree, v: int, r: Tree, k: nat)
    ensures Level(Node(l, v, r), k + 1) == Level(l, k) + Level(r, k)
  {
    ValsAppend(ItemsAt(l, k, false), ItemsAt(r, k, false));
  }

  /** A level has a real value exactly when it lies above the height. */
  lemma {:induction false} LevelNonEmpty(t: Tree, k: nat)
    ensures Level(t, k) != [] <==> k < Height(t)
    ensures ItemsAt(t, k, false) != [] <==> k < Height(t)
  {
    match t
    case Nil =>
    case Node(l, v, r) =>
      if k == 0 {
        LevelOfRoot(l, v, r);
      } else {
        LevelOfNode(l, v, r, k - 1);
        LevelNonEmpty(l, k - 1);
        LevelNonEmpty(r, k - 1);
      }
  }

  /** Without filling, no placeholder is ever queued. */
  lemma {:induction false} NoGapWithoutFill(t: Tree, k: nat)
    ensures !HasGap(t, k, false)
  {
    match t
    case Nil =>
    case Node(l, _, r) =>
      if k > 0 {
        NoGapWithoutFill(l, k - 1);
        NoGapWithoutFill(r, k - 1);
      }
  }

  /** Without placeholders the cache is just the level's values. */
  lemma {:induction false} LabelsWithoutGaps(q: seq<Tree>)
    requires Nil !in q
    ensures Labels(q) == Somes(Vals(q))
    decreases |q|
  {
    if q != [] {
      var q' := q[..|q| - 1];
      assert Nil !in q' by {
        assert forall i | 0 <= i < |q'| :: q'[i] == q[i];
      }
      LabelsWithoutGaps(q');
      assert q[|q| - 1] in q;
    }
  }

  /** With filling, level `k` has all `2^k` positions. */
  lemma {:induction false} FilledWidth(t: Tree, k: nat)
    ensures |ItemsAt(t, k, true)| == Pow2(k)
  {
    match t
    case Nil =>
    case Node(l, _, r) =>
      if k > 0 {
        FilledWidth(l, k - 1);
        FilledWidth(r, k - 1);
      }
  }

  /** Every value on a level is a value of the tree. */
  lemma {:induction false} LevelInTree(t: Tree, k: nat)
    ensures multiset(Level(t, k)) <= Elems(t)
  {
    if t.Node? {
      if k == 0 {
        RootInTree(t.left, t.val, t.right);
      } else {
        var j: nat := k - 1;
        LevelInTree(t.left, j);
        LevelInTree(t.right, j);
        LevelInNode(t.left, t.val, t.right, j);
        assert Node(t.left, t.val, t.right) == t && j + 1 == k;
      }
    } else {
      assert Level(t, k) == [];
    }
  }

  lemma RootInTree(l: Tree, v: int, r: Tree)
    ensures multiset(Level(Node(l, v, r), 0)) <= Elems(Node(l, v, r))
  {
    LevelOfRoot(l, v, r);
    ElemsNode(l, v, r);
  }

  lemma LevelInNode(l: Tree, v: int, r: Tree, k: nat)
    requires multiset(Level(l, k)) <= Elems(l) && multiset(Level(r, k)) <= Elems(r)
    ensures multiset(Level(Node(l, v, r), k + 1)) <= Elems(Node(l, v, r))
  {
    LevelOfNode(l, v, r, k);
    ElemsNode(l, v, r);
    var a, b := Level(l, k), Level(r, k);
    assert multiset(a + b) == multiset(a) + multiset(b);
  }

  // ---------------------------------------------------------------------------
  // Steps of the two-queue loops

  /** Dequeuing one more entry adds its contributions at the back. */
  lemma DequeueOne(done: seq<Tree>, cur: Tree, fill: bool)
    ensures Kids(done + [cur], fill) == Kids(done, fill) + KidsOf(cur, fill)
    ensures Vals(done + [cur]) == Vals(done) + (if cur.Node? then [cur.val] else [])
    ensures Labels(done + [cur]) == Labels(done) + [Label(cur)]
  {
    var q := done + [cur];
    assert q[..|q| - 1] == done;
  }

  lemma ValsOfEntry(c: Tree, fill: bool)
    ensures Vals(ChildEntry(c, fill)) == (if c.Node? then [c.val] else [])
  {
    if c.Node? || fill {
      assert [c][..0] == [];
    }
  }

  /** Dequeuing a real node: its value joins the cache and its children (or
      placeholders) join the next queue. */
  lemma DequeueNode(done: seq<Tree>, cur: Tree, fill: bool)
    requires cur.Node?
    ensures Kids(done + [cur], fill) == Kids(done, fill) + ChildEntry(cur.left, fill) + ChildEntry(cur.right, fill)
    ensures Vals(done + [cur]) == Vals(done) + [cur.val]
    ensures Labels(done + [cur]) == Labels(done) + [Some(cur.val)]
    ensures Vals(Kids(done + [cur], fill)) != [] <==>
      Vals(Kids(done, fill)) != [] || cur.left.Node? || cur.right.Node?
  {
    DequeueOne(done, cur, fill);
    ValsOfChildren(Kids(done, fill), cur, fill);
  }

  /** The next queue has a real value once it has one already or gets a child. */
  lemma ValsOfChildren(a: seq<Tree>, cur: Tree, fill: bool)
    requires cur.Node?
    ensures Vals(a + ChildEntry(cur.left, fill) + ChildEntry(cur.right, fill)) != [] <==>
      Vals(a) != [] || cur.left.Node? || cur.right.Node?
  {
    var b, c := ChildEntry(cur.left, fill), ChildEntry(cur.right, fill);
    ValsAppend(a + b, c);
    ValsAppend(a, b);
    ValsOfEntry(cur.left, fill);
    ValsOfEntry(cur.right, fill);
  }

  /** Dequeuing any entry, real or placeholder, where a placeholder is a node
      without children: what the loop of bst.go does with a `DummyNode`. */
  lemma DequeueEntry(done: seq<Tree>, cur: Tree, fill: bool)
    ensures Kids(done + [cur], fill) == Kids(done, fill) + ChildEntry(LeftOf(cur), fill) + ChildEntry(RightOf(cur), fill)
    ensures Labels(done + [cur]) == Labels(done) + [Label(cur)]
    ensures Vals(done + [cur]) != [] <==> Vals(done) != [] || cur.Node?
  {
    DequeueOne(done, cur, fill);
    var a, b := ChildEntry(LeftOf(cur), fill), ChildEntry(RightOf(cur), fill);
    assert KidsOf(cur, fill) == a + b;
    Append3(Kids(done, fill), a, b);
    var v := if cur.Node? then [cur.val] else [];
    assert |Vals(done) + v| == |Vals(done)| + |v|;
  }

  lemma Append3<T>(x: seq<T>, a: seq<T>, b: seq<T>)
    ensures x + (a + b) == x + a + b
  {
  }

  /** Dequeuing a placeholder: it caches `nil` and queues two placeholders. */
  lemma DequeuePlaceholder(done: seq<Tree>)
    ensures Kids(done + [Nil], true) == Kids(done, true) + [Nil, Nil]
    ensures Vals(done + [Nil]) == Vals(done)
    ensures Labels(done + [Nil]) == Labels(done) + [None]
    ensures Vals(Kids(done + [Nil], true)) == Vals(Kids(done, true))
  {
    DequeueOne(done, Nil, true);
    ValsAppend(Kids(done, true), [Nil, Nil]);
    assert [Nil, Nil][..1] == [Nil] && [Nil][..0] == [];
  }

  /** A finished level hands over to the next: its queue of children is the next
      level, both levels read the same values with or without placeholders, and
      the next level has a real value exactly when it lies above the height. */
  lemma NextLevel(t: Tree, k: nat, fill: bool)
    ensures Kids(ItemsAt(t, k, fill), fill) == ItemsAt(t, k + 1, fill)
    ensures Vals(ItemsAt(t, k, fill)) == Level(t, k)
    ensures Vals(ItemsAt(t, k + 1, fill)) == Level(t, k + 1)
    ensures Level(t, k + 1) != [] <==> k + 1 < Height(t)
  {
    KidsOfLevel(t, k, fill);
    FillKeepsValues(t, k);
    FillKeepsValues(t, k + 1);
    LevelNonEmpty(t, k + 1);
  }

  /** A level fully dequeued, from the loop's point of view. */
  lemma FinishLevel(t: Tree, k: nat, fill: bool, done: seq<Tree>)
    requires done == ItemsAt(t, k, fill)
    ensures Vals(done) == Level(t, k)
    ensures Kids(done, fill) == ItemsAt(t, k + 1, fill)
    ensures Vals(Kids(done, fill)) != [] <==> k + 1 < Height(t)
    ensures LevelsTo(t, k) + [Level(t, k)] == LevelsTo(t, k + 1)
    ensures GapFree(t, k, fill) && Nil !in done ==> GapFree(t, k + 1, fill)
  {
    NextLevel(t, k, fill);
    LevelsGrow(t, k);
    if GapFree(t, k, fill) && Nil !in done {
      GapFreeGrows(t, k, fill);
    }
  }

  /** The first `k + 1` levels are the first `k` and level `k`. */
  lemma LevelsGrow(t: Tree, k: nat)
    ensures LevelsTo(t, k) + [Level(t, k)] == LevelsTo(t, k + 1)
  {
    assert LevelsTo(t, k) + [Level(t, k)] == LevelsTo(t, k + 1);
  }

  lemma GapFreeGrows(t: Tree, k: nat, fill: bool)
    requires GapFree(t, k, fill) && !HasGap(t, k, fill)
    ensures GapFree(t, k + 1, fill)
  {
  }

  /** Without filling every level is free of placeholders. */
  lemma GapFreeWithoutFill(t: Tree, k: nat)
    ensures GapFree(t, k, false)
  {
    forall j | 0 <= j < k ensures !HasGap(t, j, false) {
      NoGapWithoutFill(t, j);
    }
  }

  /** A level fully dequeued, from the point of view of the loop of bst.go. */
  lemma FinishFilledLevel(t: Tree, k: nat, fill: bool, done: seq<Tree>)
    requires done == ItemsAt(t, k, fill)
    ensures Vals(done) != [] <==> k < Height(t)
    ensures Kids(done, fill) == ItemsAt(t, k + 1, fill)
    ensures Kids(done, fill) == [] ==> !fill && Height(t) <= k + 1
    ensures Filled(t, k, fill) + [Labels(done)] == Filled(t, k + 1, fill)
  {
    NextLevel(t, k, fill);
    FillKeepsValues(t, k);
    LevelNonEmpty(t, k);
    LevelNonEmpty(t, k + 1);
    FilledWidth(t, k + 1);
    assert Filled(t, k, fill) + [Labels(done)] == Filled(t, k + 1, fill);
  }

  /** The root level is the root alone. */
  lemma FirstLevel(t: Tree, fill: bool)
    requires t.Node?
    ensures ItemsAt(t, 0, fill) == [t]
    ensures 0 < Height(t)
  {
  }

  // ---------------------------------------------------------------------------
  // Flattening

  /** The levels of two subtrees, joined level by level. */
  function Zip(a: seq<seq<int>>, b: seq<seq<int>>): (z: seq<seq<int>>)
    requires |a| == |b|
    ensures |z| == |a|
  {
    seq(|a|, k requires 0 <= k < |a| => a[k] + b[k])
  }

  lemma {:induction false} ZipMultiset(a: seq<seq<int>>, b: seq<seq<int>>)
    requires |a| == |b|
    ensures multiset(Flatten.Concat(Zip(a, b)))
         == multiset(Flatten.Concat(a)) + multiset(Flatten.Concat(b))
    decreases |a|
  {
    if a != [] {
      assert Zip(a, b)[1..] == Zip(a[1..], b[1..]);
      ZipMultiset(a[1..], b[1..]);
    }
  }

  /** The levels of a node: its value alone, then its subtrees' levels side by side. */
  lemma LevelsOfNode(l: Tree, v: int, r: Tree, d: nat)
    ensures LevelsTo(Node(l, v, r), d + 1) == [[v]] + Zip(LevelsTo(l, d), LevelsTo(r, d))
  {
    var t := Node(l, v, r);
    forall k | 0 <= k < d + 1
      ensures LevelsTo(t, d + 1)[k] == ([[v]] + Zip(LevelsTo(l, d), LevelsTo(r, d)))[k]
    {
      if k == 0 {
        LevelOfRoot(l, v, r);
      } else {
        LevelOfNode(l, v, r, k - 1);
      }
    }
  }

  /** Levels past the height are empty. */
  lemma LevelsPastHeight(t: Tree, d: nat)
    requires Height(t) <= d
    ensures Flatten.Concat(LevelsTo(t, d + 1)) == Flatten.Concat(LevelsTo(t, d))
  {
    LevelNonEmpty(t, d);
    assert LevelsTo(t, d + 1) == LevelsTo(t, d) + [[]];
    Flatten.ConcatAppend(LevelsTo(t, d), [[]]);
  }

  /** Read level by level, the tree gives back all of its values, each once. */
  lemma {:induction false} LevelsHoldTree(t: Tree, d: nat)
    requires Height(t) <= d
    ensures multiset(Flatten.Concat(LevelsTo(t, d))) == Elems(t)
  {
    match t
    case Nil =>
      if d > 0 {
        LevelsHoldTree(t, d - 1);
        LevelsPastHeight(t, d - 1);
      }
    case Node(l, v, r) =>
      LevelsHoldTree(l, d - 1);
      LevelsHoldTree(r, d - 1);
      LevelsHoldNode(l, v, r, d - 1);
  }

  /** The step of `LevelsHoldTree` at a node. */
  lemma LevelsHoldNode(l: Tree, v: int, r: Tree, d: nat)
    requires multiset(Flatten.Concat(LevelsTo(l, d))) == Elems(l)
    requires multiset(Flatten.Concat(LevelsTo(r, d))) == Elems(r)
    ensures multiset(Flatten.Concat(LevelsTo(Node(l, v, r), d + 1))) == Elems(Node(l, v, r))
  {
    var z := Zip(LevelsTo(l, d), LevelsTo(r, d));
    LevelsOfNode(l, v, r, d);
    ElemsNode(l, v, r);
    ZipMultiset(LevelsTo(l, d), LevelsTo(r, d));
    assert ([[v]] + z)[1..] == z;
    assert Flatten.Concat([[v]] + z) == [v] + Flatten.Concat(z);
  }

  // ---------------------------------------------------------------------------
  // Caches with placeholders

  lemma {:induction false} PresentSomes(s: seq<int>)
    ensures Present(Somes(s)) == s
    decreases |s|
  {
    if s != [] {
      var s' := s[..|s| - 1];
      assert Somes(s)[..|s| - 1] == Somes(s');
      PresentSomes(s');
      assert s == s' + [s[|s| - 1]];
    }
  }

  lemma SomesAppend(a: seq<int>, b: seq<int>)
    ensures Somes(a + b) == Somes(a) + Somes(b)
  {
  }

  /** Placeholders dropped from a flattened listing are the placeholders dropped
      from each level. */
  lemma {:induction false} PresentConcat(ls: seq<seq<Option<int>>>)
    ensures Present(Flatten.Concat(ls)) == Flatten.Concat(seq(|ls|, i requires 0 <= i < |ls| => Present(ls[i])))
    decreases |ls|
  {
    if ls != [] {
      PresentConcat(ls[1..]);
      PresentAppend(ls[0], Flatten.Concat(ls[1..]));
      var ps := seq(|ls|, i requires 0 <= i < |ls| => Present(ls[i]));
      assert ps[1..] == seq(|ls[1..]|, i requires 0 <= i < |ls[1..]| => Present(ls[1..][i]));
    }
  }

  lemma {:induction false} SomesConcat(ls: seq<seq<int>>)
    ensures Somes(Flatten.Concat(ls)) == Flatten.Concat(seq(|ls|, i requires 0 <= i < |ls| => Somes(ls[i])))
    decreases |ls|
  {
    if ls != [] {
      SomesConcat(ls[1..]);
      SomesAppend(ls[0], Flatten.Concat(ls[1..]));
      var ss := seq(|ls|, i requires 0 <= i < |ls| => Somes(ls[i]));
      assert ss[1..] == seq(|ls[1..]|, i requires 0 <= i < |ls[1..]| => Somes(ls[1..][i]));
    }
  }

  /** The caches of the filled listing, placeholders dropped, are the levels. */
  lemma FilledPresent(t: Tree, d: nat, fill: bool)
    ensures forall k | 0 <= k < d :: Present(Filled(t, d, fill)[k]) == Level(t, k)
    ensures seq(d, i requires 0 <= i < d => Present(Filled(t, d, fill)[i])) == LevelsTo(t, d)
  {
    forall k | 0 <= k < d
      ensures Present(Filled(t, d, fill)[k]) == Level(t, k)
    {
      PresentLabels(ItemsAt(t, k, fill));
      FillKeepsValues(t, k);
    }
  }

  /** Without filling, the caches are the levels with every value present. */
  lemma FilledWithoutFill(t: Tree, d: nat)
    ensures Filled(t, d, false) == seq(d, i requires 0 <= i < d => Somes(LevelsTo(t, d)[i]))
  {
    forall k | 0 <= k < d
      ensures Filled(t, d, false)[k] == Somes(Level(t, k))
    {
      NoGapWithoutFill(t, k);
      LabelsWithoutGaps(ItemsAt(t, k, false));
    }
  }
}
