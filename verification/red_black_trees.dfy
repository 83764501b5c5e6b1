/** structures/red-black-tree.go: the red-black tree, as an immutable datatype.
    The shared black sentinel (and a nil child) is `Leaf`; a node is named by its
    path of turns from the root, and the parent pointers the Go code follows upward
    become a zipper: the position being repaired together with the list of its
    ancestors, the parent first. Rotations and recolourings act on the subtree at
    that position, and plugging the subtree back into its ancestors is the parent's
    child pointer being reset. */
module RedBlackTrees {
  import opened Options
  import opened Order
  import opened BinaryTrees
  import BinarySearchTree

  datatype Color = Red | Black

  datatype RBTree = Leaf | RNode(color: Color, left: RBTree, val: int, right: RBTree)

  /** The tree with its colours forgotten. */
  function Shape(t: RBTree): Tree {
    match t
    case Leaf => Nil
    case RNode(_, l, v, r) => Node(Shape(l), v, Shape(r))
  }

  /** `InOrderTreeWalk`: left subtree, node, right subtree; nil and the sentinel
      contribute nothing. It is the walk of the uncoloured tree. */
  function Walk(t: RBTree): (w: seq<int>)
    ensures w == InOrder(Shape(t))
    ensures |w| == Size(Shape(t))
  {
    match t
    case Leaf => []
    case RNode(_, l, v, r) => Walk(l) + [v] + Walk(r)
  }

  predicate IsRed(t: RBTree) {
    t.RNode? && t.color == Red
  }

  /** Sets the colour of a node; setting the colour of the sentinel leaves it black. */
  function Paint(t: RBTree, c: Color): (r: RBTree)
    ensures Shape(r) == Shape(t) && Walk(r) == Walk(t)
    ensures r.RNode? <==> t.RNode?
    ensures r.RNode? ==> r.color == c && r.left == t.left && r.right == t.right
  {
    if t.Leaf? then t else t.(color := c)
  }

  // ---------------------------------------------------------------------------
  // The red-black properties

  /** The black nodes on the leftmost path (the sentinel not counted). */
  function BlackHeight(t: RBTree): nat {
    match t
    case Leaf => 0
    case RNode(c, l, _, _) => BlackHeight(l) + (if c == Black then 1 else 0)
  }

  /** Every node's two subtrees have the same black height. */
  predicate Balanced(t: RBTree) {
    match t
    case Leaf => true
    case RNode(_, l, _, r) => Balanced(l) && Balanced(r) && BlackHeight(l) == BlackHeight(r)
  }

  /** No red node has a red child. */
  predicate NoRedRed(t: RBTree) {
    match t
    case Leaf => true
    case RNode(c, l, _, r) => NoRedRed(l) && NoRedRed(r) && (c == Red ==> !IsRed(l) && !IsRed(r))
  }

  /** The red-black properties: a black root, no red node with a red child, and
      the same number of black nodes on every root-to-leaf path. */
  predicate IsRedBlack(t: RBTree) {
    !IsRed(t) && NoRedRed(t) && Balanced(t)
  }

  /** The black nodes met when following `p` from the root until it leaves the tree. */
  function BlacksOnPath(t: RBTree, p: Path): nat
    decreases |p|
  {
    match t
    case Leaf => 0
    case RNode(c, l, _, r) =>
      (if c == Black then 1 else 0) +
      (if p == [] then 0 else BlacksOnPath(if p[0] == L then l else r, p[1..]))
  }

  /** In a balanced tree every path that ends at a sentinel meets the same number
      of black nodes, the black height. */
  lemma {:induction false} BalancedPaths(t: RBTree, p: Path)
    requires Balanced(t) && Subtree(Shape(t), p).Nil?
    ensures BlacksOnPath(t, p) == BlackHeight(t)
    decreases |p|
  {
    match t
    case Leaf =>
    case RNode(c, l, _, r) =>
      assert p != [];
      if p[0] == L {
        BalancedPaths(l, p[1..]);
      } else {
        BalancedPaths(r, p[1..]);
      }
  }

  /** Blackening the root of a tree that is balanced and free of red-red edges
      gives a red-black tree. */
  lemma Blacken(t: RBTree)
    requires Balanced(t) && NoRedRed(t)
    ensures IsRedBlack(Paint(t, Black))
  {
  }

  // ---------------------------------------------------------------------------
  // Positions: the subtree there and its ancestors

  /** One ancestor of a position: the side of it the position hangs on, its colour,
      its value and its other child. */
  datatype Frame = Frame(dir: Dir, color: Color, val: int, sibling: RBTree)

  /** The ancestor `f` with `z` hung on its `f.dir` side. */
  function Up(z: RBTree, f: Frame): (r: RBTree)
    ensures r.RNode? && r.color == f.color && r.val == f.val
  {
    if f.dir == L then RNode(f.color, z, f.val, f.sibling)
    else RNode(f.color, f.sibling, f.val, z)
  }

  /** The whole tree, with `z` at the position whose ancestors are `ctx`, the
      parent first and the root last. */
  function Plug(z: RBTree, ctx: seq<Frame>): RBTree
    decreases |ctx|
  {
    if ctx == [] then z else Plug(Up(z, ctx[0]), ctx[1..])
  }

  /** The values of the walk to the left of the position. */
  function Before(ctx: seq<Frame>): seq<int>
    decreases |ctx|
  {
    if ctx == [] then []
    else Before(ctx[1..]) + (if ctx[0].dir == R then Walk(ctx[0].sibling) + [ctx[0].val] else [])
  }

  /** The values of the walk to the right of the position. */
  function After(ctx: seq<Frame>): seq<int>
    decreases |ctx|
  {
    if ctx == [] then []
    else (if ctx[0].dir == L then [ctx[0].val] + Walk(ctx[0].sibling) else []) + After(ctx[1..])
  }

  /** The walk of a plugged tree: what lies left of the position, the subtree, and
      what lies right of it. Only the subtree's walk matters. */
  lemma {:induction false} PlugWalk(z: RBTree, ctx: seq<Frame>)
    ensures Walk(Plug(z, ctx)) == Before(ctx) + Walk(z) + After(ctx)
    decreases |ctx|
  {
    if ctx != [] {
      PlugWalk(Up(z, ctx[0]), ctx[1..]);
      if ctx[0].dir == L {
        PlugWalkLeft(z, ctx[0], ctx[1..], ctx);
      } else {
        PlugWalkRight(z, ctx[0], ctx[1..], ctx);
      }
    }
  }

  /** One step of `PlugWalk`, the position a left child. */
  lemma PlugWalkLeft(z: RBTree, f: Frame, rest: seq<Frame>, ctx: seq<Frame>)
    requires ctx != [] && f == ctx[0] && rest == ctx[1..] && f.dir == L
    requires Walk(Plug(Up(z, f), rest)) == Before(rest) + Walk(Up(z, f)) + After(rest)
    ensures Walk(Plug(z, ctx)) == Before(ctx) + Walk(z) + After(ctx)
  {
    var side := Walk(f.sibling);
    assert Plug(z, ctx) == Plug(Up(z, f), rest);
    assert Walk(Up(z, f)) == Walk(z) + [f.val] + side;
    assert Before(ctx) == Before(rest);
    assert After(ctx) == [f.val] + side + After(rest);
    RegroupLeft(Before(rest), Walk(z), [f.val], side, After(rest), Walk(Up(z, f)), Walk(Plug(z, ctx)), After(ctx));
  }

  /** One step of `PlugWalk`, the position a right child. */
  lemma PlugWalkRight(z: RBTree, f: Frame, rest: seq<Frame>, ctx: seq<Frame>)
    requires ctx != [] && f == ctx[0] && rest == ctx[1..] && f.dir == R
    requires Walk(Plug(Up(z, f), rest)) == Before(rest) + Walk(Up(z, f)) + After(rest)
    ensures Walk(Plug(z, ctx)) == Before(ctx) + Walk(z) + After(ctx)
  {
    var side := Walk(f.sibling);
    assert Plug(z, ctx) == Plug(Up(z, f), rest);
    assert Walk(Up(z, f)) == (side + [f.val]) + Walk(z);
    assert After(ctx) == After(rest);
    assert Before(ctx) == Before(rest) + (side + [f.val]);
    RegroupRight(Before(rest), side + [f.val], Walk(z), After(rest), Walk(Up(z, f)), Walk(Plug(z, ctx)), Before(ctx));
  }

  lemma RegroupLeft<T>(a: seq<T>, c: seq<T>, v: seq<T>, d: seq<T>, e: seq<T>, u: seq<T>, w: seq<T>, de: seq<T>)
    requires u == c + v + d && w == a + u + e && de == v + d + e
    ensures w == a + c + de
  {
  }

  lemma RegroupRight<T>(a: seq<T>, b: seq<T>, c: seq<T>, e: seq<T>, u: seq<T>, w: seq<T>, ab: seq<T>)
    requires u == b + c && w == a + u + e && ab == a + b
    ensures w == ab + c + e
  {
  }

  /** Two subtrees with the same walk give whole trees with the same walk. */
  lemma SameWalk(z: RBTree, z': RBTree, ctx: seq<Frame>)
    requires Walk(z) == Walk(z')
    ensures Walk(Plug(z, ctx)) == Walk(Plug(z', ctx))
  {
    PlugWalk(z, ctx);
    PlugWalk(z', ctx);
  }

  lemma {:induction false} PlugAppend(z: RBTree, ctx: seq<Frame>, f: Frame)
    ensures Plug(z, ctx + [f]) == Up(Plug(z, ctx), f)
    decreases |ctx|
  {
    if ctx == [] {
      assert Plug(z, [f]) == Plug(Up(z, f), []);
    } else {
      assert (ctx + [f])[1..] == ctx[1..] + [f];
      PlugAppend(Up(z, ctx[0]), ctx[1..], f);
    }
  }

  lemma {:induction false} PlugConcat(z: RBTree, a: seq<Frame>, b: seq<Frame>)
    ensures Plug(z, a + b) == Plug(Plug(z, a), b)
    decreases |a|
  {
    if a != [] {
      assert (a + b)[1..] == a[1..] + b;
      PlugConcat(Up(z, a[0]), a[1..], b);
    } else {
      assert a + b == b;
    }
  }

  lemma {:induction false} BeforeAppend(ctx: seq<Frame>, f: Frame)
    ensures Before(ctx + [f]) == Before([f]) + Before(ctx)
    decreases |ctx|
  {
    if ctx == [] {
      assert ctx + [f] == [f];
    } else {
      assert (ctx + [f])[1..] == ctx[1..] + [f];
      BeforeAppend(ctx[1..], f);
    }
  }

  /** The root, the last ancestor, is black. */
  predicate RootBlack(ctx: seq<Frame>) {
    ctx == [] || ctx[|ctx| - 1].color == Black
  }

  /** The root of a plugged tree is the last ancestor. */
  lemma {:induction false} PlugRoot(z: RBTree, ctx: seq<Frame>)
    ensures ctx != [] ==> Plug(z, ctx).RNode? && Plug(z, ctx).color == ctx[|ctx| - 1].color
    decreases |ctx|
  {
    if |ctx| > 1 {
      PlugRoot(Up(z, ctx[0]), ctx[1..]);
    }
  }

  /** Every subtree of a balanced tree is balanced. */
  lemma {:induction false} PlugBalanced(z: RBTree, ctx: seq<Frame>)
    requires Balanced(Plug(z, ctx))
    ensures Balanced(z)
    decreases |ctx|
  {
    if ctx != [] {
      PlugBalanced(Up(z, ctx[0]), ctx[1..]);
    }
  }

  /** In a balanced tree a node with one sentinel child has, as its other child,
      the sentinel or a red node. */
  lemma LeafSibling(u: RBTree)
    requires u.RNode?
    ensures Balanced(u) && u.left.Leaf? ==> u.right.Leaf? || u.right.color == Red
    ensures Balanced(u) && u.right.Leaf? ==> u.left.Leaf? || u.left.color == Red
  {
  }

  /** The subtree at a path and its ancestors; plugging it back gives the tree, and
      the walk before the position is as long as the position's offset. */
  function Open(t: RBTree, p: Path): (z: (RBTree, seq<Frame>))
    ensures Plug(z.0, z.1) == t
    ensures Shape(z.0) == Subtree(Shape(t), p)
    ensures |Before(z.1)| == Offset(Shape(t), p)
    decreases |p|
  {
    if p == [] || t.Leaf? then (t, [])
    else if p[0] == L then
      var (s, c) := Open(t.left, p[1..]);
      var f := Frame(L, t.color, t.val, t.right);
      PlugAppend(s, c, f);
      BeforeAppend(c, f);
      (s, c + [f])
    else
      var (s, c) := Open(t.right, p[1..]);
      var f := Frame(R, t.color, t.val, t.left);
      PlugAppend(s, c, f);
      BeforeAppend(c, f);
      assert Before([f]) == Before([]) + Walk(t.left) + [t.val];
      (s, c + [f])
  }

  // ---------------------------------------------------------------------------
  // Rotations

  /** `leftRotate`: the right child takes the node's place and the node becomes its
      left child; colours stay with their nodes. A node whose right child is the
      sentinel is left as it is. */
  function LeftRotate(t: RBTree): (r: RBTree)
    requires t.RNode?
    ensures r.RNode? && Walk(r) == Walk(t)
    ensures t.right.Leaf? ==> r == t
    ensures t.right.RNode? ==> (r.RNode? && r.left.RNode? &&
      r.val == t.right.val && r.color == t.right.color &&
      r.left.val == t.val && r.left.color == t.color)
  {
    if t.right.Leaf? then t
    else
      var y := t.right;
      RNode(y.color, RNode(t.color, t.left, t.val, y.left), y.val, y.right)
  }

  /** `rightRotate`: the left child takes the node's place and the node becomes its
      right child; a node whose left child is the sentinel is left as it is. */
  function RightRotate(t: RBTree): (r: RBTree)
    requires t.RNode?
    ensures r.RNode? && Walk(r) == Walk(t)
    ensures t.left.Leaf? ==> r == t
    ensures t.left.RNode? ==> (r.RNode? && r.right.RNode? &&
      r.val == t.left.val && r.color == t.left.color &&
      r.right.val == t.val && r.right.color == t.color)
  {
    if t.left.Leaf? then t
    else
      var x := t.left;
      RNode(x.color, x.left, x.val, RNode(t.color, x.right, t.val, t.right))
  }

  /** The two rotations undo each other. */
  lemma RotationsInverse(t: RBTree)
    requires t.RNode?
    ensures t.right.RNode? ==> RightRotate(LeftRotate(t)) == t
    ensures t.left.RNode? ==> LeftRotate(RightRotate(t)) == t
  {
  }

  /** A rotation keeps the search order, since it keeps the walk. */
  lemma RotationKeepsOrder(t: RBTree)
    requires t.RNode?
    ensures Ordered(Shape(t)) <==> Ordered(Shape(LeftRotate(t)))
    ensures Ordered(Shape(t)) <==> Ordered(Shape(RightRotate(t)))
  {
    OrderedIffSorted(Shape(t));
    OrderedIffSorted(Shape(LeftRotate(t)));
    OrderedIffSorted(Shape(RightRotate(t)));
  }

  // ---------------------------------------------------------------------------
  // Queries; they read the tree exactly as the uncoloured search tree does

  /** `Search`: the first node on the descent whose value compares equal; in a
      search-ordered tree one is found exactly when the value is stored. */
  function Search(t: RBTree, x: int): (n: Option<Path>)
    ensures n.Some? ==> ValidPath(Shape(t), n.value) && Subtree(Shape(t), n.value).val == x
    ensures n.Some? ==> x in multiset(Walk(t))
    ensures Ordered(Shape(t)) ==> (n.Some? <==> x in multiset(Walk(t)))
  {
    BinaryTrees.Search(Shape(t), x)
  }

  /** `MaxSince`: the last node of the subtree's walk; nil for nil. */
  function MaxSince(t: RBTree, n: Option<Path>): (m: Option<Path>)
    requires n.Some? ==> ValidPath(Shape(t), n.value)
    ensures m.Some? <==> n.Some?
    ensures n.Some? ==> ValidPath(Shape(t), m.value) && Subtree(Shape(t), m.value).right.Nil?
    ensures n.Some? ==> Index(Shape(t), m.value) == End(Shape(t), n.value) - 1
  {
    BinaryTrees.MaxSince(Shape(t), n)
  }

  /** `MinSince`: the first node of the subtree's walk; nil for nil. */
  function MinSince(t: RBTree, n: Option<Path>): (m: Option<Path>)
    requires n.Some? ==> ValidPath(Shape(t), n.value)
    ensures m.Some? <==> n.Some?
    ensures n.Some? ==> ValidPath(Shape(t), m.value) && Subtree(Shape(t), m.value).left.Nil?
    ensures n.Some? ==> Index(Shape(t), m.value) == Offset(Shape(t), n.value)
  {
    BinaryTrees.MinSince(Shape(t), n)
  }

  /** `Max`: the node of the largest value; nil for an empty tree. */
  function Max(t: RBTree): (m: Option<Path>)
    ensures m.None? <==> t.Leaf?
    ensures m.Some? ==> ValidPath(Shape(t), m.value) && Index(Shape(t), m.value) == |Walk(t)| - 1
    ensures m.Some? && Ordered(Shape(t)) ==>
      AllAtMost(multiset(Walk(t)), Subtree(Shape(t), m.value).val)
  {
    MaxNode(Shape(t))
  }

  /** `Min`: the node of the smallest value; nil for an empty tree. */
  function Min(t: RBTree): (m: Option<Path>)
    ensures m.None? <==> t.Leaf?
    ensures m.Some? ==> ValidPath(Shape(t), m.value) && Index(Shape(t), m.value) == 0
    ensures m.Some? && Ordered(Shape(t)) ==>
      AllAtLeast(multiset(Walk(t)), Subtree(Shape(t), m.value).val)
  {
    MinNode(Shape(t))
  }

  /** `Successor`: the node of the next value of the walk; nil after the last one
      and for nil. */
  function Successor(t: RBTree, n: Option<Path>): (m: Option<Path>)
    requires n.Some? ==> ValidPath(Shape(t), n.value)
    ensures n.None? ==> m.None?
    ensures m.Some? ==> (ValidPath(Shape(t), m.value) &&
      Index(Shape(t), m.value) == Index(Shape(t), n.value) + 1)
    ensures n.Some? && m.None? ==> Index(Shape(t), n.value) == |Walk(t)| - 1
  {
    BinaryTrees.Successor(Shape(t), n)
  }

  /** `Predecessor`: the node of the previous value of the walk; nil before the
      first one and for nil. */
  function Predecessor(t: RBTree, n: Option<Path>): (m: Option<Path>)
    requires n.Some? ==> ValidPath(Shape(t), n.value)
    ensures n.None? ==> m.None?
    ensures m.Some? ==> (ValidPath(Shape(t), m.value) &&
      Index(Shape(t), m.value) + 1 == Index(Shape(t), n.value))
    ensures n.Some? && m.None? ==> Index(Shape(t), n.value) == 0
  {
    BinaryTrees.Predecessor(Shape(t), n)
  }

  /** The value at a node is the walk's value at the node's index. */
  lemma ValueAt(t: RBTree, p: Path)
    requires ValidPath(Shape(t), p)
    ensures Index(Shape(t), p) < |Walk(t)| && Walk(t)[Index(Shape(t), p)] == Subtree(Shape(t), p).val
  {
    IndexInWalk(Shape(t), p);
  }

  // ---------------------------------------------------------------------------
  // Height

  /** `Height`, read as the walks of this file read nil: the nodes on the longest
      root-to-leaf path, 0 for an empty tree. */
  function Height(t: RBTree): (h: nat)
    ensures h == 0 <==> t.Leaf?
    ensures forall p | ValidPath(Shape(t), p) :: |p| < h
    ensures t.RNode? ==> exists p | ValidPath(Shape(t), p) :: |p| + 1 == h
  {
    BinarySearchTree.HeightBounds(Shape(t));
    HeightDfs(Shape(t), 0, 0)
  }

  /** The depth-first walk of `Height` as written: it stops only at the sentinel
      (`Some(Leaf)`), so a nil pointer (`None`) is dereferenced, which panics
      (`None` result). Children of real nodes are never nil. */
  function HeightDfsAsWritten(cur: Option<RBTree>, count: nat, max: nat): (m: Option<nat>)
    requires count <= max
    ensures cur.None? <==> m.None?
    ensures cur.Some? ==> m == Some(HeightDfs(Shape(cur.value), count, max))
    decreases if cur.Some? then Size(Shape(cur.value)) else 0
  {
    match cur
    case None => None
    case Some(Leaf) => Some(max)
    case Some(RNode(_, l, _, r)) =>
      var count' := count + 1;
      var max' := if count' > max then count' else max;
      var ml := HeightDfsAsWritten(Some(l), count', max');
      HeightDfsAsWritten(Some(r), count', ml.value)
  }

  /** `Height` as written, on the root pointer: a fresh tree's root is nil, not the
      sentinel. */
  function HeightAsWritten(root: Option<RBTree>): (h: Option<nat>)
    ensures root.Some? ==> h == Some(Height(root.value))
  {
    HeightDfsAsWritten(root, 0, 0)
  }

  /** On a tree just made by `NewRedBlackTree` the height as written panics, where
      the empty tree's height is 0. */
  lemma FreshTreeHeight()
    ensures HeightAsWritten(None).None?
    ensures Height(Leaf) == 0
  {
  }
}
