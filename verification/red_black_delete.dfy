/** structures/red-black-tree.go, `transplant`, `deleteFixup`, `DeleteNode` and
    `Delete`: the node is unlinked (replaced by its successor when it has two
    children) and the CLRS repair loop runs from the position `x` that lost a
    black node. Only the walk is followed here: the loop stops at once when `x`
    is the sentinel, so black heights are not restored in every case. */
module RedBlackDelete {
  import opened Options
  import opened Order
  import opened BinaryTrees
  import opened RedBlackTrees

  // ---------------------------------------------------------------------------
  // Unlinking the node

  /** `y = MinSince(node.Right)` and `transplant(y, y.Right)` inside a non-empty
      subtree: the leftmost node `y`, with no left child, and the ancestors of
      its position inside the subtree (the subtree's root last). The subtree's
      walk is `y`'s value followed by the walk of what is left once `y.Right`
      takes `y`'s place. */
  function OpenMin(s: RBTree): (res: (RBTree, seq<Frame>))
    requires s.RNode?
    ensures res.0.RNode? && res.0.left.Leaf?
    ensures Plug(res.0, res.1) == s
    ensures Walk(s) == [res.0.val] + Walk(Plug(res.0.right, res.1))
  {
    if s.left.Leaf? then (s, [])
    else
      var (y, c) := OpenMin(s.left);
      var f := Frame(L, s.color, s.val, s.right);
      PlugAppend(y, c, f);
      PlugAppend(y.right, c, f);
      (y, c + [f])
  }

  /** The unlinking part of `DeleteNode` for the node `s` whose ancestors are
      `ctx`: the subtree `x` left at the position the repair starts from, that
      position's ancestors, and the original colour of the node `y` that left
      its place. With a sentinel child the other child takes the node's place;
      otherwise the successor `y` takes it, with the node's colour and left
      subtree, and `y.Right` takes `y`'s old place. Exactly the node's value
      leaves the walk. */
  function Unlink(s: RBTree, ctx: seq<Frame>): (res: (RBTree, seq<Frame>, Color))
    requires s.RNode?
    ensures Walk(Plug(res.0, res.1)) == Before(ctx) + Walk(s.left) + Walk(s.right) + After(ctx)
  {
    if s.left.Leaf? then
      PlugWalk(s.right, ctx);
      (s.right, ctx, s.color)
    else if s.right.Leaf? then
      PlugWalk(s.left, ctx);
      (s.left, ctx, s.color)
    else
      var (y, c) := OpenMin(s.right);
      UnlinkSuccessor(s, ctx, y, c);
      (y.right, c + [Frame(R, s.color, y.val, s.left)] + ctx, y.color)
  }

  /** In a balanced subtree the unlinking leaves the sentinel or a red node at
      the position the repair starts from. */
  lemma UnlinkLeavesRed(s: RBTree, ctx: seq<Frame>, x: RBTree, cx: seq<Frame>, yColor: Color)
    requires s.RNode? && (x, cx, yColor) == Unlink(s, ctx)
    ensures Balanced(s) ==> x.Leaf? || x.color == Red
  {
    LeafSibling(s);
    if s.left.RNode? && s.right.RNode? {
      var (y, c) := OpenMin(s.right);
      assert x == y.right;
      SuccessorChild(s, y, c);
    }
  }

  /** In a tree with a black root the ancestors left by the unlinking still end
      in a black root, or there are none and the colour that left is the
      root's black. */
  lemma UnlinkKeepsRoot(s: RBTree, ctx: seq<Frame>, x: RBTree, cx: seq<Frame>, yColor: Color)
    requires s.RNode? && (x, cx, yColor) == Unlink(s, ctx)
    ensures !IsRed(Plug(s, ctx)) ==> RootBlack(cx) && (cx == [] ==> yColor == Black)
  {
    if s.left.Leaf? || s.right.Leaf? {
      DirectRoot(s, ctx);
    } else {
      var (y, c) := OpenMin(s.right);
      SuccessorRoot(s, ctx, c + [Frame(R, s.color, y.val, s.left)]);
    }
  }

  /** The successor has no left child, so in a balanced subtree its right child
      is the sentinel or red. */
  lemma SuccessorChild(s: RBTree, y: RBTree, c: seq<Frame>)
    requires s.RNode? && s.right.RNode? && (y, c) == OpenMin(s.right)
    ensures Balanced(s) ==> y.right.Leaf? || y.right.color == Red
  {
    if Balanced(s) {
      PlugBalanced(y, c);
      LeafSibling(y);
    }
  }

  /** A node of a tree with a black root is the root, and black, or has
      ancestors ending in a black root. */
  lemma DirectRoot(s: RBTree, ctx: seq<Frame>)
    requires s.RNode?
    ensures !IsRed(Plug(s, ctx)) ==> RootBlack(ctx) && (ctx == [] ==> s.color == Black)
  {
    PlugRoot(s, ctx);
  }

  /** Frames ending in the node's own colour, followed by the node's ancestors,
      end in the old root's colour. */
  lemma SuccessorRoot(s: RBTree, ctx: seq<Frame>, c: seq<Frame>)
    requires s.RNode? && c != [] && c[|c| - 1].color == s.color
    ensures !IsRed(Plug(s, ctx)) ==> RootBlack(c + ctx)
  {
    PlugRoot(s, ctx);
    var cx := c + ctx;
    assert cx[|cx| - 1] == if ctx == [] then c[|c| - 1] else ctx[|ctx| - 1];
  }

  lemma UnlinkSuccessor(s: RBTree, ctx: seq<Frame>, y: RBTree, c: seq<Frame>)
    requires s.RNode? && s.right.RNode? && (y, c) == OpenMin(s.right)
    ensures Walk(Plug(y.right, c + [Frame(R, s.color, y.val, s.left)] + ctx))
         == Before(ctx) + Walk(s.left) + Walk(s.right) + After(ctx)
  {
    var f := Frame(R, s.color, y.val, s.left);
    var u := RNode(s.color, s.left, y.val, Plug(y.right, c));
    SuccessorPlug(y.right, c, f, ctx, u);
    SuccessorWalk(s.left, s.right, y.val, Plug(y.right, c), u);
    PlugWalk(u, ctx);
    Spread(Before(ctx), Walk(s.left), Walk(s.right), After(ctx), Walk(u), Walk(Plug(u, ctx)));
  }

  lemma Spread(b: seq<int>, l: seq<int>, r: seq<int>, a: seq<int>, u: seq<int>, w: seq<int>)
    requires u == l + r && w == b + u + a
    ensures w == b + l + r + a
  {
  }

  /** The successor's old place, plugged back through its old ancestors and
      then the node it replaces. */
  lemma SuccessorPlug(z: RBTree, c: seq<Frame>, f: Frame, ctx: seq<Frame>, u: RBTree)
    requires u == Up(Plug(z, c), f)
    ensures Plug(z, c + [f] + ctx) == Plug(u, ctx)
  {
    PlugConcat(z, c + [f], ctx);
    PlugAppend(z, c, f);
  }

  /** The successor with the node's left subtree and the rest of the right
      subtree walks like the two subtrees. */
  lemma SuccessorWalk(l: RBTree, r: RBTree, v: int, rest: RBTree, u: RBTree)
    requires u.RNode? && u.left == l && u.val == v && u.right == rest
    requires Walk(r) == [v] + Walk(rest)
    ensures Walk(u) == Walk(l) + Walk(r)
  {
    Regroup(Walk(l), [v], Walk(rest), Walk(u), Walk(r));
  }

  lemma Regroup(a: seq<int>, b: seq<int>, c: seq<int>, abc: seq<int>, bc: seq<int>)
    requires abc == a + b + c && bc == b + c
    ensures abc == a + bc
  {
  }

  // ---------------------------------------------------------------------------
  // The four cases of the repair loop

  /** Case 1, the sibling `w` is red: `w` turns black, the parent red, and the
      parent is rotated towards `x`. The result is `x`'s new parent frame
      (red, on the same side) followed by the frame of `w` above it. */
  function SiblingToBlack(x: RBTree, p: Frame): (fs: seq<Frame>)
    requires IsRed(p.sibling)
    ensures |fs| == 2 && fs[0].dir == p.dir && fs[0].color == Red && fs[1].color == Black
    ensures p.dir == L ==> Plug(x, fs) == LeftRotate(Up(x, Frame(L, Red, p.val, Paint(p.sibling, Black))))
    ensures p.dir == R ==> Plug(x, fs) == RightRotate(Up(x, Frame(R, Red, p.val, Paint(p.sibling, Black))))
    ensures Walk(Plug(x, fs)) == Walk(Up(x, p))
  {
    var w := p.sibling;
    if p.dir == L then
      var fs := [Frame(L, Red, p.val, w.left), Frame(L, Black, w.val, w.right)];
      PlugTwo(x, fs[0], fs[1]);
      assert fs == [fs[0], fs[1]];
      fs
    else
      var fs := [Frame(R, Red, p.val, w.right), Frame(R, Black, w.val, w.left)];
      PlugTwo(x, fs[0], fs[1]);
      assert fs == [fs[0], fs[1]];
      fs
  }

  lemma PlugTwo(x: RBTree, f0: Frame, f1: Frame)
    ensures Plug(x, [f0, f1]) == Up(Up(x, f0), f1)
  {
    PlugAppend(x, [f0], f1);
    assert [f0] + [f1] == [f0, f1];
    assert Plug(x, [f0]) == Plug(Up(x, f0), []);
  }

  /** The parent frame of `x` and its ancestors once case 1 has run, or as they
      were when the sibling is not red. */
  function AfterCase1(x: RBTree, ctx: seq<Frame>): (res: (Frame, seq<Frame>))
    requires ctx != []
    ensures res.0.dir == ctx[0].dir
    ensures Walk(Plug(Up(x, res.0), res.1)) == Walk(Plug(x, ctx))
    ensures IsRed(ctx[0].sibling) ==> res.0.color == Red && |res.1| == |ctx|
    ensures !IsRed(ctx[0].sibling) ==> res == (ctx[0], ctx[1..])
  {
    if IsRed(ctx[0].sibling) then
      var fs := SiblingToBlack(x, ctx[0]);
      Case1Walk(x, ctx, fs);
      (fs[0], fs[1..] + ctx[1..])
    else
      (ctx[0], ctx[1..])
  }

  /** Case 1 leaves a black root at the top: the rotated-up sibling is black. */
  lemma AfterCase1Root(x: RBTree, ctx: seq<Frame>)
    requires ctx != []
    ensures RootBlack(ctx) ==> RootBlack(AfterCase1(x, ctx).1)
  {
    if RootBlack(ctx) && IsRed(ctx[0].sibling) {
      var fs := SiblingToBlack(x, ctx[0]);
      var rest := fs[1..] + ctx[1..];
      assert AfterCase1(x, ctx).1 == rest;
      assert rest[|rest| - 1] == if |ctx| == 1 then fs[1] else ctx[|ctx| - 1];
    }
  }

  /** The two frames of case 1 in place of the parent frame keep the walk. */
  lemma Case1Walk(x: RBTree, ctx: seq<Frame>, fs: seq<Frame>)
    requires ctx != [] && |fs| == 2
    requires Walk(Plug(x, fs)) == Walk(Up(x, ctx[0]))
    ensures Walk(Plug(Up(x, fs[0]), fs[1..] + ctx[1..])) == Walk(Plug(x, ctx))
  {
    var rest := ctx[1..];
    PlugConcat(x, fs, rest);
    SameWalk(Plug(x, fs), Up(x, ctx[0]), rest);
    PlugFirst(x, fs, rest);
    PlugFirst(x, [ctx[0]], rest);
    assert [ctx[0]] + rest == ctx;
  }

  /** Plugging under a run of frames starts with the first of them. */
  lemma PlugFirst(x: RBTree, fs: seq<Frame>, rest: seq<Frame>)
    requires fs != []
    ensures Plug(x, fs + rest) == Plug(Up(x, fs[0]), fs[1..] + rest)
  {
    assert (fs + rest)[0] == fs[0];
    assert (fs + rest)[1..] == fs[1..] + rest;
  }

  /** Cases 3 and 4, `x` a left child and its sibling `w` (a node) with a red
      child: if `w.Right` is black, `w.Left` turns black, `w` red and
      `rightRotate(w)`; then `w` takes the parent's colour, the parent and
      `w.Right` turn black, and `leftRotate(parent)`. The result replaces the
      parent's subtree. */
  function RotateLeftSide(x: RBTree, f: Frame): (r: RBTree)
    requires f.dir == L && f.sibling.RNode?
    ensures Walk(r) == Walk(Up(x, f))
  {
    var w := f.sibling;
    var w' := if !IsRed(w.right) then RightRotate(RNode(Red, Paint(w.left, Black), w.val, w.right)) else w;
    LeftRotate(Up(x, Frame(L, Black, f.val, RNode(f.color, w'.left, w'.val, Paint(w'.right, Black)))))
  }

  /** The mirror image, `x` a right child. */
  function RotateRightSide(x: RBTree, f: Frame): (r: RBTree)
    requires f.dir == R && f.sibling.RNode?
    ensures Walk(r) == Walk(Up(x, f))
  {
    var w := f.sibling;
    var w' := if !IsRed(w.left) then LeftRotate(RNode(Red, w.left, w.val, Paint(w.right, Black))) else w;
    RightRotate(Up(x, Frame(R, Black, f.val, RNode(f.color, Paint(w'.left, Black), w'.val, w'.right))))
  }

  /** `deleteFixup`: while `x` is a black node other than the root, run case 1
      if the sibling is red; then case 2 (both of the sibling's children black:
      the sibling turns red and the parent becomes `x`) or cases 3 and 4 (after
      which `x` is the root); finally `x` turns black. The loop stops at once
      when `x` is the sentinel. `None` is the nil dereference of reading a
      child's colour when the sibling is the sentinel. Every step keeps the walk,
      and a tree whose root was black still has a black root. */
  function DeleteFixup(x: RBTree, ctx: seq<Frame>): (r: Option<RBTree>)
    ensures r.Some? ==> Walk(r.value) == Walk(Plug(x, ctx))
    ensures ctx == [] || x.Leaf? || x.color == Red ==> r == Some(Plug(Paint(x, Black), ctx))
    ensures RootBlack(ctx) && r.Some? ==> !IsRed(r.value)
    decreases 2 * |ctx| + (if x.RNode? && x.color == Black then 1 else 0)
  {
    if ctx == [] || x.Leaf? || x.color == Red then
      SameWalk(Paint(x, Black), x, ctx);
      PlugRoot(Paint(x, Black), ctx);
      Some(Plug(Paint(x, Black), ctx))
    else
      var (f, rest) := AfterCase1(x, ctx);
      var w := f.sibling;
      if w.Leaf? then None
      else if !IsRed(w.left) && !IsRed(w.right) then
        var up := Case2(x, f, rest);
        AfterCase1Root(x, ctx);
        DeleteFixup(up, rest)
      else
        Some(Cases3And4(x, f, rest))
  }

  /** Case 2: the sibling turns red and the parent becomes `x`; the walk is kept. */
  function Case2(x: RBTree, f: Frame, rest: seq<Frame>): (up: RBTree)
    requires f.sibling.RNode?
    ensures Walk(Plug(up, rest)) == Walk(Plug(Up(x, f), rest))
  {
    var up := Up(x, f.(sibling := Paint(f.sibling, Red)));
    SameWalk(up, Up(x, f), rest);
    up
  }

  /** Cases 3 and 4 on the side `x` is on, then the root turns black; the walk
      is kept. */
  function Cases3And4(x: RBTree, f: Frame, rest: seq<Frame>): (r: RBTree)
    requires f.sibling.RNode?
    ensures Walk(r) == Walk(Plug(Up(x, f), rest))
  {
    var top := if f.dir == L then RotateLeftSide(x, f) else RotateRightSide(x, f);
    SameWalk(top, Up(x, f), rest);
    SameWalk(Paint(Plug(top, rest), Black), Plug(top, rest), []);
    Paint(Plug(top, rest), Black)
  }

  // ---------------------------------------------------------------------------
  // DeleteNode, Delete

  /** `DeleteNode`: false, with the tree unchanged, for a nil node; otherwise
      true, and exactly the node's position leaves the walk, so the search order
      is kept. `None` is a run in which the repair loop dereferences nil, which
      never happens in a red-black tree; a black root stays black. */
  function DeleteNode(t: RBTree, n: Option<Path>): (res: Option<(RBTree, bool)>)
    requires n.Some? ==> ValidPath(Shape(t), n.value)
    ensures n.None? ==> res == Some((t, false))
    ensures n.Some? && res.Some? ==> res.value.1 && RemovedAt(Walk(t), Index(Shape(t), n.value), Walk(res.value.0))
    ensures res.Some? && Ordered(Shape(t)) ==> Ordered(Shape(res.value.0))
    ensures IsRedBlack(t) ==> res.Some?
    ensures res.Some? && !IsRed(t) ==> !IsRed(res.value.0)
  {
    match n
    case None => Some((t, false))
    case Some(p) =>
      var r := DeleteAt(t, p);
      if r.Some? then Some((r.value, true)) else None
  }

  /** The node at `p` opened, unlinked and the repair run when the colour that
      left was black. In a red-black tree the repair never fails, and a black
      root stays black. */
  function DeleteAt(t: RBTree, p: Path): (r: Option<RBTree>)
    requires ValidPath(Shape(t), p)
    ensures r.Some? ==> RemovedAt(Walk(t), Index(Shape(t), p), Walk(r.value))
    ensures r.Some? && Ordered(Shape(t)) ==> Ordered(Shape(r.value))
    ensures IsRedBlack(t) ==> r.Some?
    ensures r.Some? && !IsRed(t) ==> !IsRed(r.value)
  {
    var (s, ctx) := Open(t, p);
    WalkAround(t, p, s, ctx);
    var (x, cx, yColor) := Unlink(s, ctx);
    var r := if yColor == Black then DeleteFixup(x, cx) else Some(Plug(x, cx));
    UnlinkThenFix(t, s, ctx, x, cx, yColor, r);
    if r.Some? then
      DropNode(t, p, s, ctx, r.value);
      r
    else r
  }

  /** The repair starts from the sentinel or a red node in a red-black tree, so
      it stops at once; the ancestors kept a black root, so the root ends black. */
  lemma UnlinkThenFix(t: RBTree, s: RBTree, ctx: seq<Frame>, x: RBTree, cx: seq<Frame>, yColor: Color, r: Option<RBTree>)
    requires s.RNode? && Plug(s, ctx) == t && (x, cx, yColor) == Unlink(s, ctx)
    requires r == if yColor == Black then DeleteFixup(x, cx) else Some(Plug(x, cx))
    ensures IsRedBlack(t) ==> r.Some?
    ensures r.Some? && !IsRed(t) ==> !IsRed(r.value)
  {
    if IsRedBlack(t) {
      PlugBalanced(s, ctx);
    }
    UnlinkLeavesRed(s, ctx, x, cx, yColor);
    UnlinkKeepsRoot(s, ctx, x, cx, yColor);
    PlugRoot(x, cx);
  }

  lemma DropNode(t: RBTree, p: Path, s: RBTree, ctx: seq<Frame>, r: RBTree)
    requires ValidPath(Shape(t), p) && (s, ctx) == Open(t, p)
    requires Walk(r) == Before(ctx) + Walk(s.left) + Walk(s.right) + After(ctx)
    ensures RemovedAt(Walk(t), Index(Shape(t), p), Walk(r))
    ensures Ordered(Shape(t)) ==> Ordered(Shape(r))
  {
    DropWalk(t, p, s, ctx, r);
    DropOrder(t, Index(Shape(t), p), r);
  }

  lemma DropWalk(t: RBTree, p: Path, s: RBTree, ctx: seq<Frame>, r: RBTree)
    requires ValidPath(Shape(t), p) && (s, ctx) == Open(t, p)
    requires Walk(r) == Before(ctx) + Walk(s.left) + Walk(s.right) + After(ctx)
    ensures RemovedAt(Walk(t), Index(Shape(t), p), Walk(r))
  {
    WalkAround(t, p, s, ctx);
    IndexAround(t, p, s, ctx);
    CutAt(Walk(t), Before(ctx), Walk(s.left), s.val, Walk(s.right), After(ctx), Index(Shape(t), p), Walk(r));
  }

  /** Removing one position of the walk keeps the search order. */
  lemma DropOrder(t: RBTree, i: nat, r: RBTree)
    requires RemovedAt(Walk(t), i, Walk(r))
    ensures Ordered(Shape(t)) ==> Ordered(Shape(r))
  {
    RemoveKeepsOrder(Shape(t), Shape(r), i);
  }

  /** The walk of a tree opened at a node: before, the node's own walk, after. */
  lemma WalkAround(t: RBTree, p: Path, s: RBTree, ctx: seq<Frame>)
    requires ValidPath(Shape(t), p) && (s, ctx) == Open(t, p)
    ensures s.RNode?
    ensures Walk(t) == Before(ctx) + (Walk(s.left) + [s.val] + Walk(s.right)) + After(ctx)
  {
    PlugWalk(s, ctx);
    assert Walk(s) == Walk(s.left) + [s.val] + Walk(s.right);
  }

  /** The position of an opened node in the walk: past what lies before it and
      its left subtree. */
  lemma IndexAround(t: RBTree, p: Path, s: RBTree, ctx: seq<Frame>)
    requires ValidPath(Shape(t), p) && (s, ctx) == Open(t, p)
    ensures s.RNode?
    ensures Index(Shape(t), p) == |Before(ctx)| + |Walk(s.left)|
  {
    assert Child(Subtree(Shape(t), p), L) == Shape(s.left);
  }

  /** Removing the one value between two known stretches of a sequence. */
  lemma CutAt(w: seq<int>, a: seq<int>, l: seq<int>, v: int, rt: seq<int>, b: seq<int>, i: int, w': seq<int>)
    requires w == a + (l + [v] + rt) + b && i == |a| + |l| && w' == a + l + rt + b
    ensures RemovedAt(w, i, w')
  {
    assert w[..i] == a + l;
    assert w[i + 1..] == rt + b;
    assert a + l + (rt + b) == a + l + rt + b;
  }

  /** `Delete`: deletes the node `Search` finds. False, with the tree unchanged,
      exactly when the search fails, which in a search-ordered tree means the
      value is absent; otherwise one occurrence of `x` leaves the tree. In a
      red-black tree the repair never fails, and a black root stays black. */
  function Delete(t: RBTree, x: int): (res: Option<(RBTree, bool)>)
    ensures RedBlackTrees.Search(t, x).None? ==> res == Some((t, false))
    ensures Ordered(Shape(t)) && x !in multiset(Walk(t)) ==> res == Some((t, false))
    ensures res.Some? ==> (res.value.1 <==> RedBlackTrees.Search(t, x).Some?)
    ensures res.Some? && res.value.1 ==> multiset(Walk(res.value.0)) == multiset(Walk(t)) - multiset{x}
    ensures res.Some? && Ordered(Shape(t)) ==> Ordered(Shape(res.value.0))
    ensures IsRedBlack(t) ==> res.Some?
    ensures res.Some? && !IsRed(t) ==> !IsRed(res.value.0)
  {
    var n := RedBlackTrees.Search(t, x);
    var res := DeleteNode(t, n);
    if n.Some? && res.Some? then
      DeleteFound(t, x, n.value, res.value.0);
      res
    else res
  }

  /** The node found for `x` holds `x`, so removing its position from the walk
      removes one `x`. */
  lemma DeleteFound(t: RBTree, x: int, p: Path, r: RBTree)
    requires ValidPath(Shape(t), p) && Subtree(Shape(t), p).val == x
    requires RemovedAt(Walk(t), Index(Shape(t), p), Walk(r))
    ensures multiset(Walk(r)) == multiset(Walk(t)) - multiset{x}
  {
    ValueAt(t, p);
    RemoveFrom(t, x, Index(Shape(t), p), r);
  }

  lemma RemoveFrom(t: RBTree, x: int, i: nat, r: RBTree)
    requires RemovedAt(Walk(t), i, Walk(r)) && Walk(t)[i] == x
    ensures multiset(Walk(r)) == multiset(Walk(t)) - multiset{x}
  {
    RemoveAt(Walk(t), i, x, Walk(r));
  }
}
