/** structures/red-black-tree.go, `insert`, `insertFixup`, `Insert` and
    `UnsafeInsert`: the descent of the search tree, a new red node hung at the
    sentinel it reaches, and the CLRS repair loop run upward from that node. */
module RedBlackInsert {
  import opened Options
  import opened Order
  import opened BinaryTrees
  import opened RedBlackTrees

  // ---------------------------------------------------------------------------
  // The descent

  /** The ancestors of the sentinel position where `insert` hangs the new node: a
      value goes left iff the node compares greater, otherwise right. With `safe`
      the descent gives up (`None`) at the first node that compares equal. The
      final attach compares with the last ancestor again and takes the same side. */
  function Attach(t: RBTree, x: int, safe: bool): (c: Option<seq<Frame>>)
    ensures c.None? <==> safe && BinaryTrees.Search(Shape(t), x).Some?
    ensures c.Some? ==> Plug(Leaf, c.value) == t
    ensures c.Some? ==> Shape(Plug(RNode(Red, Leaf, x, Leaf), c.value)) == BinaryTrees.Insert(Shape(t), x)
  {
    match t
    case Leaf => Some([])
    case RNode(col, l, v, r) =>
      var cmp := Compare(v, x);
      if cmp == 1 then
        match Attach(l, x, safe)
        case None => None
        case Some(c) =>
          var f := Frame(L, col, v, r);
          PlugAppend(Leaf, c, f);
          PlugAppend(RNode(Red, Leaf, x, Leaf), c, f);
          Some(c + [f])
      else if cmp == 0 && safe then None
      else
        match Attach(r, x, safe)
        case None => None
        case Some(c) =>
          var f := Frame(R, col, v, l);
          PlugAppend(Leaf, c, f);
          PlugAppend(RNode(Red, Leaf, x, Leaf), c, f);
          Some(c + [f])
  }

  // ---------------------------------------------------------------------------
  // The invariant of the repair loop

  function Blacks(c: Color): nat {
    if c == Black then 1 else 0
  }

  /** The ancestor `f` of a position whose subtree has black height `h`: its other
      child is a balanced subtree of the same black height, without red-red edges,
      and not red if `f` is red. */
  predicate FrameOk(f: Frame, h: nat) {
    Balanced(f.sibling) && NoRedRed(f.sibling) && BlackHeight(f.sibling) == h &&
    (f.color == Red ==> !IsRed(f.sibling))
  }

  /** The ancestors of a subtree of black height `h` that is red iff `childRed`:
      plugging the subtree in breaks no red-black property above it. */
  predicate CtxOk(h: nat, ctx: seq<Frame>, childRed: bool)
    decreases |ctx|
  {
    ctx == [] ||
    (FrameOk(ctx[0], h) && !(ctx[0].color == Red && childRed) &&
     CtxOk(h + Blacks(ctx[0].color), ctx[1..], ctx[0].color == Red))
  }

  /** The loop invariant of `insertFixup` (CLRS): the node is red, its subtree is a
      balanced tree without red-red edges, and the only red-red edge of the whole
      tree, if any, joins the node to its parent. */
  predicate FixupReady(z: RBTree, ctx: seq<Frame>) {
    IsRed(z) && Balanced(z) && NoRedRed(z) &&
    (ctx == [] ||
     (FrameOk(ctx[0], BlackHeight(z)) &&
      CtxOk(BlackHeight(z) + Blacks(ctx[0].color), ctx[1..], ctx[0].color == Red)))
  }

  /** Plugging a good subtree into good ancestors gives a good tree. */
  lemma {:induction false} PlugOk(z: RBTree, ctx: seq<Frame>)
    requires Balanced(z) && NoRedRed(z) && CtxOk(BlackHeight(z), ctx, IsRed(z))
    ensures Balanced(Plug(z, ctx)) && NoRedRed(Plug(z, ctx))
    decreases |ctx|
  {
    if ctx != [] {
      var u := Up(z, ctx[0]);
      assert BlackHeight(u) == BlackHeight(z) + Blacks(ctx[0].color);
      PlugOk(u, ctx[1..]);
    }
  }

  /** The converse: a good tree has good ancestors at every position. */
  lemma {:induction false} UnplugOk(z: RBTree, ctx: seq<Frame>)
    requires Balanced(Plug(z, ctx)) && NoRedRed(Plug(z, ctx))
    ensures Balanced(z) && NoRedRed(z) && CtxOk(BlackHeight(z), ctx, IsRed(z))
    decreases |ctx|
  {
    if ctx != [] {
      var u := Up(z, ctx[0]);
      UnplugOk(u, ctx[1..]);
      assert BlackHeight(u) == BlackHeight(z) + Blacks(ctx[0].color);
    }
  }

  /** A red-black tree with a new red node at a sentinel position satisfies the
      loop invariant there. */
  lemma FixupStarts(x: int, ctx: seq<Frame>)
    ensures IsRedBlack(Plug(Leaf, ctx)) ==> FixupReady(RNode(Red, Leaf, x, Leaf), ctx) && RootBlack(ctx)
  {
    if IsRedBlack(Plug(Leaf, ctx)) {
      UnplugOk(Leaf, ctx);
      PlugRoot(Leaf, ctx);
    }
  }

  // ---------------------------------------------------------------------------
  // The three cases

  /** Case 1, the uncle `g.sibling` is red: parent and uncle turn black, the
      grandparent red, and the grandparent becomes the node. */
  function Recolor(z: RBTree, p: Frame, g: Frame): (r: RBTree)
    ensures Walk(r) == Walk(Up(Up(z, p), g))
  {
    Up(Up(z, p.(color := Black)), Frame(g.dir, Red, g.val, Paint(g.sibling, Black)))
  }

  /** Cases 2 and 3, the uncle is black (possibly the sentinel). With the parent a
      left child: a node that is a right child first becomes the parent's parent
      by `leftRotate(parent)`; then the parent turns black, the grandparent red,
      and `rightRotate(grandparent)`. The mirror image when the parent is a right
      child. The result replaces the grandparent's subtree. */
  function Restructure(z: RBTree, p: Frame, g: Frame): (r: RBTree)
    ensures Walk(r) == Walk(Up(Up(z, p), g))
  {
    if g.dir == L then
      var par := if p.dir == R then LeftRotate(Up(z, p)) else Up(z, p);
      RightRotate(Up(Paint(par, Black), g.(color := Red)))
    else
      var par := if p.dir == L then RightRotate(Up(z, p)) else Up(z, p);
      LeftRotate(Up(Paint(par, Black), g.(color := Red)))
  }

  /** Case 1 keeps the loop invariant two levels up. */
  lemma RecolorOk(z: RBTree, ctx: seq<Frame>)
    requires |ctx| >= 2 && ctx[0].color == Red && IsRed(ctx[1].sibling)
    ensures FixupReady(z, ctx) ==> FixupReady(Recolor(z, ctx[0], ctx[1]), ctx[2..])
  {
    if FixupReady(z, ctx) {
      RecolorSteps(z, ctx);
    }
  }

  lemma RecolorSteps(z: RBTree, ctx: seq<Frame>)
    requires FixupReady(z, ctx) && |ctx| >= 2 && ctx[0].color == Red && IsRed(ctx[1].sibling)
    ensures FixupReady(Recolor(z, ctx[0], ctx[1]), ctx[2..])
  {
    var h := BlackHeight(z);
    var p, g := ctx[0], ctx[1];
    assert CtxOk(h, ctx[1..], true);
    assert g.color == Black && FrameOk(g, h);
    assert CtxOk(h + 1, ctx[2..], false);
    var u := Paint(g.sibling, Black);
    assert BlackHeight(u) == h + 1 && !IsRed(u);
    assert NoRedRed(u) && Balanced(u);
    var pz := Up(z, p.(color := Black));
    assert BlackHeight(pz) == h + 1 && Balanced(pz) && NoRedRed(pz) && !IsRed(pz);
    var r := Recolor(z, p, g);
    assert r == Up(pz, Frame(g.dir, Red, g.val, u));
    assert BlackHeight(r) == h + 1 && Balanced(r) && NoRedRed(r);
  }

  /** The subtree cases 2 and 3 build, parent a left child: black, balanced, no
      red-red edge, one black level above the node. */
  lemma RestructureLeftOk(z: RBTree, p: Frame, g: Frame, h: nat)
    requires IsRed(z) && Balanced(z) && NoRedRed(z) && BlackHeight(z) == h
    requires p.color == Red && FrameOk(p, h)
    requires g.dir == L && g.color == Black && FrameOk(g, h) && !IsRed(g.sibling)
    ensures var r := Restructure(z, p, g);
      !IsRed(r) && Balanced(r) && NoRedRed(r) && BlackHeight(r) == h + 1
  {
    if p.dir == R {
      assert BlackHeight(z.left) == h && BlackHeight(z.right) == h;
    }
  }

  /** The same, parent a right child. */
  lemma RestructureRightOk(z: RBTree, p: Frame, g: Frame, h: nat)
    requires IsRed(z) && Balanced(z) && NoRedRed(z) && BlackHeight(z) == h
    requires p.color == Red && FrameOk(p, h)
    requires g.dir == R && g.color == Black && FrameOk(g, h) && !IsRed(g.sibling)
    ensures var r := Restructure(z, p, g);
      !IsRed(r) && Balanced(r) && NoRedRed(r) && BlackHeight(r) == h + 1
  {
    if p.dir == L {
      assert BlackHeight(z.left) == h && BlackHeight(z.right) == h;
    }
  }

  /** Cases 2 and 3 end the loop with a red-black tree. */
  lemma RestructureOk(z: RBTree, ctx: seq<Frame>)
    requires |ctx| >= 2 && ctx[0].color == Red && !IsRed(ctx[1].sibling)
    ensures FixupReady(z, ctx) ==> IsRedBlack(Paint(Plug(Restructure(z, ctx[0], ctx[1]), ctx[2..]), Black))
  {
    if FixupReady(z, ctx) {
      RestructureSteps(z, ctx);
    }
  }

  lemma RestructureSteps(z: RBTree, ctx: seq<Frame>)
    requires FixupReady(z, ctx) && |ctx| >= 2 && ctx[0].color == Red && !IsRed(ctx[1].sibling)
    ensures IsRedBlack(Paint(Plug(Restructure(z, ctx[0], ctx[1]), ctx[2..]), Black))
  {
    var h := BlackHeight(z);
    var p, g := ctx[0], ctx[1];
    assert CtxOk(h, ctx[1..], true);
    assert g.color == Black && FrameOk(g, h);
    assert CtxOk(h + 1, ctx[2..], false);
    var r := Restructure(z, p, g);
    if g.dir == L {
      RestructureLeftOk(z, p, g, h);
    } else {
      RestructureRightOk(z, p, g, h);
    }
    PlugOk(r, ctx[2..]);
    Blacken(Plug(r, ctx[2..]));
  }

  /** The loop has ended at a black parent (or at the root): the tree is a
      red-black tree once the root is black. */
  lemma FinishOk(z: RBTree, ctx: seq<Frame>)
    requires ctx == [] || ctx[0].color == Black
    ensures FixupReady(z, ctx) ==> IsRedBlack(Paint(Plug(z, ctx), Black))
  {
    if FixupReady(z, ctx) {
      PlugOk(z, ctx);
      Blacken(Plug(z, ctx));
    }
  }

  /** `insertFixup`: while the node's parent is red, apply case 1 (and move two
      levels up) or cases 2 and 3 (after which the parent is black and the loop
      ends); finally the root turns black. A red parent is never the root, since
      the root stays black, so the grandparent exists. The walk is kept, and from
      the loop invariant the result is a red-black tree. */
  function InsertFixup(z: RBTree, ctx: seq<Frame>): (r: RBTree)
    requires RootBlack(ctx)
    ensures Walk(r) == Walk(Plug(z, ctx))
    ensures !IsRed(r)
    ensures FixupReady(z, ctx) ==> IsRedBlack(r)
    decreases |ctx|
  {
    if ctx == [] || ctx[0].color == Black then
      FinishOk(z, ctx);
      Paint(Plug(z, ctx), Black)
    else
      var p, g := ctx[0], ctx[1];
      if IsRed(g.sibling) then
        var z' := Recolor(z, p, g);
        SameWalk(z', Up(Up(z, p), g), ctx[2..]);
        RecolorOk(z, ctx);
        InsertFixup(z', ctx[2..])
      else
        var top := Restructure(z, p, g);
        SameWalk(top, Up(Up(z, p), g), ctx[2..]);
        RestructureOk(z, ctx);
        Paint(Plug(top, ctx[2..]), Black)
  }

  // ---------------------------------------------------------------------------
  // insert, Insert, UnsafeInsert

  /** `insert(val, safe)`: false, with the tree unchanged, when `safe` and the
      descent meets a node comparing equal; otherwise the walk gains `x` exactly
      where the search-tree insertion puts it. The search order is kept, the root
      is black afterwards, and a red-black tree stays one. The root of a tree
      this file builds is always black, which is what keeps the repair loop from
      looking above the root. */
  function InsertChecked(t: RBTree, x: int, safe: bool): (res: (RBTree, bool))
    requires !IsRed(t)
    ensures res.1 <==> !(safe && BinaryTrees.Search(Shape(t), x).Some?)
    ensures !res.1 ==> res.0 == t
    ensures res.1 ==> Walk(res.0) == InOrder(BinaryTrees.Insert(Shape(t), x))
    ensures res.1 ==> multiset(Walk(res.0)) == multiset(Walk(t)) + multiset{x}
    ensures Ordered(Shape(t)) ==> Ordered(Shape(res.0))
    ensures !IsRed(res.0)
    ensures IsRedBlack(t) ==> IsRedBlack(res.0)
  {
    match Attach(t, x, safe)
    case None => (t, false)
    case Some(ctx) =>
      PlugRoot(Leaf, ctx);
      var r := InsertFixup(RNode(Red, Leaf, x, Leaf), ctx);
      AttachThenFixup(t, x, safe, ctx, r);
      (r, true)
  }

  /** Repairing from the attached red leaf gives the walk of the search-tree
      insertion, a black root, and a red-black tree from a red-black tree. */
  lemma AttachThenFixup(t: RBTree, x: int, safe: bool, ctx: seq<Frame>, r: RBTree)
    requires !IsRed(t) && Attach(t, x, safe) == Some(ctx) && RootBlack(ctx)
    requires r == InsertFixup(RNode(Red, Leaf, x, Leaf), ctx)
    ensures Walk(r) == InOrder(BinaryTrees.Insert(Shape(t), x))
    ensures multiset(Walk(r)) == multiset(Walk(t)) + multiset{x}
    ensures Ordered(Shape(t)) ==> Ordered(Shape(r))
    ensures !IsRed(r)
    ensures IsRedBlack(t) ==> IsRedBlack(r)
  {
    FixupStarts(x, ctx);
    var ins := BinaryTrees.Insert(Shape(t), x);
    OrderedIffSorted(Shape(t));
    OrderedIffSorted(ins);
    OrderedIffSorted(Shape(r));
  }

  /** `Insert`: refuses a value the search finds, which in a search-ordered tree
      is exactly a value already stored. */
  function Insert(t: RBTree, x: int): (res: (RBTree, bool))
    requires !IsRed(t)
    ensures res.1 <==> BinaryTrees.Search(Shape(t), x).None?
    ensures Ordered(Shape(t)) ==> (res.1 <==> x !in multiset(Walk(t)))
    ensures !res.1 ==> res.0 == t
    ensures res.1 ==> exists k | 0 <= k <= |Walk(t)| :: Walk(res.0) == Walk(t)[..k] + [x] + Walk(t)[k..]
    ensures Ordered(Shape(t)) ==> Ordered(Shape(res.0))
    ensures IsRedBlack(t) ==> IsRedBlack(res.0)
  {
    SpliceExists(Shape(t), x);
    InsertChecked(t, x, true)
  }

  /** `UnsafeInsert`: always adds the value, duplicates included. */
  function UnsafeInsert(t: RBTree, x: int): (r: RBTree)
    requires !IsRed(t)
    ensures exists k | 0 <= k <= |Walk(t)| :: Walk(r) == Walk(t)[..k] + [x] + Walk(t)[k..]
    ensures Ordered(Shape(t)) ==> Ordered(Shape(r))
    ensures !IsRed(r)
    ensures IsRedBlack(t) ==> IsRedBlack(r)
  {
    SpliceExists(Shape(t), x);
    InsertChecked(t, x, false).0
  }

  lemma SpliceExists(t: Tree, x: int)
    ensures exists k | 0 <= k <= Size(t) :: InOrder(BinaryTrees.Insert(t, x)) == InOrder(t)[..k] + [x] + InOrder(t)[k..]
  {
    var k := InsertSplice(t, x);
  }

  // ---------------------------------------------------------------------------
  // A sequence of insertions into a new tree

  /** The tree `NewRedBlackTree` followed by `Insert` of each value in turn: a
      search-ordered red-black tree holding each of the values, once. */
  function InsertAll(s: seq<int>): (t: RBTree)
    ensures IsRedBlack(t) && Ordered(Shape(t))
    ensures forall y :: y in multiset(Walk(t)) <==> y in s
    decreases |s|
  {
    if s == [] then Leaf
    else
      var s0, x := s[..|s| - 1], s[|s| - 1];
      assert s == s0 + [x];
      var t := InsertAll(s0);
      var r := Insert(t, x).0;
      InsertAdds(t, x, r);
      ContentsStep(multiset(Walk(t)), multiset(Walk(r)), s0, x, s);
      r
  }

  /** One `Insert` into a search-ordered tree adds one occurrence of `x`, or
      finds `x` already there and changes nothing. */
  lemma InsertAdds(t: RBTree, x: int, r: RBTree)
    requires !IsRed(t) && Ordered(Shape(t)) && r == Insert(t, x).0
    ensures multiset(Walk(r)) == multiset(Walk(t)) + multiset{x} ||
      (multiset(Walk(r)) == multiset(Walk(t)) && x in multiset(Walk(t)))
  {
    if Insert(t, x).1 {
      SpliceAdds(Walk(t), Walk(r), x);
    }
  }

  /** A value spliced in anywhere adds one occurrence. */
  lemma SpliceAdds(w: seq<int>, w': seq<int>, x: int)
    requires exists k | 0 <= k <= |w| :: w' == w[..k] + [x] + w[k..]
    ensures multiset(w') == multiset(w) + multiset{x}
  {
    var k :| 0 <= k <= |w| && w' == w[..k] + [x] + w[k..];
    assert w == w[..k] + w[k..];
  }

  /** Adding `x`, or finding it already there, keeps the stored values those of
      the sequence inserted so far. */
  lemma ContentsStep(m: multiset<int>, m': multiset<int>, s: seq<int>, x: int, s': seq<int>)
    requires forall y :: y in m <==> y in s
    requires s' == s + [x]
    requires m' == m + multiset{x} || (m' == m && x in m)
    ensures forall y :: y in m' <==> y in s'
  {
  }
}
