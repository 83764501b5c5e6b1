/** The pointer-based binary search tree shared by the three Go BST types
    (structures/binary-search-tree.go, structures/bstree.go, structures/bst.go),
    as an immutable datatype. A nil child pointer is `Nil`; a node is named by the
    path of left/right turns that leads to it from the root, which stands in for
    the node pointers (and parent pointers) of the Go code. The in-order walk is
    the oracle every operation is stated against. */
module BinaryTrees {
  import opened Options
  import opened Order

  datatype Tree = Nil | Node(left: Tree, val: int, right: Tree)

  datatype Dir = L | R

  type Path = seq<Dir>

  function Size(t: Tree): nat {
    match t
    case Nil => 0
    case Node(l, _, r) => Size(l) + 1 + Size(r)
  }

  /** `InOrderTreeWalk`: left subtree, node, right subtree. */
  function InOrder(t: Tree): (w: seq<int>)
    ensures |w| == Size(t)
  {
    match t
    case Nil => []
    case Node(l, v, r) => InOrder(l) + [v] + InOrder(r)
  }

  /** The values stored in the tree, with multiplicity. */
  ghost function Elems(t: Tree): multiset<int> {
    multiset(InOrder(t))
  }

  /** The search-tree order: everything on the left is at most the node, everything
      on the right at least the node (equal values may sit on either side). */
  ghost predicate Ordered(t: Tree) {
    match t
    case Nil => true
    case Node(l, v, r) =>
      Ordered(l) && Ordered(r) && AllAtMost(Elems(l), v) && AllAtLeast(Elems(r), v)
  }

  lemma ElemsNode(l: Tree, v: int, r: Tree)
    ensures Elems(Node(l, v, r)) == Elems(l) + multiset{v} + Elems(r)
  {
    assert InOrder(Node(l, v, r)) == InOrder(l) + [v] + InOrder(r);
  }

  lemma SortedSplit(a: seq<int>, v: int, b: seq<int>)
    ensures Sorted(a + [v] + b) <==>
      Sorted(a) && Sorted(b) && AllAtMost(multiset(a), v) && AllAtLeast(multiset(b), v)
  {
    if Sorted(a + [v] + b) {
      SortedSplitParts(a, v, b);
    }
    if Sorted(a) && Sorted(b) && AllAtMost(multiset(a), v) && AllAtLeast(multiset(b), v) {
      SortedJoin(a, v, b);
    }
  }

  lemma SortedSplitParts(a: seq<int>, v: int, b: seq<int>)
    requires Sorted(a + [v] + b)
    ensures Sorted(a) && Sorted(b) && AllAtMost(multiset(a), v) && AllAtLeast(multiset(b), v)
  {
    var s := a + [v] + b;
    assert a == s[..|a|] && b == s[|a| + 1..];
    forall y | y in multiset(a) ensures y <= v {
      var i :| 0 <= i < |a| && a[i] == y;
      assert s[i] == y && s[|a|] == v;
    }
    forall y | y in multiset(b) ensures v <= y {
      var i :| 0 <= i < |b| && b[i] == y;
      assert s[|a| + 1 + i] == y && s[|a|] == v;
    }
  }

  lemma SortedJoin(a: seq<int>, v: int, b: seq<int>)
    requires Sorted(a) && Sorted(b) && AllAtMost(multiset(a), v) && AllAtLeast(multiset(b), v)
    ensures Sorted(a + [v] + b)
  {
    var s := a + [v] + b;
    forall i, j | 0 <= i < j < |s| ensures s[i] <= s[j] {
      if i < |a| {
        assert s[i] == a[i] && a[i] in multiset(a);
        if j < |a| {
          assert s[j] == a[j];
        } else if j > |a| {
          assert s[j] == b[j - |a| - 1] && s[j] in multiset(b);
        }
      } else if i == |a| {
        assert s[j] == b[j - |a| - 1] && s[j] in multiset(b);
      } else {
        assert s[i] == b[i - |a| - 1] && s[j] == b[j - |a| - 1];
      }
    }
  }

  lemma SliceOfLeft(a: seq<int>, v: int, b: seq<int>, o: nat, n: nat)
    requires o + n <= |a|
    ensures (a + [v] + b)[o..o + n] == a[o..o + n]
  {
  }

  lemma SliceOfRight(a: seq<int>, v: int, b: seq<int>, o: nat, n: nat)
    requires o + n <= |b|
    ensures (a + [v] + b)[|a| + 1 + o..|a| + 1 + o + n] == b[o..o + n]
  {
  }

  /** The in-order walk is the oracle of the search-tree order: a tree is ordered
      exactly when its walk is non-decreasing. */
  lemma {:induction false} OrderedIffSorted(t: Tree)
    ensures Ordered(t) <==> Sorted(InOrder(t))
  {
    match t
    case Nil =>
    case Node(l, v, r) =>
      OrderedIffSorted(l);
      OrderedIffSorted(r);
      SortedSplit(InOrder(l), v, InOrder(r));
  }

  /** The descent rule of every insert in the collection: a value goes left iff the
      node compares greater (`compare(cur, val) == 1`), otherwise right, so equal
      values go right; the new value becomes a leaf. Duplicates are allowed. */
  function Insert(t: Tree, x: int): (r: Tree)
    ensures Elems(r) == Elems(t) + multiset{x}
    ensures Ordered(t) ==> Ordered(r)
  {
    match t
    case Nil => Node(Nil, x, Nil)
    case Node(l, v, rt) =>
      if Compare(v, x) == 1 then
        var l' := Insert(l, x);
        GrowLeft(l, v, rt, l', x);
        Node(l', v, rt)
      else
        var rt' := Insert(rt, x);
        GrowRight(l, v, rt, rt', x);
        Node(l, v, rt')
  }

  /** A left subtree that gains a value smaller than the node. */
  lemma GrowLeft(l: Tree, v: int, r: Tree, l': Tree, x: int)
    requires x < v && Elems(l') == Elems(l) + multiset{x} && (Ordered(l) ==> Ordered(l'))
    ensures Elems(Node(l', v, r)) == Elems(Node(l, v, r)) + multiset{x}
    ensures Ordered(Node(l, v, r)) ==> Ordered(Node(l', v, r))
  {
    ElemsNode(l, v, r);
    ElemsNode(l', v, r);
    if Ordered(Node(l, v, r)) {
      forall y | y in Elems(l') ensures y <= v {
        assert y in Elems(l) || y == x;
      }
    }
  }

  /** A right subtree that gains a value at least the node. */
  lemma GrowRight(l: Tree, v: int, r: Tree, r': Tree, x: int)
    requires v <= x && Elems(r') == Elems(r) + multiset{x} && (Ordered(r) ==> Ordered(r'))
    ensures Elems(Node(l, v, r')) == Elems(Node(l, v, r)) + multiset{x}
    ensures Ordered(Node(l, v, r)) ==> Ordered(Node(l, v, r'))
  {
    ElemsNode(l, v, r);
    ElemsNode(l, v, r');
    if Ordered(Node(l, v, r)) {
      forall y | y in Elems(r') ensures v <= y {
        assert y in Elems(r) || y == x;
      }
    }
  }

  /** Insertion splices exactly one occurrence of `x` into the walk and changes
      nothing else about it. */
  lemma {:induction false} InsertSplice(t: Tree, x: int) returns (k: nat)
    ensures k <= Size(t)
    ensures InOrder(Insert(t, x)) == InOrder(t)[..k] + [x] + InOrder(t)[k..]
  {
    match t
    case Nil =>
      k := 0;
      assert InOrder(Insert(t, x)) == [x];
    case Node(l, v, rt) =>
      if Compare(v, x) == 1 {
        var j := InsertSplice(l, x);
        assert Insert(t, x) == Node(Insert(l, x), v, rt);
        k := SpliceIntoLeft(l, v, rt, Insert(l, x), x, j);
      } else {
        var j := InsertSplice(rt, x);
        assert Insert(t, x) == Node(l, v, Insert(rt, x));
        k := SpliceIntoRight(l, v, rt, Insert(rt, x), x, j);
      }
  }

  /** Splicing into the left part of `w = a + [v] + b` splices into `w`. */
  lemma SpliceLeft(a: seq<int>, v: int, b: seq<int>, j: nat, x: int, w: seq<int>, w': seq<int>)
    requires j <= |a| && w == a + [v] + b && w' == (a[..j] + [x] + a[j..]) + [v] + b
    ensures w' == w[..j] + [x] + w[j..]
  {
    assert w[..j] == a[..j];
    assert w[j..] == a[j..] + [v] + b;
  }

  /** Splicing into the right part of `w = a + [v] + b` splices into `w` past
      `a` and `v`. */
  lemma SpliceRight(a: seq<int>, v: int, b: seq<int>, j: nat, x: int, w: seq<int>, w': seq<int>)
    requires j <= |b| && w == a + [v] + b && w' == a + [v] + (b[..j] + [x] + b[j..])
    ensures w' == w[..|a| + 1 + j] + [x] + w[|a| + 1 + j..]
  {
    assert w[..|a| + 1 + j] == a + [v] + b[..j];
    assert w[|a| + 1 + j..] == b[j..];
  }

  /** Splicing into the left subtree's walk splices into the whole walk at the
      same position. */
  lemma SpliceIntoLeft(l: Tree, v: int, rt: Tree, l': Tree, x: int, j: nat) returns (k: nat)
    requires j <= Size(l) && InOrder(l') == InOrder(l)[..j] + [x] + InOrder(l)[j..]
    ensures k <= Size(Node(l, v, rt))
    ensures InOrder(Node(l', v, rt)) == InOrder(Node(l, v, rt))[..k] + [x] + InOrder(Node(l, v, rt))[k..]
  {
    k := j;
    SpliceLeft(InOrder(l), v, InOrder(rt), j, x, InOrder(Node(l, v, rt)), InOrder(Node(l', v, rt)));
  }

  /** Splicing into the right subtree's walk splices into the whole walk past
      the left subtree and the node. */
  lemma SpliceIntoRight(l: Tree, v: int, rt: Tree, rt': Tree, x: int, j: nat) returns (k: nat)
    requires j <= Size(rt) && InOrder(rt') == InOrder(rt)[..j] + [x] + InOrder(rt)[j..]
    ensures k <= Size(Node(l, v, rt))
    ensures InOrder(Node(l, v, rt')) == InOrder(Node(l, v, rt))[..k] + [x] + InOrder(Node(l, v, rt))[k..]
  {
    k := |InOrder(l)| + 1 + j;
    SpliceRight(InOrder(l), v, InOrder(rt), j, x, InOrder(Node(l, v, rt)), InOrder(Node(l, v, rt')));
  }

  /** Inserts the values one after another, in order. */
  function InsertAll(t: Tree, s: seq<int>): (r: Tree)
    ensures Elems(r) == Elems(t) + multiset(s)
    ensures Ordered(t) ==> Ordered(r)
    decreases |s|
  {
    if s == [] then t
    else
      assert s == [s[0]] + s[1..];
      InsertAll(Insert(t, s[0]), s[1..])
  }

  /** `Height`: the number of nodes on the longest root-to-leaf path. */
  function Height(t: Tree): nat {
    match t
    case Nil => 0
    case Node(l, _, r) => 1 + Max(Height(l), Height(r))
  }

  function Max(a: int, b: int): int {
    if a >= b then a else b
  }

  /** The depth-first walk `Height` runs: `count` is the depth of the current node
      and `max` the deepest depth seen so far. */
  function HeightDfs(t: Tree, count: nat, max: nat): (m: nat)
    requires count <= max
    ensures m == Max(max, count + Height(t))
  {
    match t
    case Nil => max
    case Node(l, _, r) =>
      var count' := count + 1;
      var max' := if count' > max then count' else max;
      HeightDfs(r, count', HeightDfs(l, count', max'))
  }

  // ---------------------------------------------------------------------------
  // Nodes as paths

  /** The subtree a path leads to; once a path leaves the tree it stays at `Nil`. */
  function Subtree(t: Tree, p: Path): Tree
    decreases |p|
  {
    if p == [] || t.Nil? then t
    else if p[0] == L then Subtree(t.left, p[1..])
    else Subtree(t.right, p[1..])
  }

  /** A path that names a node of the tree (a non-nil pointer). */
  predicate ValidPath(t: Tree, p: Path) {
    Subtree(t, p).Node?
  }

  function Child(t: Tree, d: Dir): Tree {
    if t.Nil? then Nil else if d == L then t.left else t.right
  }

  /** How many values of the walk come before the subtree at `p`. */
  function Offset(t: Tree, p: Path): nat
    decreases |p|
  {
    if p == [] || t.Nil? then 0
    else if p[0] == L then Offset(t.left, p[1..])
    else Size(t.left) + 1 + Offset(t.right, p[1..])
  }

  /** The position in the walk of the node at `p`. */
  function Index(t: Tree, p: Path): nat {
    Offset(t, p) + Size(Child(Subtree(t, p), L))
  }

  lemma {:induction false} SubtreeConcat(t: Tree, p: Path, q: Path)
    ensures Subtree(t, p + q) == Subtree(Subtree(t, p), q)
    ensures Offset(t, p + q) == Offset(t, p) + Offset(Subtree(t, p), q)
    decreases |p|
  {
    if p == [] {
      assert p + q == q;
    } else if t.Nil? {
      SubtreeOfNil(q);
    } else {
      assert (p + q)[1..] == p[1..] + q;
      SubtreeConcat(if p[0] == L then t.left else t.right, p[1..], q);
    }
  }

  lemma {:induction false} SubtreeOfNil(q: Path)
    ensures Subtree(Nil, q) == Nil && Offset(Nil, q) == 0
  {
  }

  lemma SubtreeStep(t: Tree, p: Path, d: Dir)
    ensures Subtree(t, p + [d]) == Child(Subtree(t, p), d)
    ensures ValidPath(t, p) && d == L ==> Offset(t, p + [d]) == Offset(t, p)
    ensures ValidPath(t, p) && d == R ==>
      Offset(t, p + [d]) == Offset(t, p) + Size(Subtree(t, p).left) + 1
  {
    SubtreeConcat(t, p, [d]);
  }

  /** A prefix of a node's path names a node too. */
  lemma PrefixValid(t: Tree, p: Path, q: Path)
    requires ValidPath(t, p + q)
    ensures ValidPath(t, p)
  {
    SubtreeConcat(t, p, q);
    if Subtree(t, p).Nil? {
      SubtreeOfNil(q);
    }
  }

  /** The subtree at `p` occupies a contiguous slice of the walk, starting at
      `Offset(t, p)`. */
  lemma {:induction false} SubtreeSlice(t: Tree, p: Path)
    ensures Offset(t, p) + Size(Subtree(t, p)) <= Size(t)
    ensures InOrder(t)[Offset(t, p)..Offset(t, p) + Size(Subtree(t, p))] == InOrder(Subtree(t, p))
    decreases |p|
  {
    if p == [] || t.Nil? {
    } else if p[0] == L {
      SubtreeSlice(t.left, p[1..]);
      SliceGlue(InOrder(t), InOrder(t.left), t.val, InOrder(t.right), Offset(t, p), Offset(t.left, p[1..]),
                Size(Subtree(t, p)), InOrder(Subtree(t, p)), true);
    } else {
      SubtreeSlice(t.right, p[1..]);
      SliceGlue(InOrder(t), InOrder(t.left), t.val, InOrder(t.right), Offset(t, p), Offset(t.right, p[1..]),
                Size(Subtree(t, p)), InOrder(Subtree(t, p)), false);
    }
  }

  /** A slice of one side of a walk is a slice of the whole walk, shifted past
      the left side and the node when it is the right side. */
  lemma SliceGlue(w: seq<int>, a: seq<int>, v: int, b: seq<int>, off: nat, o: nat, n: nat, sub: seq<int>, left: bool)
    requires w == a + [v] + b
    requires left ==> off == o && o + n <= |a| && a[o..o + n] == sub
    requires !left ==> off == |a| + 1 + o && o + n <= |b| && b[o..o + n] == sub
    ensures off + n <= |w| && w[off..off + n] == sub
  {
    if left {
      SliceOfLeft(a, v, b, o, n);
    } else {
      SliceOfRight(a, v, b, o, n);
    }
  }

  /** The node at a path sits at position `Index` of the walk. */
  lemma IndexInWalk(t: Tree, p: Path)
    requires ValidPath(t, p)
    ensures Index(t, p) < Size(t)
    ensures InOrder(t)[Index(t, p)] == Subtree(t, p).val
  {
    SubtreeSlice(t, p);
    var s := Subtree(t, p);
    assert InOrder(s) == InOrder(s.left) + [s.val] + InOrder(s.right);
    assert InOrder(s)[Size(s.left)] == s.val;
  }

  /** The position just past the subtree at `p`. */
  function End(t: Tree, p: Path): nat {
    Offset(t, p) + Size(Subtree(t, p))
  }

  /** `Search`: the first node on the descent whose value compares equal. */
  function Search(t: Tree, x: int): (p: Option<Path>)
    ensures p.Some? ==> ValidPath(t, p.value) && Subtree(t, p.value).val == x
    ensures p.Some? ==> x in Elems(t)
    ensures Ordered(t) ==> (p.None? <==> x !in Elems(t))
  {
    match t
    case Nil => None
    case Node(l, v, r) =>
      ElemsNode(l, v, r);
      var c := Compare(v, x);
      if c == 0 then Some([])
      else if c == 1 then
        match Search(l, x)
        case None => None
        case Some(q) => assert ([L] + q)[1..] == q; Some([L] + q)
      else
        match Search(r, x)
        case None => None
        case Some(q) => assert ([R] + q)[1..] == q; Some([R] + q)
  }

  /** Following `q` from the node at `p` is following `p + q` from the root. */
  lemma IndexConcat(t: Tree, p: Path, q: Path)
    ensures Subtree(t, p + q) == Subtree(Subtree(t, p), q)
    ensures Index(t, p + q) == Offset(t, p) + Index(Subtree(t, p), q)
  {
    SubtreeConcat(t, p, q);
  }

  /** A node's value sits between its left and its right subtree. */
  lemma NodeBounds(t: Tree, p: Path)
    requires ValidPath(t, p)
    ensures Index(t, p) == Offset(t, p) + Size(Subtree(t, p).left)
    ensures End(t, p) == Index(t, p) + 1 + Size(Subtree(t, p).right)
    ensures Subtree(t, p).left.Node? ==> ValidPath(t, p + [L])
    ensures Subtree(t, p).right.Node? ==> ValidPath(t, p + [R])
  {
    SubtreeStep(t, p, L);
    SubtreeStep(t, p, R);
  }

  /** Descending to a left child keeps the offset; the left child ends where its
      parent's own value sits. */
  lemma LeftChildBounds(t: Tree, p: Path)
    requires ValidPath(t, p + [L])
    ensures ValidPath(t, p)
    ensures Offset(t, p + [L]) == Offset(t, p)
    ensures End(t, p + [L]) == Index(t, p)
  {
    PrefixValid(t, p, [L]);
    SubtreeStep(t, p, L);
  }

  /** A right child starts just after its parent's value and ends where the
      parent's subtree ends. */
  lemma RightChildBounds(t: Tree, p: Path)
    requires ValidPath(t, p + [R])
    ensures ValidPath(t, p)
    ensures Offset(t, p + [R]) == Index(t, p) + 1
    ensures End(t, p + [R]) == End(t, p)
  {
    PrefixValid(t, p, [R]);
    SubtreeStep(t, p, R);
  }

  // ---------------------------------------------------------------------------
  // MaxSince / MinSince, Successor / Predecessor

  /** The right turns from a subtree's root down to its rightmost node. */
  function RightSpine(s: Tree): Path {
    if s.Nil? || s.right.Nil? then [] else [R] + RightSpine(s.right)
  }

  /** The left turns from a subtree's root down to its leftmost node. */
  function LeftSpine(s: Tree): Path {
    if s.Nil? || s.left.Nil? then [] else [L] + LeftSpine(s.left)
  }

  lemma {:induction false} RightSpineLast(s: Tree)
    requires s.Node?
    ensures ValidPath(s, RightSpine(s)) && Subtree(s, RightSpine(s)).right.Nil?
    ensures Index(s, RightSpine(s)) == Size(s) - 1
  {
    if s.right.Node? {
      var q := RightSpine(s.right);
      RightSpineLast(s.right);
      assert ([R] + q)[1..] == q;
    }
  }

  lemma {:induction false} LeftSpineFirst(s: Tree)
    requires s.Node?
    ensures ValidPath(s, LeftSpine(s)) && Subtree(s, LeftSpine(s)).left.Nil?
    ensures Index(s, LeftSpine(s)) == 0
  {
    if s.left.Node? {
      var q := LeftSpine(s.left);
      LeftSpineFirst(s.left);
      assert ([L] + q)[1..] == q;
    }
  }

  /** `MaxSince`: the node holding the last value of the subtree's walk (one with
      no right child); nil for a nil node. */
  function MaxSince(t: Tree, n: Option<Path>): (m: Option<Path>)
    requires n.Some? ==> ValidPath(t, n.value)
    ensures m.Some? <==> n.Some?
    ensures n.Some? ==> ValidPath(t, m.value) && Subtree(t, m.value).right.Nil?
    ensures n.Some? ==> Index(t, m.value) == End(t, n.value) - 1
    ensures n.Some? ==> Offset(t, n.value) <= Index(t, m.value)
  {
    match n
    case None => None
    case Some(p) =>
      var s := Subtree(t, p);
      RightSpineLast(s);
      IndexConcat(t, p, RightSpine(s));
      Some(p + RightSpine(s))
  }

  /** `MinSince`: the node holding the first value of the subtree's walk (one with
      no left child); nil for a nil node. */
  function MinSince(t: Tree, n: Option<Path>): (m: Option<Path>)
    requires n.Some? ==> ValidPath(t, n.value)
    ensures m.Some? <==> n.Some?
    ensures n.Some? ==> ValidPath(t, m.value) && Subtree(t, m.value).left.Nil?
    ensures n.Some? ==> Index(t, m.value) == Offset(t, n.value)
    ensures n.Some? ==> Index(t, m.value) < End(t, n.value)
  {
    match n
    case None => None
    case Some(p) =>
      var s := Subtree(t, p);
      LeftSpineFirst(s);
      IndexConcat(t, p, LeftSpine(s));
      Some(p + LeftSpine(s))
  }

  /** The root of a non-empty tree, or nil. */
  function Root(t: Tree): (n: Option<Path>)
    ensures n.Some? ==> ValidPath(t, n.value) && Offset(t, n.value) == 0 && End(t, n.value) == Size(t)
    ensures n.None? <==> t.Nil?
  {
    if t.Nil? then None else Some([])
  }

  /** `Max`: the node holding the largest value of an ordered tree; nil when empty. */
  function MaxNode(t: Tree): (m: Option<Path>)
    ensures m.None? <==> t.Nil?
    ensures m.Some? ==> ValidPath(t, m.value) && Index(t, m.value) == Size(t) - 1
    ensures m.Some? && Ordered(t) ==> AllAtMost(Elems(t), Subtree(t, m.value).val)
  {
    var m := MaxSince(t, Root(t));
    if m.Some? then LastIsLargest(t, m.value); m else m
  }

  /** `Min`: the node holding the smallest value of an ordered tree; nil when empty. */
  function MinNode(t: Tree): (m: Option<Path>)
    ensures m.None? <==> t.Nil?
    ensures m.Some? ==> ValidPath(t, m.value) && Index(t, m.value) == 0
    ensures m.Some? && Ordered(t) ==> AllAtLeast(Elems(t), Subtree(t, m.value).val)
  {
    var m := MinSince(t, Root(t));
    if m.Some? then FirstIsSmallest(t, m.value); m else m
  }

  lemma LastIsLargest(t: Tree, p: Path)
    requires ValidPath(t, p) && Index(t, p) == Size(t) - 1
    ensures Ordered(t) ==> AllAtMost(Elems(t), Subtree(t, p).val)
  {
    IndexInWalk(t, p);
    OrderedIffSorted(t);
    if Ordered(t) {
      SortedLast(InOrder(t), Subtree(t, p).val);
    }
  }

  /** The last element of a sorted sequence is its largest. */
  lemma SortedLast(w: seq<int>, v: int)
    requires Sorted(w) && |w| > 0 && w[|w| - 1] == v
    ensures AllAtMost(multiset(w), v)
  {
    forall y | y in multiset(w) ensures y <= v {
      var i :| 0 <= i < |w| && w[i] == y;
    }
  }

  lemma FirstIsSmallest(t: Tree, p: Path)
    requires ValidPath(t, p) && Index(t, p) == 0
    ensures Ordered(t) ==> AllAtLeast(Elems(t), Subtree(t, p).val)
  {
    IndexInWalk(t, p);
    OrderedIffSorted(t);
    if Ordered(t) {
      SortedFirst(InOrder(t), Subtree(t, p).val);
    }
  }

  /** The first element of a sorted sequence is its smallest. */
  lemma SortedFirst(w: seq<int>, v: int)
    requires Sorted(w) && |w| > 0 && w[0] == v
    ensures AllAtLeast(multiset(w), v)
  {
    forall y | y in multiset(w) ensures v <= y {
      var i :| 0 <= i < |w| && w[i] == y;
    }
  }

  /** The climb of `Successor` (`d == R`) and `Predecessor` (`d == L`): move to the
      parent while the current node is the parent's `d` child. */
  function Climb(p: Path, d: Dir): (q: Path)
    ensures |q| <= |p| && q == p[..|q|]
    ensures q == [] || q[|q| - 1] != d
  {
    if p != [] && p[|p| - 1] == d then Climb(p[..|p| - 1], d) else p
  }

  /** Climbing out of right children does not move the end of the subtree. */
  lemma {:induction false} ClimbRightEnd(t: Tree, p: Path)
    requires ValidPath(t, p)
    ensures ValidPath(t, Climb(p, R)) && End(t, Climb(p, R)) == End(t, p)
    decreases |p|
  {
    if p != [] && p[|p| - 1] == R {
      var p' := p[..|p| - 1];
      assert p == p' + [R];
      RightChildBounds(t, p');
      ClimbRightEnd(t, p');
    }
  }

  /** Climbing out of left children does not move the start of the subtree. */
  lemma {:induction false} ClimbLeftOffset(t: Tree, p: Path)
    requires ValidPath(t, p)
    ensures ValidPath(t, Climb(p, L)) && Offset(t, Climb(p, L)) == Offset(t, p)
    decreases |p|
  {
    if p != [] && p[|p| - 1] == L {
      var p' := p[..|p| - 1];
      assert p == p' + [L];
      LeftChildBounds(t, p');
      ClimbLeftOffset(t, p');
    }
  }

  /** `Successor`: the node holding the next value of the walk, nil after the
      last one and for a nil node. */
  function Successor(t: Tree, n: Option<Path>): (m: Option<Path>)
    requires n.Some? ==> ValidPath(t, n.value)
    ensures n.None? ==> m.None?
    ensures m.Some? ==> ValidPath(t, m.value) && Index(t, m.value) == Index(t, n.value) + 1
    ensures n.Some? && m.None? ==> Index(t, n.value) == Size(t) - 1
  {
    match n
    case None => None
    case Some(p) =>
      NodeBounds(t, p);
      if Subtree(t, p).right.Node? then
        RightChildBounds(t, p);
        MinSince(t, Some(p + [R]))
      else
        var y := Climb(p, R);
        ClimbRightEnd(t, p);
        if y == [] then None
        else
          var y' := y[..|y| - 1];
          assert y == y' + [L];
          LeftChildBounds(t, y');
          Some(y')
  }

  /** `Predecessor`: the node holding the previous value of the walk, nil before
      the first one and for a nil node. */
  function Predecessor(t: Tree, n: Option<Path>): (m: Option<Path>)
    requires n.Some? ==> ValidPath(t, n.value)
    ensures n.None? ==> m.None?
    ensures m.Some? ==> ValidPath(t, m.value) && Index(t, m.value) + 1 == Index(t, n.value)
    ensures n.Some? && m.None? ==> Index(t, n.value) == 0
  {
    match n
    case None => None
    case Some(p) =>
      NodeBounds(t, p);
      if Subtree(t, p).left.Node? then
        LeftChildBounds(t, p);
        MaxSince(t, Some(p + [L]))
      else
        var y := Climb(p, L);
        ClimbLeftOffset(t, p);
        if y == [] then None
        else
          var y' := y[..|y| - 1];
          assert y == y' + [R];
          RightChildBounds(t, y');
          Some(y')
  }

  // ---------------------------------------------------------------------------
  // transplant, DeleteNode, Delete

  /** `transplant`: the subtree at `p` is replaced by `s`; a path that names no
      node leaves the tree as it is. */
  function Transplant(t: Tree, p: Path, s: Tree): (r: Tree)
    ensures ValidPath(t, p) ==> ReplacedSlice(InOrder(t), Offset(t, p), End(t, p), InOrder(s), InOrder(r))
    decreases |p|
  {
    if p == [] then s
    else if t.Nil? then t
    else if p[0] == L then
      var sub := Transplant(t.left, p[1..], s);
      TransplantLeft(t, p, s, sub);
      Node(sub, t.val, t.right)
    else
      var sub := Transplant(t.right, p[1..], s);
      TransplantRight(t, p, s, sub);
      Node(t.left, t.val, sub)
  }

  /** The walk of a graft below the left child. */
  lemma TransplantLeft(t: Tree, p: Path, s: Tree, sub: Tree)
    requires t.Node? && p != [] && p[0] == L
    requires ValidPath(t.left, p[1..]) ==>
      ReplacedSlice(InOrder(t.left), Offset(t.left, p[1..]), End(t.left, p[1..]), InOrder(s), InOrder(sub))
    ensures ValidPath(t, p) ==>
      ReplacedSlice(InOrder(t), Offset(t, p), End(t, p), InOrder(s), InOrder(Node(sub, t.val, t.right)))
  {
    if ValidPath(t, p) {
      assert Subtree(t, p) == Subtree(t.left, p[1..]);
      TransplantLeftWalk(InOrder(t.left), t.val, InOrder(t.right), Offset(t, p), End(t, p), InOrder(s), InOrder(sub));
    }
  }

  /** The walk of a graft below the right child. */
  lemma TransplantRight(t: Tree, p: Path, s: Tree, sub: Tree)
    requires t.Node? && p != [] && p[0] == R
    requires ValidPath(t.right, p[1..]) ==>
      ReplacedSlice(InOrder(t.right), Offset(t.right, p[1..]), End(t.right, p[1..]), InOrder(s), InOrder(sub))
    ensures ValidPath(t, p) ==>
      ReplacedSlice(InOrder(t), Offset(t, p), End(t, p), InOrder(s), InOrder(Node(t.left, t.val, sub)))
  {
    if ValidPath(t, p) {
      assert Subtree(t, p) == Subtree(t.right, p[1..]);
      TransplantRightWalk(InOrder(t.left), t.val, InOrder(t.right), Offset(t.right, p[1..]), End(t.right, p[1..]),
        InOrder(s), InOrder(sub));
    }
  }

  lemma TransplantLeftWalk(a: seq<int>, v: int, b: seq<int>, o: int, e: int, m: seq<int>, a': seq<int>)
    requires ReplacedSlice(a, o, e, m, a')
    ensures ReplacedSlice(a + [v] + b, o, e, m, a' + [v] + b)
  {
    var w := a + [v] + b;
    assert w[..o] == a[..o];
    assert w[e..] == a[e..] + [v] + b;
  }

  lemma TransplantRightWalk(a: seq<int>, v: int, b: seq<int>, o: int, e: int, m: seq<int>, b': seq<int>)
    requires ReplacedSlice(b, o, e, m, b')
    ensures ReplacedSlice(a + [v] + b, |a| + 1 + o, |a| + 1 + e, m, a + [v] + b')
  {
    var w := a + [v] + b;
    assert w[..|a| + 1 + o] == a + [v] + b[..o];
    assert w[|a| + 1 + e..] == b[e..];
  }

  /** The value of the rightmost node of a non-empty subtree: the last of its walk. */
  function Rightmost(s: Tree): (v: int)
    requires s.Node?
    ensures v == InOrder(s)[Size(s) - 1]
  {
    RightSpineLast(s);
    IndexInWalk(s, RightSpine(s));
    Subtree(s, RightSpine(s)).val
  }

  /** `transplant(y, y.Left)` on the rightmost node `y` of a subtree: its left child
      takes its place, and the walk loses exactly its last value. */
  function RemoveMax(s: Tree): (r: Tree)
    requires s.Node?
    ensures InOrder(r) == InOrder(s)[..Size(s) - 1]
    ensures InOrder(s) == InOrder(r) + [Rightmost(s)]
  {
    if s.right.Nil? then s.left
    else
      var r := Node(s.left, s.val, RemoveMax(s.right));
      assert InOrder(s) == InOrder(s.left) + [s.val] + InOrder(s.right);
      assert Rightmost(s) == Rightmost(s.right) by {
        assert ([R] + RightSpine(s.right))[1..] == RightSpine(s.right);
      }
      r
  }

  /** The subtree that replaces a deleted node: its right child when it has no left
      child, its left child when it has no right child, and otherwise the node
      `MaxSince(node.Left)` moved up, with the left subtree minus that node. */
  function RemoveRoot(s: Tree): (r: Tree)
    requires s.Node?
    ensures InOrder(r) == InOrder(s.left) + InOrder(s.right)
  {
    if s.left.Nil? then s.right
    else if s.right.Nil? then s.left
    else Node(RemoveMax(s.left), Rightmost(s.left), s.right)
  }

  /** Replacing the slice `w[o..e] == a + [v] + b` by `a + b` drops exactly the
      position of `v`. */
  lemma DropOne(w: seq<int>, o: int, e: int, a: seq<int>, v: int, b: seq<int>, m: seq<int>, i: int)
    requires 0 <= o <= e <= |w| && w[o..e] == a + [v] + b
    requires ReplacedSlice(w, o, e, a + b, m) && i == o + |a|
    ensures RemovedAt(w, i, m)
  {
    var mid := w[o..e];
    assert w[o..o + |a|] == mid[..|a|] == a;
    assert w[o + |a| + 1..e] == mid[|a| + 1..] == b;
    assert w[..o + |a|] == w[..o] + w[o..o + |a|];
    assert w[o + |a| + 1..] == w[o + |a| + 1..e] + w[e..];
  }

  /** `DeleteNode`: false and no change for a nil node; otherwise the node's value,
      and only it, leaves the walk. */
  function DeleteNode(t: Tree, n: Option<Path>): (res: (Tree, bool))
    requires n.Some? ==> ValidPath(t, n.value)
    ensures res.1 <==> n.Some?
    ensures n.None? ==> res.0 == t
    ensures n.Some? ==> RemovedAt(InOrder(t), Index(t, n.value), InOrder(res.0))
  {
    match n
    case None => (t, false)
    case Some(p) =>
      var r := Transplant(t, p, RemoveRoot(Subtree(t, p)));
      DeleteNodeWalk(t, p, r);
      (r, true)
  }

  lemma DeleteNodeWalk(t: Tree, p: Path, r: Tree)
    requires ValidPath(t, p)
    requires r == Transplant(t, p, RemoveRoot(Subtree(t, p)))
    ensures RemovedAt(InOrder(t), Index(t, p), InOrder(r))
  {
    var s := Subtree(t, p);
    SubtreeSlice(t, p);
    NodeBounds(t, p);
    DropOne(InOrder(t), Offset(t, p), End(t, p), InOrder(s.left), s.val, InOrder(s.right), InOrder(r), Index(t, p));
  }

  /** Cutting the value `x` at position `i` out of `w` leaves `w'`, which holds
      one `x` fewer. */
  lemma RemoveAt(w: seq<int>, i: int, x: int, w': seq<int>)
    requires RemovedAt(w, i, w') && w[i] == x
    ensures multiset(w') == multiset(w) - multiset{x}
  {
    assert w == w[..i] + [w[i]] + w[i + 1..];
  }

  lemma RemoveKeepsOrder(t: Tree, r: Tree, i: int)
    requires RemovedAt(InOrder(t), i, InOrder(r))
    ensures Ordered(t) ==> Ordered(r)
  {
    OrderedIffSorted(t);
    OrderedIffSorted(r);
    if Ordered(t) {
      SortedRemove(InOrder(t), i);
    }
  }

  /** `Delete`: deletes the node `Search` finds. It reports false, with the tree
      unchanged, exactly when the search fails, which for an ordered tree means
      the value is absent; otherwise one occurrence of `x` leaves the tree. Either
      way the order is kept. */
  function Delete(t: Tree, x: int): (res: (Tree, bool))
    ensures res.1 <==> Search(t, x).Some?
    ensures Ordered(t) ==> (res.1 <==> x in Elems(t))
    ensures !res.1 ==> res.0 == t
    ensures res.1 ==> Elems(res.0) == Elems(t) - multiset{x}
    ensures Ordered(t) ==> Ordered(res.0)
  {
    var n := Search(t, x);
    var res := DeleteNode(t, n);
    if n.Some? then
      DeleteFound(t, x, n.value, res.0);
      res
    else res
  }

  /** The node found for `x` holds `x`, so removing its position from the walk
      removes one `x` and keeps the order. */
  lemma DeleteFound(t: Tree, x: int, p: Path, r: Tree)
    requires ValidPath(t, p) && Subtree(t, p).val == x
    requires RemovedAt(InOrder(t), Index(t, p), InOrder(r))
    ensures Elems(r) == Elems(t) - multiset{x}
    ensures Ordered(t) ==> Ordered(r)
  {
    IndexInWalk(t, p);
    RemoveAt(InOrder(t), Index(t, p), x, InOrder(r));
    RemoveKeepsOrder(t, r, Index(t, p));
  }

  // ---------------------------------------------------------------------------
  // Height as the longest root-to-leaf path

  /** Every node lies on a path with fewer turns than the height. */
  lemma {:induction false} PathShorterThanHeight(t: Tree, p: Path)
    requires ValidPath(t, p)
    ensures |p| < Height(t)
    decreases |p|
  {
    if p != [] {
      PathShorterThanHeight(if p[0] == L then t.left else t.right, p[1..]);
    }
  }

  /** Some node lies exactly `Height - 1` turns below the root. */
  lemma {:induction false} DeepestPath(t: Tree) returns (p: Path)
    requires t.Node?
    ensures ValidPath(t, p) && |p| + 1 == Height(t)
  {
    if t.left.Nil? && t.right.Nil? {
      p := [];
    } else if Height(t.left) >= Height(t.right) {
      var q := DeepestPath(t.left);
      p := [L] + q;
      assert p[1..] == q;
    } else {
      var q := DeepestPath(t.right);
      p := [R] + q;
      assert p[1..] == q;
    }
  }

  // ---------------------------------------------------------------------------
  // The loops of Search and Insert in structures/bstree.go and structures/bst.go

  /** A search result inside the subtree at `p`, seen from the root. */
  function Under(p: Path, o: Option<Path>): Option<Path> {
    if o.Some? then Some(p + o.value) else None
  }

  /** The `Search` loop: walk down from the root, left when the node compares
      greater, right when it compares smaller, until a node compares equal or the
      walk falls off the tree. It finds what the recursive `Search` finds. */
  method SearchLoop(t: Tree, x: int) returns (n: Option<Path>)
    ensures n == Search(t, x)
  {
    var cur := t;
    var p: Path := [];
    UnderRoot(Search(t, x));
    while cur.Node?
      invariant cur == Subtree(t, p)
      invariant Search(t, x) == Under(p, Search(cur, x))
      decreases cur
    {
      var c := Compare(cur.val, x);
      if c == 0 {
        assert p + [] == p;
        return Some(p);
      }
      var d := if c == 1 then L else R;
      SubtreeStep(t, p, d);
      UnderStep(cur, x, p, d);
      p := p + [d];
      cur := Child(cur, d);
    }
    return None;
  }

  lemma UnderRoot(o: Option<Path>)
    ensures Under([], o) == o
  {
    if o.Some? {
      assert [] + o.value == o.value;
    }
  }

  /** One step of the `Search` loop, seen from the root. */
  lemma UnderStep(cur: Tree, x: int, p: Path, d: Dir)
    requires cur.Node? && Compare(cur.val, x) != 0
    requires d == if Compare(cur.val, x) == 1 then L else R
    ensures Under(p, Search(cur, x)) == Under(p + [d], Search(Child(cur, d), x))
  {
    SearchDescends(cur, x, d);
    UnderUnder(p, [d], Search(Child(cur, d), x));
  }

  /** A search that does not stop at the root goes on in the child it picks. */
  lemma SearchDescends(cur: Tree, x: int, d: Dir)
    requires cur.Node? && Compare(cur.val, x) != 0
    requires d == if Compare(cur.val, x) == 1 then L else R
    ensures Search(cur, x) == Under([d], Search(Child(cur, d), x))
  {
  }

  lemma UnderUnder(p: Path, q: Path, o: Option<Path>)
    ensures Under(p, Under(q, o)) == Under(p + q, o)
  {
    if o.Some? {
      assert p + (q + o.value) == (p + q) + o.value;
    }
  }

  /** Grafting inside a subtree is grafting at the longer path. */
  lemma {:induction false} TransplantConcat(t: Tree, p: Path, q: Path, s: Tree)
    ensures Transplant(t, p, Transplant(Subtree(t, p), q, s)) == Transplant(t, p + q, s)
    decreases |p|
  {
    if p == [] {
      assert p + q == q;
    } else if t.Nil? {
    } else {
      assert (p + q)[0] == p[0] && (p + q)[1..] == p[1..] + q;
      TransplantConcat(if p[0] == L then t.left else t.right, p[1..], q, s);
    }
  }

  /** The `Insert` loop: walk down by the same rule as `Insert` until the child
      to go to is nil, and hang a new node there. It builds what the recursive
      `Insert` builds. */
  method InsertLoop(t: Tree, x: int) returns (r: Tree)
    ensures r == Insert(t, x)
  {
    var cur := t;
    var p: Path := [];
    while cur.Node?
      invariant cur == Subtree(t, p)
      invariant Insert(t, x) == Transplant(t, p, Insert(cur, x))
      decreases cur
    {
      var d := if Compare(cur.val, x) == 1 then L else R;
      InsertStep(t, p, x, d);
      p := p + [d];
      cur := Child(cur, d);
    }
    r := Transplant(t, p, Node(Nil, x, Nil));
  }

  /** One step of the `Insert` loop, seen from the root. */
  lemma InsertStep(t: Tree, p: Path, x: int, d: Dir)
    requires Subtree(t, p).Node?
    requires d == if Compare(Subtree(t, p).val, x) == 1 then L else R
    ensures Subtree(t, p + [d]) == Child(Subtree(t, p), d)
    ensures Transplant(t, p, Insert(Subtree(t, p), x))
         == Transplant(t, p + [d], Insert(Subtree(t, p + [d]), x))
  {
    var cur := Subtree(t, p);
    SubtreeStep(t, p, d);
    var next := Child(cur, d);
    assert Insert(cur, x) == Transplant(cur, [d], Insert(next, x));
    TransplantConcat(t, p, [d], Insert(next, x));
  }
}
