/** Copying a binary search tree by re-inserting its breadth-first listing, the
    way `Copy` in structures/bstree.go and structures/bst.go does: every value
    reaches the copy before the values below it, so the descent rule of
    `Insert` puts it back in the place it came from. */
module LevelRebuild {
  import opened BinaryTrees
  import opened Levels
  import opened Order
  import Flatten

  /** The shape the descent rule of `Insert` builds: everything on the left is
      smaller than the node, everything on the right at least as large. */
  ghost predicate Shaped(t: Tree) {
    match t
    case Nil => true
    case Node(l, v, r) =>
      Shaped(l) && Shaped(r) && (forall x | x in Elems(l) :: x < v) && (forall x | x in Elems(r) :: v <= x)
  }

  /** A search tree whose values are all different has the shape `Insert`
      builds: a value equal to the node's could only sit on the left. */
  lemma {:induction false} DistinctOrderedShaped(t: Tree)
    requires Ordered(t) && NoDuplicates(Elems(t))
    ensures Shaped(t)
  {
    match t
    case Nil =>
    case Node(l, v, r) =>
      ElemsNode(l, v, r);
      DistinctParts(Elems(l), v, Elems(r));
      DistinctOrderedShaped(l);
      DistinctOrderedShaped(r);
  }

  /** The parts of a multiset without repeats have none, and share no value. */
  lemma DistinctParts(a: multiset<int>, v: int, b: multiset<int>)
    requires NoDuplicates(a + multiset{v} + b)
    ensures NoDuplicates(a) && NoDuplicates(b) && v !in a
  {
    var m := a + multiset{v} + b;
    forall y | y in a ensures a[y] == 1 {
      assert m[y] == a[y] + multiset{v}[y] + b[y];
    }
    forall y | y in b ensures b[y] == 1 {
      assert m[y] == a[y] + multiset{v}[y] + b[y];
    }
    assert m[v] == a[v] + 1 + b[v];
  }

  /** The values `Insert` sends to the left of a node holding `v`, in order. */
  function Below(s: seq<int>, v: int): seq<int>
    decreases |s|
  {
    if s == [] then [] else (if Compare(v, s[0]) == 1 then [s[0]] else []) + Below(s[1..], v)
  }

  /** The values `Insert` sends to the right of a node holding `v`, in order. */
  function AtLeast(s: seq<int>, v: int): seq<int>
    decreases |s|
  {
    if s == [] then [] else (if Compare(v, s[0]) == 1 then [] else [s[0]]) + AtLeast(s[1..], v)
  }

  /** Every value of `s` is smaller than `v`. */
  ghost predicate AllBelow(s: seq<int>, v: int) {
    forall i | 0 <= i < |s| :: s[i] < v
  }

  /** Every value of `s` is at least `v`. */
  ghost predicate AllFrom(s: seq<int>, v: int) {
    forall i | 0 <= i < |s| :: v <= s[i]
  }

  lemma InsertAllCons(t: Tree, x: int, s: seq<int>)
    ensures InsertAll(t, [x] + s) == InsertAll(Insert(t, x), s)
  {
    assert ([x] + s)[1..] == s;
  }

  lemma BelowCons(x: int, s: seq<int>, v: int)
    ensures Below([x] + s, v) == (if Compare(v, x) == 1 then [x] else []) + Below(s, v)
    ensures AtLeast([x] + s, v) == (if Compare(v, x) == 1 then [] else [x]) + AtLeast(s, v)
  {
    assert ([x] + s)[1..] == s;
  }

  /** Inserting a sequence below an existing root sends each value down its side
      of the root, keeping the order within each side. */
  lemma {:induction false} InsertAllBelowRoot(l: Tree, v: int, r: Tree, s: seq<int>)
    ensures InsertAll(Node(l, v, r), s) == Node(InsertAll(l, Below(s, v)), v, InsertAll(r, AtLeast(s, v)))
    decreases |s|
  {
    if s != [] {
      var x, s' := s[0], s[1..];
      assert s == [x] + s';
      if Compare(v, x) == 1 {
        InsertAllBelowRoot(Insert(l, x), v, r, s');
        GoesLeft(l, v, r, x, s');
      } else {
        InsertAllBelowRoot(l, v, Insert(r, x), s');
        GoesRight(l, v, r, x, s');
      }
    }
  }

  lemma GoesLeft(l: Tree, v: int, r: Tree, x: int, s: seq<int>)
    requires Compare(v, x) == 1
    requires InsertAll(Node(Insert(l, x), v, r), s)
          == Node(InsertAll(Insert(l, x), Below(s, v)), v, InsertAll(r, AtLeast(s, v)))
    ensures InsertAll(Node(l, v, r), [x] + s)
         == Node(InsertAll(l, Below([x] + s, v)), v, InsertAll(r, AtLeast([x] + s, v)))
  {
    var b, a := Below(s, v), AtLeast(s, v);
    calc {
      InsertAll(Node(l, v, r), [x] + s);
      { InsertAllCons(Node(l, v, r), x, s); }
      InsertAll(Insert(Node(l, v, r), x), s);
      InsertAll(Node(Insert(l, x), v, r), s);
      Node(InsertAll(Insert(l, x), b), v, InsertAll(r, a));
      { InsertAllCons(l, x, b); }
      Node(InsertAll(l, [x] + b), v, InsertAll(r, a));
      { BelowCons(x, s, v);
        var b', a' := Below([x] + s, v), AtLeast([x] + s, v);
        assert b' == [x] + b && a' == a; }
      Node(InsertAll(l, Below([x] + s, v)), v, InsertAll(r, AtLeast([x] + s, v)));
    }
  }

  lemma GoesRight(l: Tree, v: int, r: Tree, x: int, s: seq<int>)
    requires Compare(v, x) != 1
    requires InsertAll(Node(l, v, Insert(r, x)), s)
          == Node(InsertAll(l, Below(s, v)), v, InsertAll(Insert(r, x), AtLeast(s, v)))
    ensures InsertAll(Node(l, v, r), [x] + s)
         == Node(InsertAll(l, Below([x] + s, v)), v, InsertAll(r, AtLeast([x] + s, v)))
  {
    var b, a := Below(s, v), AtLeast(s, v);
    calc {
      InsertAll(Node(l, v, r), [x] + s);
      { InsertAllCons(Node(l, v, r), x, s); }
      InsertAll(Insert(Node(l, v, r), x), s);
      InsertAll(Node(l, v, Insert(r, x)), s);
      Node(InsertAll(l, b), v, InsertAll(Insert(r, x), a));
      { InsertAllCons(r, x, a); }
      Node(InsertAll(l, b), v, InsertAll(r, [x] + a));
      { BelowCons(x, s, v);
        var b', a' := Below([x] + s, v), AtLeast([x] + s, v);
        assert b' == b && a' == [x] + a; }
      Node(InsertAll(l, Below([x] + s, v)), v, InsertAll(r, AtLeast([x] + s, v)));
    }
  }

  lemma {:induction false} FilterAppend(a: seq<int>, b: seq<int>, v: int)
    ensures Below(a + b, v) == Below(a, v) + Below(b, v)
    ensures AtLeast(a + b, v) == AtLeast(a, v) + AtLeast(b, v)
    decreases |a|
  {
    if a == [] {
      assert a + b == b;
    } else {
      var x, a' := a[0], a[1..];
      assert a == [x] + a' && a + b == [x] + (a' + b);
      BelowCons(x, a', v);
      BelowCons(x, a' + b, v);
      FilterAppend(a', b, v);
    }
  }

  lemma {:induction false} FilterSmaller(s: seq<int>, v: int)
    requires AllBelow(s, v)
    ensures Below(s, v) == s && AtLeast(s, v) == []
    decreases |s|
  {
    if s != [] {
      var x, s' := s[0], s[1..];
      assert s == [x] + s';
      assert AllBelow(s', v) by {
        assert forall i | 0 <= i < |s'| :: s'[i] == s[i + 1];
      }
      BelowCons(x, s', v);
      FilterSmaller(s', v);
    }
  }

  lemma {:induction false} FilterLarger(s: seq<int>, v: int)
    requires AllFrom(s, v)
    ensures Below(s, v) == [] && AtLeast(s, v) == s
    decreases |s|
  {
    if s != [] {
      var x, s' := s[0], s[1..];
      assert s == [x] + s';
      assert AllFrom(s', v) by {
        assert forall i | 0 <= i < |s'| :: s'[i] == s[i + 1];
      }
      BelowCons(x, s', v);
      FilterLarger(s', v);
    }
  }

  lemma BoundsSplit(a: seq<int>, b: seq<int>, v: int)
    ensures AllBelow(a + b, v) ==> AllBelow(a, v) && AllBelow(b, v)
    ensures AllFrom(a + b, v) ==> AllFrom(a, v) && AllFrom(b, v)
  {
    assert forall i | 0 <= i < |a| :: (a + b)[i] == a[i];
    assert forall i | 0 <= i < |b| :: (a + b)[|a| + i] == b[i];
  }

  /** The levels of a node's subtrees, read side by side, split back into the
      left subtree's values and the right subtree's. */
  lemma {:induction false} FilterZip(a: seq<seq<int>>, b: seq<seq<int>>, v: int)
    requires |a| == |b|
    requires AllBelow(Flatten.Concat(a), v) && AllFrom(Flatten.Concat(b), v)
    ensures Below(Flatten.Concat(Zip(a, b)), v) == Flatten.Concat(a)
    ensures AtLeast(Flatten.Concat(Zip(a, b)), v) == Flatten.Concat(b)
    decreases |a|
  {
    if a != [] {
      BoundsSplit(a[0], Flatten.Concat(a[1..]), v);
      BoundsSplit(b[0], Flatten.Concat(b[1..]), v);
      FilterZip(a[1..], b[1..], v);
      FilterZipStep(a, b, v);
    }
  }

  /** The step of `FilterZip`: the first level of each side, then the rest. */
  lemma FilterZipStep(a: seq<seq<int>>, b: seq<seq<int>>, v: int)
    requires |a| == |b| && a != []
    requires AllBelow(a[0], v) && AllFrom(b[0], v)
    requires Below(Flatten.Concat(Zip(a[1..], b[1..])), v) == Flatten.Concat(a[1..])
    requires AtLeast(Flatten.Concat(Zip(a[1..], b[1..])), v) == Flatten.Concat(b[1..])
    ensures Below(Flatten.Concat(Zip(a, b)), v) == Flatten.Concat(a)
    ensures AtLeast(Flatten.Concat(Zip(a, b)), v) == Flatten.Concat(b)
  {
    var z := Zip(a, b);
    assert z[1..] == Zip(a[1..], b[1..]);
    FilterJoin(a[0], b[0], Flatten.Concat(z[1..]), Flatten.Concat(a[1..]), Flatten.Concat(b[1..]), v);
  }

  /** One level of each side in front of the rest, split back apart. */
  lemma FilterJoin(a0: seq<int>, b0: seq<int>, rest: seq<int>, ra: seq<int>, rb: seq<int>, v: int)
    requires AllBelow(a0, v) && AllFrom(b0, v)
    requires Below(rest, v) == ra && AtLeast(rest, v) == rb
    ensures Below(a0 + b0 + rest, v) == a0 + ra
    ensures AtLeast(a0 + b0 + rest, v) == b0 + rb
  {
    FilterAppend(a0 + b0, rest, v);
    FilterAppend(a0, b0, v);
    FilterSmaller(a0, v);
    FilterLarger(b0, v);
    assert Below(a0 + b0, v) == a0 && AtLeast(a0 + b0, v) == b0;
  }

  /** A value smaller than a node goes left; anything else goes right, so the
      shape survives every insertion. */
  lemma {:induction false} InsertKeepsShape(t: Tree, x: int)
    requires Shaped(t)
    ensures Shaped(Insert(t, x))
  {
    match t
    case Nil =>
      assert Elems(Nil) == multiset{};
    case Node(l, v, r) =>
      if Compare(v, x) == 1 {
        InsertKeepsShape(l, x);
        var l' := Insert(l, x);
        assert Insert(t, x) == Node(l', v, r);
        AddBelow(Elems(l), x, Elems(l'), v);
      } else {
        InsertKeepsShape(r, x);
        var r' := Insert(r, x);
        assert Insert(t, x) == Node(l, v, r');
        AddAtLeast(Elems(r), x, Elems(r'), v);
      }
  }

  lemma AddBelow(m: multiset<int>, x: int, m': multiset<int>, v: int)
    requires (forall y | y in m :: y < v) && x < v && m' == m + multiset{x}
    ensures forall y | y in m' :: y < v
  {
  }

  lemma AddAtLeast(m: multiset<int>, x: int, m': multiset<int>, v: int)
    requires (forall y | y in m :: v <= y) && v <= x && m' == m + multiset{x}
    ensures forall y | y in m' :: v <= y
  {
  }

  lemma {:induction false} InsertAllKeepsShape(t: Tree, s: seq<int>)
    requires Shaped(t)
    ensures Shaped(InsertAll(t, s))
    decreases |s|
  {
    if s != [] {
      InsertKeepsShape(t, s[0]);
      InsertAllKeepsShape(Insert(t, s[0]), s[1..]);
    }
  }

  /** A shaped tree is a search tree. */
  lemma {:induction false} ShapedIsOrdered(t: Tree)
    requires Shaped(t)
    ensures Ordered(t)
  {
    match t
    case Nil =>
    case Node(l, _, r) =>
      ShapedIsOrdered(l);
      ShapedIsOrdered(r);
  }

  /** A shaped node's left levels hold only smaller values, its right levels only
      values at least as large. */
  lemma SideBounds(l: Tree, v: int, r: Tree, d: nat)
    requires Shaped(Node(l, v, r)) && Height(l) <= d && Height(r) <= d
    ensures AllBelow(Flatten.Concat(LevelsTo(l, d)), v)
    ensures AllFrom(Flatten.Concat(LevelsTo(r, d)), v)
  {
    var a, b := Flatten.Concat(LevelsTo(l, d)), Flatten.Concat(LevelsTo(r, d));
    LevelsHoldTree(l, d);
    LevelsHoldTree(r, d);
    forall i | 0 <= i < |a| ensures a[i] < v {
      assert a[i] in multiset(a);
    }
    forall i | 0 <= i < |b| ensures v <= b[i] {
      assert b[i] in multiset(b);
    }
  }

  /** The step of `LevelOrderRebuilds` at a node: the node's value comes first,
      and the rest of the listing splits into the two sides' listings. */
  lemma RebuildNode(l: Tree, v: int, r: Tree, d: nat)
    requires Shaped(Node(l, v, r)) && Height(l) <= d && Height(r) <= d
    requires InsertAll(Nil, Flatten.Concat(LevelsTo(l, d))) == l
    requires InsertAll(Nil, Flatten.Concat(LevelsTo(r, d))) == r
    ensures InsertAll(Nil, Flatten.Concat(LevelsTo(Node(l, v, r), d + 1))) == Node(l, v, r)
  {
    var la, lb := LevelsTo(l, d), LevelsTo(r, d);
    var rest := Flatten.Concat(Zip(la, lb));
    ListingOfNode(l, v, r, d);
    SideBounds(l, v, r, d);
    FilterZip(la, lb, v);
    InsertFirst(v, rest);
    InsertAllBelowRoot(Nil, v, Nil, rest);
  }

  /** The level-order listing below a node: the node, then its subtrees'
      levels side by side. */
  lemma ListingOfNode(l: Tree, v: int, r: Tree, d: nat)
    ensures Flatten.Concat(LevelsTo(Node(l, v, r), d + 1)) == [v] + Flatten.Concat(Zip(LevelsTo(l, d), LevelsTo(r, d)))
  {
    var z := Zip(LevelsTo(l, d), LevelsTo(r, d));
    LevelsOfNode(l, v, r, d);
    assert ([[v]] + z)[1..] == z;
  }

  /** The first value inserted into an empty tree becomes its root. */
  lemma InsertFirst(v: int, rest: seq<int>)
    ensures InsertAll(Nil, [v] + rest) == InsertAll(Node(Nil, v, Nil), rest)
  {
    assert ([v] + rest)[1..] == rest;
  }
}

/** The copy of a tree rebuilds it. */
module LevelCopy {
  import opened BinaryTrees
  import opened Levels
  import opened LevelRebuild
  import Flatten

  /** Re-inserting the level-order listing of a shaped tree into an empty tree
      rebuilds the very same tree: each node's value arrives before any value
      below it, and the descent rule sends it back to the same place. */
  lemma {:induction false} LevelOrderRebuilds(t: Tree, d: nat)
    requires Fits(t, d)
    ensures InsertAll(Nil, Flatten.Concat(LevelsTo(t, d))) == t
  {
    if t.Node? {
      FitsSides(t, d);
      LevelOrderRebuilds(t.left, d - 1);
      LevelOrderRebuilds(t.right, d - 1);
      RebuildStep(t, d);
    } else {
      RebuildNil(d);
    }
  }

  /** A shaped tree whose levels all lie below depth `d`. */
  ghost predicate Fits(t: Tree, d: nat) {
    Shaped(t) && Height(t) <= d
  }

  /** The subtrees of a fitting node fit one level less. */
  lemma FitsSides(t: Tree, d: nat)
    requires t.Node? && Fits(t, d)
    ensures d >= 1 && Fits(t.left, d - 1) && Fits(t.right, d - 1)
  {
  }

  /** The inductive step of `LevelOrderRebuilds`, from the two subtrees to the node. */
  lemma RebuildStep(t: Tree, d: nat)
    requires t.Node? && Fits(t, d) && d >= 1
    requires InsertAll(Nil, Flatten.Concat(LevelsTo(t.left, d - 1))) == t.left
    requires InsertAll(Nil, Flatten.Concat(LevelsTo(t.right, d - 1))) == t.right
    ensures InsertAll(Nil, Flatten.Concat(LevelsTo(t, d))) == t
  {
    RebuildNode(t.left, t.val, t.right, d - 1);
  }

  /** The empty tree lists nothing, and inserting nothing leaves it empty. */
  lemma RebuildNil(d: nat)
    ensures InsertAll(Nil, Flatten.Concat(LevelsTo(Nil, d))) == Nil
  {
    LevelsHoldTree(Nil, d);
    assert |Flatten.Concat(LevelsTo(Nil, d))| == 0;
  }
}
