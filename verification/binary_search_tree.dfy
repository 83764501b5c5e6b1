/** What structures/binary-search-tree.go adds to the shared tree model: the
    `insert` with its `safe` switch, `Rebuild` by medians, and the depth-first
    `Height`. Its walk, `Search`, `MaxSince`/`MinSince`, `Successor`/`Predecessor`,
    `transplant`, `DeleteNode` and `Delete` are the ones of `BinaryTrees`. */
module BinarySearchTree {
  import opened Order
  import opened BinaryTrees
  import opened Medians

  /** `insert(val, safe)`: the descent of every insert of the collection; with
      `safe` set, reaching a node that compares equal abandons the insert. A
      successful insert builds the same tree as the duplicate-allowing one; a
      safe insert fails exactly where `Search` succeeds. */
  function InsertChecked(t: Tree, x: int, safe: bool): (res: (Tree, bool))
    ensures !safe ==> res.1
    ensures safe ==> (res.1 <==> Search(t, x).None?)
    ensures res.1 ==> res.0 == BinaryTrees.Insert(t, x)
    ensures !res.1 ==> res.0 == t
  {
    match t
    case Nil => (Node(Nil, x, Nil), true)
    case Node(l, v, r) =>
      var c := Compare(v, x);
      if c == 1 then
        var sub := InsertChecked(l, x, safe);
        (Node(sub.0, v, r), sub.1)
      else if c == 0 && safe then
        (t, false)
      else
        var sub := InsertChecked(r, x, safe);
        (Node(l, v, sub.0), sub.1)
  }

  /** `Insert`: refuses, with the tree unchanged, a value that compares equal to
      one already stored; otherwise adds exactly one value. The order is kept. */
  function Insert(t: Tree, x: int): (res: (Tree, bool))
    ensures res.1 <==> Search(t, x).None?
    ensures Ordered(t) ==> (res.1 <==> x !in Elems(t))
    ensures !res.1 ==> res.0 == t
    ensures res.1 ==> Elems(res.0) == Elems(t) + multiset{x}
    ensures Ordered(t) ==> Ordered(res.0)
  {
    InsertChecked(t, x, true)
  }

  /** `UnsafeInsert`: always adds one more occurrence of the value, in the place
      the descent rule gives it. */
  function UnsafeInsert(t: Tree, x: int): (r: Tree)
    ensures Elems(r) == Elems(t) + multiset{x}
    ensures Ordered(t) ==> Ordered(r)
    ensures r == BinaryTrees.Insert(t, x)
  {
    InsertChecked(t, x, false).0
  }

  /** The values `Insert` accepts, one after another. Into an ordered tree this
      stores every value once; when no value repeats, it is the plain sequence of
      inserts. */
  function InsertAllSafe(t: Tree, s: seq<int>): (r: Tree)
    ensures t.Node? ==> r.Node? && r.val == t.val
    ensures Ordered(t) ==> Ordered(r)
    ensures Ordered(t) ==> forall y :: y in Elems(r) <==> y in Elems(t) || y in s
    ensures Ordered(t) && NoDuplicates(Elems(t)) ==> NoDuplicates(Elems(r))
    ensures Ordered(t) && NoDuplicates(Elems(t) + multiset(s)) ==> r == InsertAll(t, s)
    decreases |s|
  {
    if s == [] then
      t
    else
      var t1 := Insert(t, s[0]).0;
      InsertKeepsRoot(t, s[0]);
      InsertAllSafeStep(t, s);
      var r := InsertAllSafe(t1, s[1..]);
      MembersGlue(Ordered(t), Elems(t), Elems(t1), Elems(r), s);
      r
  }

  /** Membership through one insert and then the rest of the sequence. */
  lemma MembersGlue(c: bool, m: multiset<int>, m1: multiset<int>, m2: multiset<int>, s: seq<int>)
    requires s != []
    requires c ==> forall y :: y in m1 <==> y in m || y == s[0]
    requires c ==> forall y :: y in m2 <==> y in m1 || y in s[1..]
    ensures c ==> forall y :: y in m2 <==> y in m || y in s
  {
    assert s == [s[0]] + s[1..];
    forall y ensures y in s <==> y == s[0] || y in s[1..] {
    }
  }

  lemma InsertKeepsRoot(t: Tree, x: int)
    ensures t.Node? ==> Insert(t, x).0.Node? && Insert(t, x).0.val == t.val
  {
  }

  /** What one accepted-or-refused insert does to the invariants of `InsertAllSafe`. */
  lemma InsertAllSafeStep(t: Tree, s: seq<int>)
    requires s != []
    ensures var t1 := Insert(t, s[0]).0;
      && (Ordered(t) ==> forall y :: y in Elems(t1) <==> y in Elems(t) || y == s[0])
      && (Ordered(t) && NoDuplicates(Elems(t)) ==> NoDuplicates(Elems(t1)))
      && (Ordered(t) && NoDuplicates(Elems(t) + multiset(s)) ==>
            t1 == BinaryTrees.Insert(t, s[0])
            && NoDuplicates(Elems(t1) + multiset(s[1..]))
            && InsertAll(t, s) == InsertAll(t1, s[1..]))
  {
    var res := Insert(t, s[0]);
    StepKeepsSet(t, s[0], res);
    StepKeepsUnique(t, s[0], res);
    if Ordered(t) && NoDuplicates(Elems(t) + multiset(s)) {
      StepFresh(t, s, res);
    }
  }

  /** One safe insert stores the value once more, or leaves the tree as it was. */
  lemma StepKeepsSet(t: Tree, x: int, res: (Tree, bool))
    requires res == Insert(t, x)
    ensures Ordered(t) ==> forall y :: y in Elems(res.0) <==> y in Elems(t) || y == x
  {
    if Ordered(t) {
      if res.1 {
        AddMembers(Elems(t), x, Elems(res.0));
      } else {
        assert x in Elems(t) && res.0 == t;
      }
    }
  }

  lemma AddMembers(m: multiset<int>, x: int, m': multiset<int>)
    requires m' == m + multiset{x}
    ensures forall y :: y in m' <==> y in m || y == x
  {
  }

  /** A safe insert into a tree without repeated values adds no repeat. */
  lemma StepKeepsUnique(t: Tree, x: int, res: (Tree, bool))
    requires res == Insert(t, x)
    ensures Ordered(t) && NoDuplicates(Elems(t)) ==> NoDuplicates(Elems(res.0))
  {
    if Ordered(t) && NoDuplicates(Elems(t)) && res.1 {
      AddFresh(Elems(t), x, Elems(res.0));
    }
  }

  /** Adding a value not yet present to a multiset without repeats adds no repeat. */
  lemma AddFresh(m: multiset<int>, x: int, m': multiset<int>)
    requires NoDuplicates(m) && x !in m && m' == m + multiset{x}
    ensures NoDuplicates(m')
  {
    forall y | y in m' ensures m'[y] == 1 {
      if y != x {
        assert m'[y] == m[y];
      }
    }
  }

  /** A value not yet stored is accepted, and the rest stays free of repeats. */
  lemma StepFresh(t: Tree, s: seq<int>, res: (Tree, bool))
    requires s != [] && res == Insert(t, s[0])
    requires Ordered(t) && NoDuplicates(Elems(t) + multiset(s))
    ensures res.0 == BinaryTrees.Insert(t, s[0])
    ensures NoDuplicates(Elems(res.0) + multiset(s[1..]))
    ensures InsertAll(t, s) == InsertAll(res.0, s[1..])
  {
    HeadFresh(Elems(t), s);
    FreshAccepted(t, s[0], res);
    InsertAllHead(t, s);
  }

  /** In a multiset without repeats, the first value of the added sequence was not there before. */
  lemma HeadFresh(m: multiset<int>, s: seq<int>)
    requires s != [] && NoDuplicates(m + multiset(s))
    ensures s[0] !in m
    ensures NoDuplicates(m + multiset{s[0]} + multiset(s[1..]))
  {
    var all := m + multiset(s);
    assert s[0] in multiset(s);
    OnceIn(all, s[0]);
    assert s == [s[0]] + s[1..];
    assert all == m + multiset{s[0]} + multiset(s[1..]);
  }

  lemma OnceIn(m: multiset<int>, y: int)
    requires NoDuplicates(m) && y in m
    ensures m[y] == 1
  {
  }

  /** `Insert` accepts a value an ordered tree does not hold, as the plain insert. */
  lemma FreshAccepted(t: Tree, x: int, res: (Tree, bool))
    requires res == Insert(t, x) && Ordered(t) && x !in Elems(t)
    ensures res.0 == BinaryTrees.Insert(t, x)
    ensures Elems(res.0) == Elems(t) + multiset{x}
  {
  }

  /** `InsertAll` inserts the head first. */
  lemma InsertAllHead(t: Tree, s: seq<int>)
    requires s != []
    ensures InsertAll(t, s) == InsertAll(BinaryTrees.Insert(t, s[0]), s[1..])
  {
  }

  /** `Rebuild`: the values of the walk, medians first, into a fresh tree with
      `Insert`. The result is ordered, holds each stored value once, has the
      median of the walk at its root, and for an ordered tree without repeated
      values it has the same walk. */
  function Rebuild(t: Tree): (r: Tree)
    ensures Ordered(r)
    ensures forall y :: y in Elems(r) <==> y in Elems(t)
    ensures NoDuplicates(Elems(r))
    ensures t.Node? ==> r.Node? && r.val == Median(InOrder(t))
    ensures Ordered(t) && NoDuplicates(Elems(t)) ==> InOrder(r) == InOrder(t)
  {
    var values := InOrder(t);
    var order := Rearrange(values, 0, |values| - 1);
    assert values[0..|values|] == values;
    var r := InsertAllSafe(Nil, order);
    RebuildKeepsWalk(t, order, r);
    RearrangeHead(values);
    if values != [] then
      FirstBecomesRoot(order);
      r
    else
      r
  }

  /** The first value inserted into an empty tree stays at its root. */
  lemma FirstBecomesRoot(s: seq<int>)
    requires s != []
    ensures InsertAllSafe(Nil, s).Node? && InsertAllSafe(Nil, s).val == s[0]
  {
    assert Insert(Nil, s[0]).0 == Node(Nil, s[0], Nil);
  }

  lemma RebuildKeepsWalk(t: Tree, order: seq<int>, r: Tree)
    requires multiset(order) == Elems(t) && r == InsertAllSafe(Nil, order)
    ensures Ordered(t) && NoDuplicates(Elems(t)) ==> InOrder(r) == InOrder(t)
  {
    if Ordered(t) && NoDuplicates(Elems(t)) {
      assert Elems(Nil) + multiset(order) == Elems(t);
      assert r == InsertAll(Nil, order);
      OrderedIffSorted(t);
      OrderedIffSorted(r);
      SortedUnique(InOrder(r), InOrder(t));
    }
  }

  /** `Height`: the depth-first count of the nodes on the longest root-to-leaf
      path; no node lies deeper, and some node lies exactly that deep. */
  function Height(t: Tree): (h: nat)
    ensures h == BinaryTrees.Height(t)
    ensures forall p | ValidPath(t, p) :: |p| < h
    ensures t.Node? ==> exists p | ValidPath(t, p) :: |p| + 1 == h
  {
    HeightBounds(t);
    HeightDfs(t, 0, 0)
  }

  lemma HeightBounds(t: Tree)
    ensures forall p | ValidPath(t, p) :: |p| < BinaryTrees.Height(t)
    ensures t.Node? ==> exists p | ValidPath(t, p) :: |p| + 1 == BinaryTrees.Height(t)
  {
    forall p | ValidPath(t, p) ensures |p| < BinaryTrees.Height(t) {
      PathShorterThanHeight(t, p);
    }
    if t.Node? {
      var p := DeepestPath(t);
    }
  }
}
