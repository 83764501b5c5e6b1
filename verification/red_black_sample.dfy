/** The sample run of tests/red-black-tree_test.go: the values 16, 3, 7, 11, 9,
    26, 18, 14 and 15 inserted into a new tree, followed insertion by insertion
    through the cases of `insertFixup`. */
module RedBlackSample {
  import opened Options
  import opened Order
  import opened BinaryTrees
  import opened RedBlackTrees
  import opened RedBlackInsert
  import RedBlackDelete

  function Bk(l: RBTree, v: int, r: RBTree): RBTree { RNode(Black, l, v, r) }
  function Rd(l: RBTree, v: int, r: RBTree): RBTree { RNode(Red, l, v, r) }
  function BkLeaf(v: int): RBTree { Bk(Leaf, v, Leaf) }
  function RdLeaf(v: int): RBTree { Rd(Leaf, v, Leaf) }

  // The tree after each insertion.
  function T1(): RBTree { BkLeaf(16) }
  function T2(): RBTree { Bk(RdLeaf(3), 16, Leaf) }
  function T3(): RBTree { Bk(RdLeaf(3), 7, RdLeaf(16)) }
  function T4(): RBTree { Bk(BkLeaf(3), 7, Bk(RdLeaf(11), 16, Leaf)) }
  function T5(): RBTree { Bk(BkLeaf(3), 7, Bk(RdLeaf(9), 11, RdLeaf(16))) }
  function T6(): RBTree { Bk(BkLeaf(3), 7, Rd(BkLeaf(9), 11, Bk(Leaf, 16, RdLeaf(26)))) }
  function T7(): RBTree { Bk(BkLeaf(3), 7, Rd(BkLeaf(9), 11, Bk(RdLeaf(16), 18, RdLeaf(26)))) }
  function T8(): RBTree { Bk(Rd(BkLeaf(3), 7, BkLeaf(9)), 11, Rd(Bk(RdLeaf(14), 16, Leaf), 18, BkLeaf(26))) }
  function T9(): RBTree { Bk(Rd(BkLeaf(3), 7, BkLeaf(9)), 11, Rd(Bk(RdLeaf(14), 15, RdLeaf(16)), 18, BkLeaf(26))) }

  // ---------------------------------------------------------------------------
  // One step of the descent and of the repair at a time

  lemma AttachLeft(col: Color, l: RBTree, v: int, r: RBTree, x: int, c: seq<Frame>)
    requires v > x && Attach(l, x, true) == Some(c)
    ensures Attach(RNode(col, l, v, r), x, true) == Some(c + [Frame(L, col, v, r)])
  {
  }

  lemma AttachRight(col: Color, l: RBTree, v: int, r: RBTree, x: int, c: seq<Frame>)
    requires v < x && Attach(r, x, true) == Some(c)
    ensures Attach(RNode(col, l, v, r), x, true) == Some(c + [Frame(R, col, v, l)])
  {
  }

  /** The same, for a tree and a context already named. */
  lemma AttachLeftAt(t: RBTree, col: Color, l: RBTree, v: int, r: RBTree, x: int, c: seq<Frame>, c': seq<Frame>)
    requires t == RNode(col, l, v, r) && c' == c + [Frame(L, col, v, r)]
    requires v > x && Attach(l, x, true) == Some(c)
    ensures Attach(t, x, true) == Some(c')
  {
    AttachLeft(col, l, v, r, x, c);
  }

  lemma AttachRightAt(t: RBTree, col: Color, l: RBTree, v: int, r: RBTree, x: int, c: seq<Frame>, c': seq<Frame>)
    requires t == RNode(col, l, v, r) && c' == c + [Frame(R, col, v, l)]
    requires v < x && Attach(r, x, true) == Some(c)
    ensures Attach(t, x, true) == Some(c')
  {
    AttachRight(col, l, v, r, x, c);
  }

  lemma InsertVia(t: RBTree, x: int, ctx: seq<Frame>, r: RBTree)
    requires !IsRed(t) && RootBlack(ctx)
    requires Attach(t, x, true) == Some(ctx) && InsertFixup(RdLeaf(x), ctx) == r
    ensures RedBlackInsert.Insert(t, x) == (r, true)
  {
  }

  lemma FixupBlackParent(z: RBTree, f: Frame, rest: seq<Frame>)
    requires f.color == Black && RootBlack([f] + rest)
    ensures InsertFixup(z, [f] + rest) == Paint(Plug(Up(z, f), rest), Black)
  {
    assert ([f] + rest)[1..] == rest;
  }

  lemma FixupRecolor(z: RBTree, p: Frame, g: Frame, rest: seq<Frame>)
    requires p.color == Red && IsRed(g.sibling) && RootBlack([p, g] + rest)
    ensures RootBlack(rest)
    ensures InsertFixup(z, [p, g] + rest) == InsertFixup(Recolor(z, p, g), rest)
  {
    assert ([p, g] + rest)[2..] == rest;
  }

  lemma FixupRestructure(z: RBTree, p: Frame, g: Frame, rest: seq<Frame>)
    requires p.color == Red && !IsRed(g.sibling) && RootBlack([p, g] + rest)
    ensures InsertFixup(z, [p, g] + rest) == Paint(Plug(Restructure(z, p, g), rest), Black)
  {
    assert ([p, g] + rest)[2..] == rest;
  }

  lemma FixupRestructureAt(z: RBTree, p: Frame, g: Frame, rest: seq<Frame>, ctx: seq<Frame>, r: RBTree)
    requires ctx == [p, g] + rest && p.color == Red && !IsRed(g.sibling) && RootBlack(ctx)
    requires Paint(Plug(Restructure(z, p, g), rest), Black) == r
    ensures InsertFixup(z, ctx) == r
  {
    FixupRestructure(z, p, g, rest);
  }

  lemma PlugOne(z: RBTree, f: Frame)
    ensures Plug(z, [f]) == Up(z, f)
  {
    assert [f][1..] == [];
  }

  lemma PlugTwo(z: RBTree, f: Frame, g: Frame)
    ensures Plug(z, [f, g]) == Up(Up(z, f), g)
  {
    assert [f, g][1..] == [g];
    PlugOne(Up(z, f), g);
  }

  // ---------------------------------------------------------------------------
  // The nine insertions

  lemma Insert1()
    ensures RedBlackInsert.Insert(Leaf, 16) == (T1(), true)
  {
    assert Attach(Leaf, 16, true) == Some([]);
    InsertVia(Leaf, 16, [], T1());
  }

  lemma Insert2()
    ensures RedBlackInsert.Insert(T1(), 3) == (T2(), true)
  {
    var f := Frame(L, Black, 16, Leaf);
    AttachLeft(Black, Leaf, 16, Leaf, 3, []);
    assert [] + [f] == [f] == [f] + [];
    FixupBlackParent(RdLeaf(3), f, []);
    InsertVia(T1(), 3, [f], T2());
  }

  lemma Attach3()
    ensures Attach(T2(), 7, true) == Some([Frame(R, Red, 3, Leaf), Frame(L, Black, 16, Leaf)])
  {
    var p, g := Frame(R, Red, 3, Leaf), Frame(L, Black, 16, Leaf);
    AttachRight(Red, Leaf, 3, Leaf, 7, []);
    assert [] + [p] == [p];
    AttachLeft(Black, RdLeaf(3), 16, Leaf, 7, [p]);
    assert [p] + [g] == [p, g];
  }

  lemma Fixup3()
    ensures InsertFixup(RdLeaf(7), [Frame(R, Red, 3, Leaf), Frame(L, Black, 16, Leaf)]) == T3()
  {
    var p, g := Frame(R, Red, 3, Leaf), Frame(L, Black, 16, Leaf);
    assert [p, g] == [p, g] + [];
    FixupRestructure(RdLeaf(7), p, g, []);
    assert Restructure(RdLeaf(7), p, g) == T3();
  }

  lemma Insert3()
    ensures RedBlackInsert.Insert(T2(), 7) == (T3(), true)
  {
    Attach3();
    Fixup3();
    InsertVia(T2(), 7, [Frame(R, Red, 3, Leaf), Frame(L, Black, 16, Leaf)], T3());
  }

  lemma Attach4()
    ensures Attach(T3(), 11, true) == Some([Frame(L, Red, 16, Leaf), Frame(R, Black, 7, RdLeaf(3))])
  {
    var p, g := Frame(L, Red, 16, Leaf), Frame(R, Black, 7, RdLeaf(3));
    AttachLeft(Red, Leaf, 16, Leaf, 11, []);
    assert [] + [p] == [p];
    AttachRight(Black, RdLeaf(3), 7, RdLeaf(16), 11, [p]);
    assert [p] + [g] == [p, g];
  }

  lemma Fixup4()
    ensures InsertFixup(RdLeaf(11), [Frame(L, Red, 16, Leaf), Frame(R, Black, 7, RdLeaf(3))]) == T4()
  {
    var p, g := Frame(L, Red, 16, Leaf), Frame(R, Black, 7, RdLeaf(3));
    assert [p, g] == [p, g] + [];
    FixupRecolor(RdLeaf(11), p, g, []);
    var z := Recolor(RdLeaf(11), p, g);
    assert z == Rd(BkLeaf(3), 7, Bk(RdLeaf(11), 16, Leaf));
    assert InsertFixup(z, []) == T4();
  }

  lemma Insert4()
    ensures RedBlackInsert.Insert(T3(), 11) == (T4(), true)
  {
    Attach4();
    Fixup4();
    InsertVia(T3(), 11, [Frame(L, Red, 16, Leaf), Frame(R, Black, 7, RdLeaf(3))], T4());
  }

  function Ctx5(): seq<Frame> {
    [Frame(L, Red, 11, Leaf), Frame(L, Black, 16, Leaf), Frame(R, Black, 7, BkLeaf(3))]
  }

  lemma Attach5Inner()
    ensures Attach(Bk(RdLeaf(11), 16, Leaf), 9, true) == Some([Frame(L, Red, 11, Leaf), Frame(L, Black, 16, Leaf)])
  {
    var f0, f1 := Frame(L, Red, 11, Leaf), Frame(L, Black, 16, Leaf);
    AttachLeft(Red, Leaf, 11, Leaf, 9, []);
    assert [] + [f0] == [f0];
    AttachLeftAt(Bk(RdLeaf(11), 16, Leaf), Black, RdLeaf(11), 16, Leaf, 9, [f0], [f0, f1]);
  }

  lemma Attach5()
    ensures Attach(T4(), 9, true) == Some(Ctx5())
  {
    var f0, f1, f2 := Frame(L, Red, 11, Leaf), Frame(L, Black, 16, Leaf), Frame(R, Black, 7, BkLeaf(3));
    Attach5Inner();
    assert [f0, f1] + [f2] == Ctx5();
    AttachRightAt(T4(), Black, BkLeaf(3), 7, Bk(RdLeaf(11), 16, Leaf), 9, [f0, f1], Ctx5());
  }

  lemma Fixup5()
    ensures InsertFixup(RdLeaf(9), Ctx5()) == T5()
  {
    var f0, f1, f2 := Frame(L, Red, 11, Leaf), Frame(L, Black, 16, Leaf), Frame(R, Black, 7, BkLeaf(3));
    assert Ctx5() == [f0, f1] + [f2];
    FixupRestructure(RdLeaf(9), f0, f1, [f2]);
    var z := Restructure(RdLeaf(9), f0, f1);
    assert z == Bk(RdLeaf(9), 11, RdLeaf(16));
    PlugOne(z, f2);
  }

  lemma Insert5()
    ensures RedBlackInsert.Insert(T4(), 9) == (T5(), true)
  {
    Attach5();
    Fixup5();
    InsertVia(T4(), 9, Ctx5(), T5());
  }

  function Ctx6(): seq<Frame> {
    [Frame(R, Red, 16, Leaf), Frame(R, Black, 11, RdLeaf(9)), Frame(R, Black, 7, BkLeaf(3))]
  }

  lemma Attach6Inner()
    ensures Attach(Bk(RdLeaf(9), 11, RdLeaf(16)), 26, true) == Some([Frame(R, Red, 16, Leaf), Frame(R, Black, 11, RdLeaf(9))])
  {
    var f0, f1 := Frame(R, Red, 16, Leaf), Frame(R, Black, 11, RdLeaf(9));
    AttachRight(Red, Leaf, 16, Leaf, 26, []);
    assert [] + [f0] == [f0];
    AttachRightAt(Bk(RdLeaf(9), 11, RdLeaf(16)), Black, RdLeaf(9), 11, RdLeaf(16), 26, [f0], [f0, f1]);
  }

  lemma Attach6()
    ensures Attach(T5(), 26, true) == Some(Ctx6())
  {
    var f0, f1, f2 := Frame(R, Red, 16, Leaf), Frame(R, Black, 11, RdLeaf(9)), Frame(R, Black, 7, BkLeaf(3));
    Attach6Inner();
    assert [f0, f1] + [f2] == Ctx6();
    AttachRightAt(T5(), Black, BkLeaf(3), 7, Bk(RdLeaf(9), 11, RdLeaf(16)), 26, [f0, f1], Ctx6());
  }

  lemma Fixup6Recolor()
    ensures InsertFixup(RdLeaf(26), Ctx6()) ==
      InsertFixup(Rd(BkLeaf(9), 11, Bk(Leaf, 16, RdLeaf(26))), [Frame(R, Black, 7, BkLeaf(3))])
  {
    var f0, f1, f2 := Frame(R, Red, 16, Leaf), Frame(R, Black, 11, RdLeaf(9)), Frame(R, Black, 7, BkLeaf(3));
    assert Ctx6() == [f0, f1] + [f2];
    FixupRecolor(RdLeaf(26), f0, f1, [f2]);
    assert Recolor(RdLeaf(26), f0, f1) == Rd(BkLeaf(9), 11, Bk(Leaf, 16, RdLeaf(26)));
  }

  lemma Fixup6()
    ensures InsertFixup(RdLeaf(26), Ctx6()) == T6()
  {
    var f2 := Frame(R, Black, 7, BkLeaf(3));
    Fixup6Recolor();
    assert [f2] == [f2] + [];
    FixupBlackParent(Rd(BkLeaf(9), 11, Bk(Leaf, 16, RdLeaf(26))), f2, []);
  }

  lemma Insert6()
    ensures RedBlackInsert.Insert(T5(), 26) == (T6(), true)
  {
    Attach6();
    Fixup6();
    InsertVia(T5(), 26, Ctx6(), T6());
  }

  function Ctx7(): seq<Frame> {
    [Frame(L, Red, 26, Leaf), Frame(R, Black, 16, Leaf), Frame(R, Red, 11, BkLeaf(9)), Frame(R, Black, 7, BkLeaf(3))]
  }

  lemma Attach7Inner()
    ensures Attach(Bk(Leaf, 16, RdLeaf(26)), 18, true) == Some([Frame(L, Red, 26, Leaf), Frame(R, Black, 16, Leaf)])
  {
    var f0, f1 := Frame(L, Red, 26, Leaf), Frame(R, Black, 16, Leaf);
    AttachLeft(Red, Leaf, 26, Leaf, 18, []);
    assert [] + [f0] == [f0];
    AttachRight(Black, Leaf, 16, RdLeaf(26), 18, [f0]);
    assert [f0] + [f1] == [f0, f1];
  }

  lemma Attach7Mid()
    ensures Attach(Rd(BkLeaf(9), 11, Bk(Leaf, 16, RdLeaf(26))), 18, true) ==
      Some([Frame(L, Red, 26, Leaf), Frame(R, Black, 16, Leaf), Frame(R, Red, 11, BkLeaf(9))])
  {
    var f0, f1, f2 := Frame(L, Red, 26, Leaf), Frame(R, Black, 16, Leaf), Frame(R, Red, 11, BkLeaf(9));
    Attach7Inner();
    assert [f0, f1] + [f2] == [f0, f1, f2];
    AttachRightAt(Rd(BkLeaf(9), 11, Bk(Leaf, 16, RdLeaf(26))), Red, BkLeaf(9), 11, Bk(Leaf, 16, RdLeaf(26)), 18, [f0, f1], [f0, f1, f2]);
  }

  lemma Attach7()
    ensures Attach(T6(), 18, true) == Some(Ctx7())
  {
    var f0, f1, f2 := Frame(L, Red, 26, Leaf), Frame(R, Black, 16, Leaf), Frame(R, Red, 11, BkLeaf(9));
    var f3 := Frame(R, Black, 7, BkLeaf(3));
    Attach7Mid();
    assert [f0, f1, f2] + [f3] == Ctx7();
    AttachRightAt(T6(), Black, BkLeaf(3), 7, Rd(BkLeaf(9), 11, Bk(Leaf, 16, RdLeaf(26))), 18, [f0, f1, f2], Ctx7());
  }

  lemma Fixup7()
    ensures InsertFixup(RdLeaf(18), Ctx7()) == T7()
  {
    var f0, f1 := Frame(L, Red, 26, Leaf), Frame(R, Black, 16, Leaf);
    var f2, f3 := Frame(R, Red, 11, BkLeaf(9)), Frame(R, Black, 7, BkLeaf(3));
    assert Ctx7() == [f0, f1] + [f2, f3];
    FixupRestructure(RdLeaf(18), f0, f1, [f2, f3]);
    var z := Restructure(RdLeaf(18), f0, f1);
    assert z == Bk(RdLeaf(16), 18, RdLeaf(26));
    PlugTwo(z, f2, f3);
  }

  lemma Insert7()
    ensures RedBlackInsert.Insert(T6(), 18) == (T7(), true)
  {
    Attach7();
    Fixup7();
    InsertVia(T6(), 18, Ctx7(), T7());
  }

  function Ctx8(): seq<Frame> {
    [Frame(L, Red, 16, Leaf), Frame(L, Black, 18, RdLeaf(26)), Frame(R, Red, 11, BkLeaf(9)), Frame(R, Black, 7, BkLeaf(3))]
  }

  lemma Attach8Inner()
    ensures Attach(Bk(RdLeaf(16), 18, RdLeaf(26)), 14, true) == Some([Frame(L, Red, 16, Leaf), Frame(L, Black, 18, RdLeaf(26))])
  {
    var f0, f1 := Frame(L, Red, 16, Leaf), Frame(L, Black, 18, RdLeaf(26));
    AttachLeft(Red, Leaf, 16, Leaf, 14, []);
    assert [] + [f0] == [f0];
    AttachLeft(Black, RdLeaf(16), 18, RdLeaf(26), 14, [f0]);
    assert [f0] + [f1] == [f0, f1];
  }

  lemma Attach8Mid()
    ensures Attach(Rd(BkLeaf(9), 11, Bk(RdLeaf(16), 18, RdLeaf(26))), 14, true) ==
      Some([Frame(L, Red, 16, Leaf), Frame(L, Black, 18, RdLeaf(26)), Frame(R, Red, 11, BkLeaf(9))])
  {
    var f0, f1, f2 := Frame(L, Red, 16, Leaf), Frame(L, Black, 18, RdLeaf(26)), Frame(R, Red, 11, BkLeaf(9));
    Attach8Inner();
    assert [f0, f1] + [f2] == [f0, f1, f2];
    AttachRightAt(Rd(BkLeaf(9), 11, Bk(RdLeaf(16), 18, RdLeaf(26))), Red, BkLeaf(9), 11, Bk(RdLeaf(16), 18, RdLeaf(26)), 14, [f0, f1], [f0, f1, f2]);
  }

  lemma Attach8()
    ensures Attach(T7(), 14, true) == Some(Ctx8())
  {
    var f0, f1, f2 := Frame(L, Red, 16, Leaf), Frame(L, Black, 18, RdLeaf(26)), Frame(R, Red, 11, BkLeaf(9));
    var f3 := Frame(R, Black, 7, BkLeaf(3));
    Attach8Mid();
    assert [f0, f1, f2] + [f3] == Ctx8();
    AttachRightAt(T7(), Black, BkLeaf(3), 7, Rd(BkLeaf(9), 11, Bk(RdLeaf(16), 18, RdLeaf(26))), 14, [f0, f1, f2], Ctx8());
  }

  lemma Fixup8Recolor()
    ensures InsertFixup(RdLeaf(14), Ctx8()) ==
      InsertFixup(Rd(Bk(RdLeaf(14), 16, Leaf), 18, BkLeaf(26)), [Frame(R, Red, 11, BkLeaf(9)), Frame(R, Black, 7, BkLeaf(3))])
  {
    var f0, f1 := Frame(L, Red, 16, Leaf), Frame(L, Black, 18, RdLeaf(26));
    var f2, f3 := Frame(R, Red, 11, BkLeaf(9)), Frame(R, Black, 7, BkLeaf(3));
    assert Ctx8() == [f0, f1] + [f2, f3];
    FixupRecolor(RdLeaf(14), f0, f1, [f2, f3]);
    assert Recolor(RdLeaf(14), f0, f1) == Rd(Bk(RdLeaf(14), 16, Leaf), 18, BkLeaf(26));
  }

  lemma Restructure8()
    ensures Restructure(Rd(Bk(RdLeaf(14), 16, Leaf), 18, BkLeaf(26)), Frame(R, Red, 11, BkLeaf(9)), Frame(R, Black, 7, BkLeaf(3))) == T8()
  {
  }

  lemma Fixup8Restructure()
    ensures InsertFixup(Rd(Bk(RdLeaf(14), 16, Leaf), 18, BkLeaf(26)), [Frame(R, Red, 11, BkLeaf(9)), Frame(R, Black, 7, BkLeaf(3))]) == T8()
  {
    var f2, f3 := Frame(R, Red, 11, BkLeaf(9)), Frame(R, Black, 7, BkLeaf(3));
    var z := Rd(Bk(RdLeaf(14), 16, Leaf), 18, BkLeaf(26));
    assert [f2, f3] == [f2, f3] + [];
    Restructure8();
    FixupRestructureAt(z, f2, f3, [], [f2, f3], T8());
  }

  lemma Fixup8()
    ensures InsertFixup(RdLeaf(14), Ctx8()) == T8()
  {
    Fixup8Recolor();
    Fixup8Restructure();
  }

  lemma Insert8()
    ensures RedBlackInsert.Insert(T7(), 14) == (T8(), true)
  {
    Attach8();
    Fixup8();
    InsertVia(T7(), 14, Ctx8(), T8());
  }

  function Ctx9(): seq<Frame> {
    [Frame(R, Red, 14, Leaf), Frame(L, Black, 16, Leaf), Frame(L, Red, 18, BkLeaf(26)),
     Frame(R, Black, 11, Rd(BkLeaf(3), 7, BkLeaf(9)))]
  }

  lemma Attach9Inner()
    ensures Attach(Bk(RdLeaf(14), 16, Leaf), 15, true) == Some([Frame(R, Red, 14, Leaf), Frame(L, Black, 16, Leaf)])
  {
    var f0, f1 := Frame(R, Red, 14, Leaf), Frame(L, Black, 16, Leaf);
    AttachRight(Red, Leaf, 14, Leaf, 15, []);
    assert [] + [f0] == [f0];
    AttachLeft(Black, RdLeaf(14), 16, Leaf, 15, [f0]);
    assert [f0] + [f1] == [f0, f1];
  }

  lemma Attach9Mid()
    ensures Attach(Rd(Bk(RdLeaf(14), 16, Leaf), 18, BkLeaf(26)), 15, true) ==
      Some([Frame(R, Red, 14, Leaf), Frame(L, Black, 16, Leaf), Frame(L, Red, 18, BkLeaf(26))])
  {
    var f0, f1, f2 := Frame(R, Red, 14, Leaf), Frame(L, Black, 16, Leaf), Frame(L, Red, 18, BkLeaf(26));
    Attach9Inner();
    assert [f0, f1] + [f2] == [f0, f1, f2];
    AttachLeftAt(Rd(Bk(RdLeaf(14), 16, Leaf), 18, BkLeaf(26)), Red, Bk(RdLeaf(14), 16, Leaf), 18, BkLeaf(26), 15, [f0, f1], [f0, f1, f2]);
  }

  lemma Attach9()
    ensures Attach(T8(), 15, true) == Some(Ctx9())
  {
    var f0, f1, f2 := Frame(R, Red, 14, Leaf), Frame(L, Black, 16, Leaf), Frame(L, Red, 18, BkLeaf(26));
    var f3 := Frame(R, Black, 11, Rd(BkLeaf(3), 7, BkLeaf(9)));
    Attach9Mid();
    assert [f0, f1, f2] + [f3] == Ctx9();
    AttachRightAt(T8(), Black, Rd(BkLeaf(3), 7, BkLeaf(9)), 11, Rd(Bk(RdLeaf(14), 16, Leaf), 18, BkLeaf(26)), 15, [f0, f1, f2], Ctx9());
  }

  lemma Fixup9()
    ensures InsertFixup(RdLeaf(15), Ctx9()) == T9()
  {
    var f0, f1 := Frame(R, Red, 14, Leaf), Frame(L, Black, 16, Leaf);
    var f2, f3 := Frame(L, Red, 18, BkLeaf(26)), Frame(R, Black, 11, Rd(BkLeaf(3), 7, BkLeaf(9)));
    assert Ctx9() == [f0, f1] + [f2, f3];
    FixupRestructure(RdLeaf(15), f0, f1, [f2, f3]);
    var z := Restructure(RdLeaf(15), f0, f1);
    assert z == Bk(RdLeaf(14), 15, RdLeaf(16));
    PlugTwo(z, f2, f3);
  }

  lemma Insert9()
    ensures RedBlackInsert.Insert(T8(), 15) == (T9(), true)
  {
    Attach9();
    Fixup9();
    InsertVia(T8(), 15, Ctx9(), T9());
  }

  // ---------------------------------------------------------------------------
  // The whole run

  /** After the nine insertions the tree has height 4 and its walk is the
      values in ascending order. */
  lemma SampleTree()
    ensures RedBlackTrees.Height(T9()) == 4
    ensures Walk(T9()) == [3, 7, 9, 11, 14, 15, 16, 18, 26]
  {
    WalkT9();
    HeightT9();
  }

  lemma WalkAt(w: seq<int>)
    requires w == [3, 7, 9, 11, 14, 15, 16, 18, 26]
    ensures |w| == 9 && w[1] == 7 && w[3] == 11
  {
  }

  lemma WalkT9()
    ensures Walk(T9()) == [3, 7, 9, 11, 14, 15, 16, 18, 26]
  {
  }

  lemma HeightT9()
    ensures RedBlackTrees.Height(T9()) == 4
  {
  }

  lemma SearchHere(l: Tree, v: int, r: Tree)
    ensures BinaryTrees.Search(Node(l, v, r), v) == Some([])
  {
  }

  lemma SearchLeft(l: Tree, v: int, r: Tree, x: int, q: Path)
    requires x < v && BinaryTrees.Search(l, x) == Some(q)
    ensures BinaryTrees.Search(Node(l, v, r), x) == Some([L] + q)
  {
  }

  lemma SearchRight(l: Tree, v: int, r: Tree, x: int, q: Path)
    requires x > v && BinaryTrees.Search(r, x) == Some(q)
    ensures BinaryTrees.Search(Node(l, v, r), x) == Some([R] + q)
  {
  }

  /** 9 sits at the right of 7, left of the root 11, and 26 at the right of
      18, right of the root; third and ninth in the walk. */
  lemma SearchLeftAt(t: Tree, l: Tree, v: int, r: Tree, x: int, q: Path, p: Path)
    requires t == Node(l, v, r) && p == [L] + q
    requires x < v && BinaryTrees.Search(l, x) == Some(q)
    ensures BinaryTrees.Search(t, x) == Some(p)
  {
    SearchLeft(l, v, r, x, q);
  }

  lemma SearchRightAt(t: Tree, l: Tree, v: int, r: Tree, x: int, q: Path, p: Path)
    requires t == Node(l, v, r) && p == [R] + q
    requires x > v && BinaryTrees.Search(r, x) == Some(q)
    ensures BinaryTrees.Search(t, x) == Some(p)
  {
    SearchRight(l, v, r, x, q);
  }

  /** The uncoloured sample tree, by its two halves. */
  lemma ShapeT9(t: RBTree) returns (a: Tree, b: Tree)
    requires t == T9()
    ensures a == Node(Node(Nil, 3, Nil), 7, Node(Nil, 9, Nil))
    ensures b == Node(Node(Node(Nil, 14, Nil), 15, Node(Nil, 16, Nil)), 18, Node(Nil, 26, Nil))
    ensures Shape(t) == Node(a, 11, b)
  {
    a := Node(Node(Nil, 3, Nil), 7, Node(Nil, 9, Nil));
    b := Node(Node(Node(Nil, 14, Nil), 15, Node(Nil, 16, Nil)), 18, Node(Nil, 26, Nil));
  }

  lemma SearchT9(t: RBTree)
    requires t == T9()
    ensures RedBlackTrees.Search(t, 9) == Some([L, R])
    ensures RedBlackTrees.Search(t, 26) == Some([R, R])
  {
    Search9(t);
    Search26(t);
  }

  lemma Search9(t: RBTree)
    requires t == T9()
    ensures RedBlackTrees.Search(t, 9) == Some([L, R])
  {
    var a, b := ShapeT9(t);
    SearchA(a);
    assert [L, R] == [L] + [R];
    SearchLeftAt(Shape(t), a, 11, b, 9, [R], [L, R]);
  }

  lemma Search26(t: RBTree)
    requires t == T9()
    ensures RedBlackTrees.Search(t, 26) == Some([R, R])
  {
    var a, b := ShapeT9(t);
    SearchB(b);
    assert [R, R] == [R] + [R];
    SearchRightAt(Shape(t), a, 11, b, 26, [R], [R, R]);
  }

  lemma SearchA(a: Tree)
    requires a == Node(Node(Nil, 3, Nil), 7, Node(Nil, 9, Nil))
    ensures BinaryTrees.Search(a, 9) == Some([R])
  {
    assert [R] + [] == [R];
    SearchHere(Nil, 9, Nil);
    SearchRight(Node(Nil, 3, Nil), 7, Node(Nil, 9, Nil), 9, []);
  }

  lemma SearchB(b: Tree)
    requires b == Node(Node(Node(Nil, 14, Nil), 15, Node(Nil, 16, Nil)), 18, Node(Nil, 26, Nil))
    ensures BinaryTrees.Search(b, 26) == Some([R])
  {
    assert [R] + [] == [R];
    SearchHere(Nil, 26, Nil);
    SearchRight(Node(Node(Nil, 14, Nil), 15, Node(Nil, 16, Nil)), 18, Node(Nil, 26, Nil), 26, []);
  }

  lemma IndexT9(t: RBTree)
    requires t == T9()
    ensures Index(Shape(t), [L, R]) == 2 && Index(Shape(t), [R, R]) == 8
  {
    var a, b := ShapeT9(t);
    assert [L, R][1..] == [R] && [R, R][1..] == [R];
  }

  /** The successor of the node found for `x` at walk position `i` holds the
      value at position `i + 1`, and the predecessor the one at `i - 1`. */
  lemma NextInWalk(t: RBTree, x: int, p: Path, i: nat, y: int)
    requires RedBlackTrees.Search(t, x) == Some(p) && Index(Shape(t), p) == i
    requires i + 1 < |Walk(t)| && Walk(t)[i + 1] == y
    ensures var n := RedBlackTrees.Search(t, x);
      n.Some? && RedBlackTrees.Successor(t, n).Some? &&
      Subtree(Shape(t), RedBlackTrees.Successor(t, n).value).val == y
  {
    var m := RedBlackTrees.Successor(t, Some(p));
    assert m.Some? && Index(Shape(t), m.value) == i + 1;
    IndexInWalk(Shape(t), m.value);
    assert InOrder(Shape(t))[i + 1] == Subtree(Shape(t), m.value).val;
  }

  lemma PrevInWalk(t: RBTree, x: int, p: Path, i: nat, y: int)
    requires RedBlackTrees.Search(t, x) == Some(p) && Index(Shape(t), p) == i
    requires 0 < i < |Walk(t)| && Walk(t)[i - 1] == y
    ensures var n := RedBlackTrees.Search(t, x);
      n.Some? && RedBlackTrees.Predecessor(t, n).Some? &&
      Subtree(Shape(t), RedBlackTrees.Predecessor(t, n).value).val == y
  {
    var m := RedBlackTrees.Predecessor(t, Some(p));
    assert m.Some? && Index(Shape(t), m.value) == i - 1;
    IndexInWalk(Shape(t), m.value);
    assert InOrder(Shape(t))[i - 1] == Subtree(Shape(t), m.value).val;
  }

  /** Where 9 sits in the sample tree: at the right of 7, left of the root,
      third in the walk, between 7 and 11. */
  lemma NineInSample(t: RBTree)
    requires t == T9()
    ensures RedBlackTrees.Search(t, 9) == Some([L, R]) && Index(Shape(t), [L, R]) == 2
    ensures |Walk(t)| == 9 && Walk(t)[1] == 7 && Walk(t)[3] == 11
  {
    assert RedBlackTrees.Search(t, 9) == Some([L, R]) by { SearchT9(t); }
    assert Index(Shape(t), [L, R]) == 2 by { IndexT9(t); }
    assert |Walk(t)| == 9 && Walk(t)[1] == 7 && Walk(t)[3] == 11 by { WalkT9(); WalkAt(Walk(t)); }
  }

  /** In the sample tree the successor of the node holding 9 holds 11, ... */
  lemma SuccessorOf9(t: RBTree)
    requires t == T9()
    ensures var n := RedBlackTrees.Search(t, 9);
      n.Some? && RedBlackTrees.Successor(t, n).Some? &&
      Subtree(Shape(t), RedBlackTrees.Successor(t, n).value).val == 11
  {
    NineInSample(t);
    NextInWalk(t, 9, [L, R], 2, 11);
  }

  /** ... its predecessor holds 7, ... */
  lemma PredecessorOf9(t: RBTree)
    requires t == T9()
    ensures var n := RedBlackTrees.Search(t, 9);
      n.Some? && RedBlackTrees.Predecessor(t, n).Some? &&
      Subtree(Shape(t), RedBlackTrees.Predecessor(t, n).value).val == 7
  {
    NineInSample(t);
    PrevInWalk(t, 9, [L, R], 2, 7);
  }

  /** ... and the node holding 26, the largest value, has no successor. */
  lemma SuccessorOf26(t: RBTree)
    requires t == T9()
    ensures var n := RedBlackTrees.Search(t, 26);
      n.Some? && RedBlackTrees.Successor(t, n).None?
  {
    assert RedBlackTrees.Search(t, 26) == Some([R, R]) by { SearchT9(t); }
    assert Index(Shape(t), [R, R]) == 8 by { IndexT9(t); }
    assert |Walk(t)| == 9 by { WalkT9(); WalkAt(Walk(t)); }
    var m := RedBlackTrees.Successor(t, Some([R, R]));
    if m.Some? {
      IndexInWalk(Shape(t), m.value);
    }
  }

  // ---------------------------------------------------------------------------
  // A deletion the repair loop leaves unbalanced

  /** Deleting the black leaf 1 from a red-black tree of three black nodes: the
      sentinel takes its place, so the repair loop stops at once, and the left
      side of the root loses a black node the right side keeps. */
  lemma DeleteBlackLeafUnbalances(t: RBTree, u: RBTree)
    requires t == Bk(BkLeaf(1), 2, BkLeaf(3)) && u == Bk(Leaf, 2, BkLeaf(3))
    ensures IsRedBlack(t)
    ensures RedBlackDelete.Delete(t, 1) == Some((u, true))
    ensures !Balanced(u)
  {
    ThreeBlack(t, u);
    SearchOne(t);
    DeleteOne(t);
  }

  lemma ThreeBlack(t: RBTree, u: RBTree)
    requires t == Bk(BkLeaf(1), 2, BkLeaf(3)) && u == Bk(Leaf, 2, BkLeaf(3))
    ensures IsRedBlack(t) && !Balanced(u)
  {
  }

  lemma SearchOne(t: RBTree)
    requires t == Bk(BkLeaf(1), 2, BkLeaf(3))
    ensures RedBlackTrees.Search(t, 1) == Some([L])
  {
    assert Shape(t) == Node(Node(Nil, 1, Nil), 2, Node(Nil, 3, Nil));
    SearchHere(Nil, 1, Nil);
    SearchLeftAt(Shape(t), Node(Nil, 1, Nil), 2, Node(Nil, 3, Nil), 1, [], [L]);
  }

  lemma DeleteOne(t: RBTree)
    requires t == Bk(BkLeaf(1), 2, BkLeaf(3)) && RedBlackTrees.Search(t, 1) == Some([L])
    ensures RedBlackDelete.Delete(t, 1) == Some((Bk(Leaf, 2, BkLeaf(3)), true))
  {
    DeleteLeftLeaf(t);
  }

  /** The node at `[L]` removed: nothing to repair, the sentinel hangs in its place. */
  lemma DeleteLeftLeaf(t: RBTree)
    requires t == Bk(BkLeaf(1), 2, BkLeaf(3))
    ensures RedBlackDelete.DeleteAt(t, [L]) == Some(Bk(Leaf, 2, BkLeaf(3)))
  {
    var f := Frame(L, Black, 2, BkLeaf(3));
    OpenLeft(t, f);
    assert RedBlackDelete.Unlink(BkLeaf(1), [f]) == (Leaf, [f], Black);
    assert RedBlackDelete.DeleteFixup(Leaf, [f]) == Some(Plug(Leaf, [f]));
    assert Plug(Leaf, [f]) == Plug(Up(Leaf, f), []);
  }

  lemma OpenLeft(t: RBTree, f: Frame)
    requires t == Bk(BkLeaf(1), 2, BkLeaf(3)) && f == Frame(L, Black, 2, BkLeaf(3))
    ensures Open(t, [L]) == (BkLeaf(1), [f])
  {
    assert [L][1..] == [];
    assert Open(t.left, []) == (BkLeaf(1), []);
    assert [] + [f] == [f];
  }
}
