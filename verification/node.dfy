/** structures/node.go: the tree node of the binary search trees, a value that
    may be nil and two child pointers that may be nil. The pure trees of the
    rest of the model erase the nil-valued placeholder: `ToTree` maps a node to
    the tree it stands for. */
module Nodes {
  import opened Options
  import BinaryTrees

  datatype Node = Node(val: Option<int>, left: Option<Node>, right: Option<Node>)

  /** `hasVal`: false exactly when the value is nil. */
  predicate HasVal(n: Node) {
    n.val.Some?
  }

  /** `DummyNode`: a node whose value and children are nil. */
  function DummyNode(): (n: Node)
    ensures !HasVal(n) && n.left.None? && n.right.None?
  {
    Node(None, None, None)
  }

  /** `NewNode(val)`: a node storing `val` with nil children; it has a value
      exactly when `val` is not nil. */
  function NewNode(val: Option<int>): (n: Node)
    ensures n.val == val && n.left.None? && n.right.None?
    ensures HasVal(n) <==> val.Some?
  {
    Node(val, None, None)
  }

  /** The tree a node pointer stands for: nil, and a node without a value,
      are the empty tree. */
  function ToTree(n: Option<Node>): (t: BinaryTrees.Tree)
    ensures n.Some? && !HasVal(n.value) ==> t == BinaryTrees.Nil
  {
    match n
    case None => BinaryTrees.Nil
    case Some(Node(v, l, r)) =>
      match v
      case None => BinaryTrees.Nil
      case Some(x) => BinaryTrees.Node(ToTree(l), x, ToTree(r))
  }

  /** A placeholder is the empty tree, a new node with a value is a one-node
      tree, and a node is a tree node exactly when it has a value. */
  lemma NodesAsTrees(v: int, n: Node)
    ensures ToTree(Some(DummyNode())) == BinaryTrees.Nil
    ensures ToTree(Some(NewNode(Some(v)))) == BinaryTrees.Node(BinaryTrees.Nil, v, BinaryTrees.Nil)
    ensures ToTree(Some(n)).Node? <==> HasVal(n)
  {
  }
}
