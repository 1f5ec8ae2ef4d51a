/**
 * The seven-node example tree, 4 over (2 over 1, 3) and (7 over 6, 9),
 * with identifiers 1 to 7 in level order, and what inverting it gives.
 */
module ExampleRun {
  import opened Trees
  import opened Traversals
  import opened TreeNodes
  import opened TreeOperations
  import opened TreeInversion
  import opened InversionProperties
  import opened TreeCanvas

  function LeafTree(id: int, value: int): Tree
  {
    Node(id, value, Nil, Nil, 0, 0, false, false)
  }

  function Inner(id: int, value: int, left: Tree, right: Tree): Tree
  {
    Node(id, value, left, right, 0, 0, false, false)
  }

  /** The example tree, written out node by node. */
  function Written(): Tree
  {
    Inner(1, 4, Inner(2, 2, LeafTree(4, 1), LeafTree(5, 3)), Inner(3, 7, LeafTree(6, 6), LeafTree(7, 9)))
  }

  /** The record of the example builds the tree written out, with every position 0 and every flag off. */
  lemma ExampleTreeWritten()
    ensures ExampleTree() == Written()
  {
    var d := ExampleData();
    assert Build(TreeNodes.Leaf(4, 1)) == LeafTree(4, 1);
    assert Build(TreeNodes.Leaf(5, 3)) == LeafTree(5, 3);
    assert Build(TreeNodes.Leaf(6, 6)) == LeafTree(6, 6);
    assert Build(TreeNodes.Leaf(7, 9)) == LeafTree(7, 9);
    assert Build(d.left.value) == Written().left;
    assert Build(d.right.value) == Written().right;
  }

  /** The level-order listing of a tree of height 3 whose three levels are full. */
  lemma FullLevelOrder(t: Tree)
    requires t.Node? && t.left.Node? && t.right.Node?
    requires t.left.left.Node? && t.left.right.Node? && t.right.left.Node? && t.right.right.Node?
    requires Height(t.left.left) == 1 && Height(t.left.right) == 1
    requires Height(t.right.left) == 1 && Height(t.right.right) == 1
    ensures Height(t) == 3
    ensures LevelOrder(t) == [t, t.left, t.right, t.left.left, t.left.right, t.right.left, t.right.right]
  {
    assert [t][1..] == [];
    assert Level(t, 1) == [t.left, t.right];
    assert Level(t.left, 1) == [t.left.left, t.left.right];
    assert Level(t.right, 1) == [t.right.left, t.right.right];
    assert LevelF([t], 0) == [t];
    assert LevelF([t], 1) == [t.left, t.right];
    assert LevelF([t], 2) == [t.left.left, t.left.right, t.right.left, t.right.right];
    assert LevelRange([t], 3, 3) == [];
    assert LevelRange([t], 2, 3) == LevelF([t], 2);
    assert LevelRange([t], 1, 3) == LevelF([t], 1) + LevelF([t], 2);
  }

  /** One field of seven nodes, written out. */
  lemma ProjectSeven(s: seq<NodeTree>, field: NodeTree -> int)
    requires |s| == 7
    ensures Project(s, field) ==
      [field(s[0]), field(s[1]), field(s[2]), field(s[3]), field(s[4]), field(s[5]), field(s[6])]
  {
  }

  /** No identifier repeats in the example tree's preorder. */
  lemma ExampleIdsNoRepeats()
    ensures forall k :: multiset([1, 2, 4, 5, 3, 6, 7])[k] <= 1
  {
    var ids := [1, 2, 4, 5, 3, 6, 7];
    assert multiset(ids) == multiset{1, 2, 4, 5, 3, 6, 7};
    forall k ensures multiset(ids)[k] <= 1 {
      if 1 <= k <= 7 {
        assert multiset(ids)[k] == 1;
      } else {
        assert k !in ids;
      }
    }
  }

  /** The example tree has 7 nodes with the distinct identifiers 1 to 7. */
  lemma ExampleTreeIds()
    ensures Size(ExampleTree()) == 7
    ensures Ids(ExampleTree()) == [1, 2, 4, 5, 3, 6, 7]
    ensures UniqueIds(ExampleTree())
  {
    ExampleTreeWritten();
    var t := Written();
    assert Ids(t) == [1, 2, 4, 5, 3, 6, 7];
    ExampleIdsNoRepeats();
  }

  /** In level order the example tree lists the identifiers 1 to 7 and the values 4, 2, 7, 1, 3, 6, 9. */
  lemma ExampleLevelOrder()
    ensures IdsOf(LevelOrder(ExampleTree())) == [1, 2, 3, 4, 5, 6, 7]
    ensures ValuesOf(LevelOrder(ExampleTree())) == [4, 2, 7, 1, 3, 6, 9]
  {
    ExampleTreeWritten();
    var t := Written();
    FullLevelOrder(t);
    ProjectSeven(LevelOrder(t), IdOf);
    ProjectSeven(LevelOrder(t), ValueOf);
  }

  /** Inverting the example tree gives the values 4, 7, 2, 9, 6, 3, 1 in level order. */
  lemma ExampleInverted()
    ensures ValuesOf(LevelOrder(Mirror(ExampleTree()))) == [4, 7, 2, 9, 6, 3, 1]
  {
    ExampleTreeWritten();
    var m := Mirror(Written());
    assert m == Inner(1, 4, Inner(3, 7, LeafTree(7, 9), LeafTree(6, 6)), Inner(2, 2, LeafTree(5, 3), LeafTree(4, 1)));
    FullLevelOrder(m);
    ProjectSeven(LevelOrder(m), ValueOf);
  }

  /** What the recursive strategy does on any seven-node tree with unique identifiers. */
  lemma SevenNodeRun(t: Tree)
    requires Size(t) == 7 && UniqueIds(t)
    ensures |Generate(Recursive, t).steps| == 27
    ensures Targets(Generate(Recursive, t).steps, IsSwap) == IdsOf(PostOrder(t))
    ensures Strip(ApplySteps(t, Generate(Recursive, t).steps)) == Strip(Mirror(t))
  {
    GenerateCount(Recursive, t);
    GenerateSwapOrder(Recursive, t);
    ApplyGeneratedSteps(Recursive, t);
  }

  /** The example tree lists the identifiers 4, 5, 2, 6, 7, 3, 1 in post-order. */
  lemma ExamplePostOrder()
    ensures IdsOf(PostOrder(ExampleTree())) == [4, 5, 2, 6, 7, 3, 1]
  {
    ExampleTreeWritten();
    var t := Written();
    assert PostOrder(t.left) == [t.left.left, t.left.right, t.left];
    assert PostOrder(t.right) == [t.right.left, t.right.right, t.right];
    assert PostOrder(t) == [t.left.left, t.left.right, t.left, t.right.left, t.right.right, t.right, t];
    ProjectSeven(PostOrder(t), IdOf);
  }

  /**
   * The recursive strategy emits 27 steps for the example tree, swaps its 7
   * nodes in post-order, and its steps, applied one after the other, invert
   * the tree.
   */
  lemma ExampleRecursiveRun()
    ensures |Generate(Recursive, ExampleTree()).steps| == 27
    ensures Targets(Generate(Recursive, ExampleTree()).steps, IsSwap) == [4, 5, 2, 6, 7, 3, 1]
    ensures Strip(ApplySteps(ExampleTree(), Generate(Recursive, ExampleTree()).steps)) ==
            Strip(Mirror(ExampleTree()))
  {
    ExampleTreeIds();
    ExamplePostOrder();
    SevenNodeRun(ExampleTree());
  }
}
