/**
 * The tree utilities: in-place inversion, structural equality, height,
 * breadth-first value listing and the perfect-tree factory.
 *
 * `Mirror` is the value-level meaning of inversion and `Perfect` the
 * value-level meaning of the factory; the heap methods are proved against
 * them, and their properties are proved as lemmas.
 */
module TreeOperations {
  import opened Trees
  import opened Traversals
  import opened TreeNodes

  // ---------------------------------------------------------------------
  // Inversion

  /** Every node keeps its fields; its two subtrees are exchanged, each mirrored. */
  function Mirror(t: Tree): Tree
  {
    if t.Nil? then Nil
    else Node(t.id, t.value, Mirror(t.right), Mirror(t.left), t.x, t.y, t.highlighted, t.animating)
  }

  /**
   * invertTree: inverts the subtrees first, then exchanges the two child
   * references of the root; returns the root it was given.
   */
  method InvertTree(root: TreeNode?) returns (r: TreeNode?)
    requires root != null ==> root.Valid()
    modifies if root != null then root.Repr else {}
    ensures r == root
    ensures root != null ==> root.Valid() && root.Repr == old(root.Repr)
    ensures root != null ==> root.Model == Mirror(old(root.Model))
    decreases if root != null then root.Repr else {}
  {
    if root == null {
      return null;
    }
    ghost var before, leftModel, rightModel := root.Model, ModelOf(root.left), ModelOf(root.right);
    assert Mirror(before) == before.(left := Mirror(rightModel), right := Mirror(leftModel));
    var left := InvertTree(root.left);
    assert ModelOf(left) == Mirror(leftModel);
    var right := InvertTree(root.right);
    assert ModelOf(right) == Mirror(rightModel);
    assert left != root && right != root;
    root.Relink(right, left);
    return root;
  }

  /** Inverting twice gives back the original tree, identifiers and display fields included. */
  lemma {:induction false} MirrorInvolution(t: Tree)
    ensures Mirror(Mirror(t)) == t
  {
    if t.Node? {
      MirrorInvolution(t.left);
      MirrorInvolution(t.right);
    }
  }

  /** Inversion keeps the node count and the height. */
  lemma {:induction false} MirrorSizeHeight(t: Tree)
    ensures Size(Mirror(t)) == Size(t)
    ensures Height(Mirror(t)) == Height(t)
  {
    if t.Node? {
      MirrorSizeHeight(t.left);
      MirrorSizeHeight(t.right);
    }
  }

  /** Inversion keeps every identifier and every value, as often as they occur. */
  lemma {:induction false} MirrorContents(t: Tree)
    ensures multiset(Ids(Mirror(t))) == multiset(Ids(t))
    ensures multiset(Values(Mirror(t))) == multiset(Values(t))
  {
    if t.Node? {
      MirrorContents(t.left);
      MirrorContents(t.right);
    }
  }

  // ---------------------------------------------------------------------
  // Equality, height

  /** areTreesEqual: same shape and the same value at every position; ids and display fields are ignored. */
  function AreTreesEqual(t1: Tree, t2: Tree): (r: bool)
    ensures r ==> Size(t1) == Size(t2) && Height(t1) == Height(t2) && Values(t1) == Values(t2)
  {
    if t1.Nil? && t2.Nil? then true
    else if t1.Nil? || t2.Nil? then false
    else if t1.value != t2.value then false
    else AreTreesEqual(t1.left, t2.left) && AreTreesEqual(t1.right, t2.right)
  }

  /** The shape of a tree with its values: every other field reset. */
  function ValueShape(t: Tree): Tree
  {
    if t.Nil? then Nil
    else Node(0, t.value, ValueShape(t.left), ValueShape(t.right), 0, 0, false, false)
  }

  /** Two trees are equal in the sense of areTreesEqual exactly when their value shapes coincide. */
  lemma {:induction false} AreTreesEqualMeansSameValueShape(t1: Tree, t2: Tree)
    ensures AreTreesEqual(t1, t2) <==> ValueShape(t1) == ValueShape(t2)
  {
    if t1.Node? && t2.Node? {
      AreTreesEqualMeansSameValueShape(t1.left, t2.left);
      AreTreesEqualMeansSameValueShape(t1.right, t2.right);
    }
  }

  /** areTreesEqual is an equivalence relation. */
  lemma AreTreesEqualEquivalence(t1: Tree, t2: Tree, t3: Tree)
    ensures AreTreesEqual(t1, t1)
    ensures AreTreesEqual(t1, t2) ==> AreTreesEqual(t2, t1)
    ensures AreTreesEqual(t1, t2) && AreTreesEqual(t2, t3) ==> AreTreesEqual(t1, t3)
  {
    AreTreesEqualMeansSameValueShape(t1, t1);
    AreTreesEqualMeansSameValueShape(t1, t2);
    AreTreesEqualMeansSameValueShape(t2, t1);
    AreTreesEqualMeansSameValueShape(t2, t3);
    AreTreesEqualMeansSameValueShape(t1, t3);
  }

  /** Identical trees are equal; the converse fails as soon as two ids differ. */
  lemma InvertTwiceIsEqual(t: Tree)
    ensures AreTreesEqual(Mirror(Mirror(t)), t)
  {
    MirrorInvolution(t);
    AreTreesEqualEquivalence(t, t, t);
  }

  /** The height is the number of non-empty levels. */
  lemma {:induction false} HeightCountsLevels(t: Tree, d: nat)
    ensures Level(t, d) != [] <==> d < Height(t)
  {
    if t.Node? && d > 0 {
      HeightCountsLevels(t.left, d - 1);
      HeightCountsLevels(t.right, d - 1);
    }
  }

  // ---------------------------------------------------------------------
  // Breadth-first listing

  /** The level-order value listing has one entry per node, starts at the root and lists every value. */
  lemma LevelOrderValues(t: Tree)
    ensures |ValuesOf(LevelOrder(t))| == Size(t)
    ensures t.Node? ==> ValuesOf(LevelOrder(t))[0] == t.value
    ensures multiset(ValuesOf(LevelOrder(t))) == multiset(Values(t))
  {
    LevelOrderPermutation(t);
    ProjectPermutation(LevelOrder(t), PreOrder(t), ValueOf);
    ValuesOfPreOrder(t);
    if t.Node? {
      QueueOrderIsLevelOrder(t);
      assert LevelOrder(t)[0] == t;
      ProjectIndex(LevelOrder(t), ValueOf, 0);
    }
  }

  /** One round of the breadth-first loop: the front node's value, then the rest of the drained queue. */
  lemma QueueRound(q: seq<NodeTree>)
    requires q != []
    ensures ValuesOf(QueueOrder(q)) == [q[0].value] + ValuesOf(QueueOrder(q[1..] + Kids(q[0])))
    ensures ForestSize(q[1..] + Kids(q[0])) < ForestSize(q)
  {
    ForestSizeAppend(q[1..], Kids(q[0]));
    KidsSize(q[0]);
    ProjectSingle(q[0], ValueOf);
    ProjectAppend([q[0]], QueueOrder(q[1..] + Kids(q[0])), ValueOf);
  }

  /**
   * bfsTraversal: takes nodes from the front of a queue, records each value
   * and appends the children, left before right.
   */
  method BfsTraversal(root: Tree) returns (result: seq<int>)
    ensures result == ValuesOf(LevelOrder(root))
    ensures |result| == Size(root)
    ensures root.Node? ==> result[0] == root.value
    ensures multiset(result) == multiset(Values(root))
  {
    LevelOrderValues(root);
    if root.Nil? {
      return [];
    }
    QueueOrderIsLevelOrder(root);
    result := [];
    var queue: seq<NodeTree> := [root];
    while |queue| > 0
      invariant result + ValuesOf(QueueOrder(queue)) == ValuesOf(LevelOrder(root))
      decreases ForestSize(queue)
    {
      QueueRound(queue);
      ghost var rest, done := queue[1..] + Kids(queue[0]), result;
      var node := queue[0];
      queue := queue[1..];
      result := result + [node.value];
      ghost var front := queue;
      if node.left.Node? {
        var child: NodeTree := node.left;
        queue := queue + [child];
      }
      ghost var withLeft := queue;
      if node.right.Node? {
        var child: NodeTree := node.right;
        queue := queue + [child];
      }
      assert queue == withLeft + (if node.right.Node? then [node.right] else []);
      assert withLeft == front + (if node.left.Node? then [node.left] else []);
      Associative3(front, if node.left.Node? then [node.left] else [], if node.right.Node? then [node.right] else []);
      assert queue == rest;
      Associative3(done, [node.value], ValuesOf(QueueOrder(rest)));
    }
  }

  // ---------------------------------------------------------------------
  // The perfect-tree factory

  /**
   * The perfect tree of height `h` whose root has heap index `i`: node ids
   * are heap indices (the children of `i` are `2i` and `2i + 1`) and each
   * node's value is `start + id - 1`.
   */
  function Perfect(h: nat, i: int, start: int): Tree
  {
    if h == 0 then Nil
    else Node(i, start + i - 1, Perfect(h - 1, 2 * i, start), Perfect(h - 1, 2 * i + 1, start),
              0, 0, false, false)
  }

  /** generateTree: no node below the last level, else a node with both subtrees generated. */
  method GenerateTree(height: int, depth: int, index: int, start: int) returns (node: TreeNode?)
    ensures depth > height ==> node == null
    ensures depth <= height ==> node != null && node.Valid() && fresh(node.Repr)
    ensures depth <= height ==> node.Model == Perfect(height - depth + 1, index, start)
    decreases height - depth + 1
  {
    if depth > height {
      return null;
    }
    var nodeValue := start + index - 1;
    node := new TreeNode(NodeData(index, nodeValue, None, None, None, None, None, None));
    var l := GenerateTree(height, depth + 1, index * 2, start);
    node.AttachLeft(l);
    var r := GenerateTree(height, depth + 1, index * 2 + 1, start);
    node.AttachRight(r);
  }

  /** createBalancedTree: nothing for a height of 0 or less, else the perfect tree rooted at index 1. */
  method CreateBalancedTree(height: int, start: int) returns (root: TreeNode?)
    ensures height <= 0 ==> root == null
    ensures height > 0 ==> root != null && root.Valid() && fresh(root.Repr)
    ensures height > 0 ==> root.Model == Perfect(height, 1, start)
  {
    if height <= 0 {
      return null;
    }
    root := GenerateTree(height, 1, 1, start);
  }

  /** The consecutive integers from `lo` up to, not including, `hi`. */
  function Range(lo: int, hi: int): (r: seq<int>)
    ensures |r| == if lo <= hi then hi - lo else 0
  {
    if hi <= lo then [] else seq(hi - lo, k => lo + k)
  }

  lemma RangeAppend(a: int, b: int, c: int)
    requires a <= b <= c
    ensures Range(a, b) + Range(b, c) == Range(a, c)
  {
    assert forall k :: 0 <= k < c - a ==> (Range(a, b) + Range(b, c))[k] == a + k;
  }

  /** The two halves of an index block at the next depth. */
  lemma RangeHalves(i: int, p: nat)
    ensures Range((2 * i) * p, (2 * i + 1) * p) + Range((2 * i + 1) * p, (2 * i + 1 + 1) * p)
         == Range(i * (2 * p), (i + 1) * (2 * p))
  {
    var a, b, c := (2 * i) * p, (2 * i + 1) * p, (2 * i + 1 + 1) * p;
    assert b == a + p && c == b + p;
    assert a == i * (2 * p) && c == (i + 1) * (2 * p);
    RangeAppend(a, b, c);
  }

  /** A perfect tree of height h has 2^h - 1 nodes and height h. */
  lemma {:induction false} PerfectShape(h: nat, i: int, start: int)
    ensures Size(Perfect(h, i, start)) == Pow2(h) - 1
    ensures Height(Perfect(h, i, start)) == h
  {
    if h > 0 {
      PerfectShape(h - 1, 2 * i, start);
      PerfectShape(h - 1, 2 * i + 1, start);
    }
  }

  /** Every node of a generated tree has the value start + id - 1. */
  ghost predicate ValuesFollowIds(s: seq<NodeTree>, start: int)
  {
    forall k :: 0 <= k < |s| ==> s[k].value == start + s[k].id - 1
  }

  lemma ValuesFromIds(s: seq<NodeTree>, start: int, lo: int, hi: int)
    requires ValuesFollowIds(s, start) && IdsOf(s) == Range(lo, hi)
    ensures ValuesOf(s) == Range(start - 1 + lo, start - 1 + hi)
  {
    forall k | 0 <= k < |s| ensures ValuesOf(s)[k] == Range(start - 1 + lo, start - 1 + hi)[k] {
      ProjectIndex(s, ValueOf, k);
      ProjectIndex(s, IdOf, k);
    }
  }

  lemma {:induction false} PerfectLevelValues(h: nat, i: int, start: int, d: nat)
    ensures ValuesFollowIds(Level(Perfect(h, i, start), d), start)
  {
    var t := Perfect(h, i, start);
    if h > 0 && d > 0 {
      PerfectLevelValues(h - 1, 2 * i, start, d - 1);
      PerfectLevelValues(h - 1, 2 * i + 1, start, d - 1);
      var a, b := Level(t.left, d - 1), Level(t.right, d - 1);
      assert Level(t, d) == a + b;
    }
  }

  /** Depth d of the perfect tree rooted at index i holds the indices i 2^d up to (i + 1) 2^d, left to right. */
  lemma {:induction false} PerfectLevel(h: nat, i: int, start: int, d: nat)
    requires d < h
    ensures IdsOf(Level(Perfect(h, i, start), d)) == Range(i * Pow2(d), (i + 1) * Pow2(d))
  {
    var t := Perfect(h, i, start);
    if d == 0 {
      assert Level(t, 0) == [t];
      ProjectSingle(t, IdOf);
    } else {
      var p := Pow2(d - 1);
      PerfectLevel(h - 1, 2 * i, start, d - 1);
      PerfectLevel(h - 1, 2 * i + 1, start, d - 1);
      var a, b := Level(t.left, d - 1), Level(t.right, d - 1);
      assert Level(t, d) == a + b;
      ProjectAppend(a, b, IdOf);
      assert Pow2(d) == 2 * p;
      RangeHalves(i, p);
    }
  }

  /** Levels lo up to hi of the perfect tree rooted at index 1. */
  lemma {:induction false} PerfectLevels(h: nat, start: int, lo: nat, hi: nat)
    requires lo <= hi <= h
    ensures IdsOf(LevelRange([Perfect(h, 1, start)], lo, hi)) == Range(Pow2(lo), Pow2(hi))
    ensures ValuesFollowIds(LevelRange([Perfect(h, 1, start)], lo, hi), start)
    decreases hi - lo
  {
    var t := Perfect(h, 1, start);
    if lo < hi {
      PerfectLevels(h, start, lo + 1, hi);
      PerfectLevel(h, 1, start, lo);
      PerfectLevelValues(h, 1, start, lo);
      LevelFSingle(t, lo);
      PowMonotone(lo + 1, hi);
      var a, b := Level(t, lo), LevelRange([t], lo + 1, hi);
      assert LevelRange([t], lo, hi) == a + b;
      ProjectAppend(a, b, IdOf);
      RangeAppend(Pow2(lo), Pow2(lo + 1), Pow2(hi));
    }
  }

  /**
   * The breadth-first listing of createBalancedTree(h, start) is the ids
   * 1 .. 2^h - 1 and the values start .. start + 2^h - 2.
   */
  lemma PerfectLevelOrder(h: nat, start: int)
    ensures IdsOf(LevelOrder(Perfect(h, 1, start))) == Range(1, Pow2(h))
    ensures ValuesOf(LevelOrder(Perfect(h, 1, start))) == Range(start, start + Pow2(h) - 1)
  {
    PerfectShape(h, 1, start);
    PerfectLevels(h, start, 0, h);
    ValuesFromIds(LevelOrder(Perfect(h, 1, start)), start, 1, Pow2(h));
  }

  lemma {:induction false} RangeDistinct(lo: int, hi: int)
    requires lo <= hi
    ensures forall k :: multiset(Range(lo, hi))[k] <= 1
    decreases hi - lo
  {
    if lo < hi {
      RangeDistinct(lo + 1, hi);
      assert Range(lo, hi) == [lo] + Range(lo + 1, hi);
      assert lo !in Range(lo + 1, hi);
    }
  }

  /** No two nodes of a generated tree share an identifier. */
  lemma PerfectUniqueIds(h: nat, start: int)
    ensures UniqueIds(Perfect(h, 1, start))
  {
    var t := Perfect(h, 1, start);
    PerfectLevelOrder(h, start);
    LevelOrderPermutation(t);
    ProjectPermutation(LevelOrder(t), PreOrder(t), IdOf);
    IdsOfPreOrder(t);
    RangeDistinct(1, Pow2(h));
  }
}
