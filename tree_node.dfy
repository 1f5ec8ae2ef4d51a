/**
 * TreeNode objects: the record a node is built from, the node class with its
 * recursive constructor and deep copy, and the fixed seven-node example tree.
 *
 * Every node carries two ghost fields: `Repr`, the objects of the subtree it
 * roots, and `Model`, the value snapshot (`Trees.Tree`) of that subtree.
 * `Valid()` ties both to the real fields.
 */
module TreeNodes {
  import opened Trees

  /** TreeNodeData: identifier and value are required, every other field is optional. */
  datatype NodeData = NodeData(id: int, value: int,
                               left: Option<NodeData>, right: Option<NodeData>,
                               x: Option<int>, y: Option<int>,
                               highlighted: Option<bool>, animating: Option<bool>)

  /** An optional field read with a fallback, as `data.x || 0` does for numbers and booleans. */
  function OrElse<T>(o: Option<T>, fallback: T): T
  {
    if o.Some? then o.value else fallback
  }

  /** The subtree the constructor builds from a record. */
  function Build(data: NodeData): Tree
  {
    Node(data.id, data.value,
         if data.left.Some? then Build(data.left.value) else Nil,
         if data.right.Some? then Build(data.right.value) else Nil,
         OrElse(data.x, 0), OrElse(data.y, 0),
         OrElse(data.highlighted, false), OrElse(data.animating, false))
  }

  /** The record listing every field of a subtree explicitly. */
  function Record(t: Tree): (data: NodeData)
    requires t.Node?
  {
    NodeData(t.id, t.value,
             if t.left.Node? then Some(Record(t.left)) else None,
             if t.right.Node? then Some(Record(t.right)) else None,
             Some(t.x), Some(t.y), Some(t.highlighted), Some(t.animating))
  }

  /** Building from the full record of a subtree gives back that subtree. */
  lemma {:induction false} BuildRecord(t: Tree)
    requires t.Node?
    ensures Build(Record(t)) == t
  {
    if t.left.Node? {
      BuildRecord(t.left);
    }
    if t.right.Node? {
      BuildRecord(t.right);
    }
  }

  /**
   * Absent children become empty subtrees, absent positions 0 and absent
   * flags false; present fields are copied.
   */
  lemma BuildDefaults(data: NodeData)
    ensures var t := Build(data);
      t.id == data.id && t.value == data.value &&
      (data.left.None? <==> t.left.Nil?) && (data.right.None? <==> t.right.Nil?) &&
      (data.x.None? ==> t.x == 0) && (data.y.None? ==> t.y == 0) &&
      (data.highlighted.None? ==> !t.highlighted) && (data.animating.None? ==> !t.animating) &&
      (data.x.Some? ==> t.x == data.x.value) && (data.y.Some? ==> t.y == data.y.value) &&
      (data.highlighted.Some? ==> t.highlighted == data.highlighted.value) &&
      (data.animating.Some? ==> t.animating == data.animating.value)
  {
  }

  ghost function ReprOf(n: TreeNode?): set<TreeNode>
    reads n
  {
    if n == null then {} else n.Repr
  }

  ghost function ModelOf(n: TreeNode?): Tree
    reads n
  {
    if n == null then Nil else n.Model
  }

  class TreeNode {
    var id: int
    var value: int
    var left: TreeNode?
    var right: TreeNode?
    var x: int
    var y: int
    var highlighted: bool
    var animating: bool

    /** The objects of the subtree rooted here. */
    ghost var Repr: set<TreeNode>
    /** The snapshot of the subtree rooted here. */
    ghost var Model: Tree

    /** The children own disjoint parts of the heap, and `Model` describes the fields. */
    ghost predicate Valid()
      reads this, Repr
      decreases Repr
    {
      this in Repr &&
      (left != null ==>
        left in Repr && left.Repr <= Repr && this !in left.Repr && left.Valid()) &&
      (right != null ==>
        right in Repr && right.Repr <= Repr && this !in right.Repr && right.Valid()) &&
      (left != null && right != null ==> left.Repr !! right.Repr) &&
      Model == Node(id, value, if left == null then Nil else left.Model,
                    if right == null then Nil else right.Model, x, y, highlighted, animating)
    }

    /** Copies id and value, fills in the defaults, then builds the children recursively. */
    constructor (data: NodeData)
      ensures Valid() && fresh(Repr)
      ensures Model == Build(data)
      decreases data
    {
      id := data.id;
      value := data.value;
      left := null;
      right := null;
      x := OrElse(data.x, 0);
      y := OrElse(data.y, 0);
      highlighted := OrElse(data.highlighted, false);
      animating := OrElse(data.animating, false);
      Repr := {this};
      Model := Node(id, value, Nil, Nil, x, y, highlighted, animating);
      new;
      if data.left.Some? {
        var l := new TreeNode(data.left.value);
        AttachLeft(l);
      }
      if data.right.Some? {
        var r := new TreeNode(data.right.value);
        AttachRight(r);
      }
    }

    /**
     * Deep copy: a childless node with the same scalar fields, whose child
     * fields are then overwritten with copies of the children.
     */
    method Clone() returns (copy: TreeNode)
      requires Valid()
      ensures copy.Valid() && fresh(copy.Repr)
      ensures copy.Repr !! Repr
      ensures copy.Model == Model
      decreases Repr
    {
      copy := new TreeNode(NodeData(id, value, None, None,
                                    Some(x), Some(y), Some(highlighted), Some(animating)));
      if left != null {
        var c := left.Clone();
        copy.AttachLeft(c);
      }
      if right != null {
        var c := right.Clone();
        copy.AttachRight(c);
      }
    }

    /** `node.left = child` on a node that has no left child yet. */
    method AttachLeft(child: TreeNode?)
      requires Valid() && left == null
      requires child != null ==> child.Valid() && Repr !! child.Repr
      modifies this
      ensures Valid() && Repr == old(Repr) + ReprOf(child)
      ensures Model == old(Model).(left := ModelOf(child))
    {
      left := child;
      Repr := Repr + ReprOf(child);
      Model := Model.(left := ModelOf(child));
    }

    /** `node.left = l; node.right = r` for two valid, disjoint subtrees made of the node's own objects. */
    method Relink(l: TreeNode?, r: TreeNode?)
      requires this in Repr && ReprOf(l) + ReprOf(r) <= Repr
      requires l != null ==> l.Valid() && this !in l.Repr
      requires r != null ==> r.Valid() && this !in r.Repr
      requires l != null && r != null ==> l.Repr !! r.Repr
      modifies this
      ensures Valid() && Repr == old(Repr)
      ensures id == old(id) && value == old(value) && x == old(x) && y == old(y)
      ensures highlighted == old(highlighted) && animating == old(animating)
      ensures Model == Node(id, value, ModelOf(l), ModelOf(r), x, y, highlighted, animating)
    {
      left := l;
      right := r;
      Model := Node(id, value, ModelOf(l), ModelOf(r), x, y, highlighted, animating);
    }

    /** `node.right = child` on a node that has no right child yet. */
    method AttachRight(child: TreeNode?)
      requires Valid() && right == null
      requires child != null ==> child.Valid() && Repr !! child.Repr
      modifies this
      ensures Valid() && Repr == old(Repr) + ReprOf(child)
      ensures Model == old(Model).(right := ModelOf(child))
    {
      right := child;
      Repr := Repr + ReprOf(child);
      Model := Model.(right := ModelOf(child));
    }

    /** createExampleTree: the tree built from `ExampleData()`. */
    static method CreateExampleTree() returns (root: TreeNode)
      ensures root.Valid() && fresh(root.Repr)
      ensures root.Model == ExampleTree()
    {
      root := new TreeNode(ExampleData());
    }
  }

  /** The record of the example tree: 4 over (2 over 1, 3) and (7 over 6, 9). */
  function ExampleData(): NodeData
  {
    NodeData(1, 4,
      Some(NodeData(2, 2, Some(Leaf(4, 1)), Some(Leaf(5, 3)), None, None, None, None)),
      Some(NodeData(3, 7, Some(Leaf(6, 6)), Some(Leaf(7, 9)), None, None, None, None)),
      None, None, None, None)
  }

  function Leaf(id: int, value: int): NodeData
  {
    NodeData(id, value, None, None, None, None, None, None)
  }

  function ExampleTree(): Tree
  {
    Build(ExampleData())
  }
}
