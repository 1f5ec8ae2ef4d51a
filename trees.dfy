/**
 * Value-level view of the binary trees the visualiser works on.
 *
 * A `Tree` is a snapshot of a TreeNode object and everything reachable from
 * it: the node's identifier and value, its two children, its layout position
 * and its two display flags. The heap objects themselves are modelled in
 * module TreeNodes; every heap node carries its snapshot as a ghost field.
 */
module Trees {

  datatype Option<T> = None | Some(value: T)

  datatype Tree =
    | Nil
    | Node(id: int, value: int, left: Tree, right: Tree,
           x: int, y: int, highlighted: bool, animating: bool)

  /** Number of nodes. */
  function Size(t: Tree): nat
  {
    if t.Nil? then 0 else 1 + Size(t.left) + Size(t.right)
  }

  function Max(a: int, b: int): int
  {
    if a < b then b else a
  }

  function Pow2(n: nat): (p: nat)
    ensures p >= 1
  {
    if n == 0 then 1 else 2 * Pow2(n - 1)
  }

  /** getTreeHeight: 0 for the empty tree, else one more than the taller child. */
  function Height(t: Tree): (h: nat)
    ensures h <= Size(t)
  {
    if t.Nil? then 0 else Max(Height(t.left), Height(t.right)) + 1
  }

  /** The identifiers of the nodes, listed root first, then left subtree, then right subtree. */
  function Ids(t: Tree): (ids: seq<int>)
    ensures |ids| == Size(t)
  {
    if t.Nil? then [] else [t.id] + Ids(t.left) + Ids(t.right)
  }

  /** The values of the nodes, in the same order as `Ids`. */
  function Values(t: Tree): (vs: seq<int>)
    ensures |vs| == Size(t)
  {
    if t.Nil? then [] else [t.value] + Values(t.left) + Values(t.right)
  }

  /** No identifier occurs twice in the tree. */
  ghost predicate UniqueIds(t: Tree)
  {
    forall k :: multiset(Ids(t))[k] <= 1
  }

  /** The tree with its layout positions and display flags reset: shape, ids and values only. */
  function Strip(t: Tree): Tree
  {
    if t.Nil? then Nil
    else Node(t.id, t.value, Strip(t.left), Strip(t.right), 0, 0, false, false)
  }

  /** A tree has at most 2^h - 1 nodes and at least h, where h is its height. */
  lemma {:induction false} HeightBounds(t: Tree)
    ensures Height(t) <= Size(t) < Pow2(Height(t))
  {
    if t.Node? {
      HeightBounds(t.left);
      HeightBounds(t.right);
      var hl, hr := Height(t.left), Height(t.right);
      var h := Max(hl, hr);
      assert Height(t) == h + 1;
      PowMonotone(hl, h);
      PowMonotone(hr, h);
      assert Pow2(h + 1) == 2 * Pow2(h);
      assert Size(t) == 1 + Size(t.left) + Size(t.right);
      TwoBelow(Size(t.left), Size(t.right), Pow2(h));
    }
  }

  lemma TwoBelow(a: nat, b: nat, p: nat)
    requires a < p && b < p
    ensures 1 + a + b < 2 * p
  {
  }

  lemma {:induction false} PowMonotone(a: nat, b: nat)
    requires a <= b
    ensures Pow2(a) <= Pow2(b)
  {
    if a < b {
      PowMonotone(a, b - 1);
    }
  }

  /** What unique identifiers say about the root and the two subtrees. */
  lemma UniqueIdsNode(t: Tree)
    requires t.Node? && UniqueIds(t)
    ensures t.id !in Ids(t.left) && t.id !in Ids(t.right)
    ensures forall k :: k in Ids(t.left) ==> k !in Ids(t.right)
    ensures UniqueIds(t.left) && UniqueIds(t.right)
  {
    var l, r := Ids(t.left), Ids(t.right);
    assert Ids(t) == [t.id] + l + r;
    assert multiset(Ids(t)) == multiset([t.id]) + multiset(l) + multiset(r);
    forall k ensures multiset(l)[k] <= 1 && multiset(r)[k] <= 1 {
      assert multiset(Ids(t))[k] <= 1;
    }
    forall k | k in l ensures k !in r {
      assert multiset(Ids(t))[k] <= 1;
    }
    assert multiset(Ids(t))[t.id] <= 1;
  }
}
