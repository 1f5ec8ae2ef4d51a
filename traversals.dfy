/**
 * Reference traversal orders over tree snapshots, and the FIFO and LIFO
 * worklist disciplines that the breadth-first and stack-based loops of the
 * visualiser follow.
 *
 * The central facts are that draining a FIFO worklist seeded with a tree
 * visits its nodes level by level, left to right (`QueueOrderIsLevelOrder`),
 * and that draining a LIFO worklist into which the right child is pushed
 * before the left one visits them in pre-order (`StackOrderIsPreOrder`).
 */
module Traversals {
  import opened Trees

  /** A tree that is not empty: the element type of every worklist and traversal. */
  type NodeTree = t: Tree | t.Node? witness Node(0, 0, Nil, Nil, 0, 0, false, false)

  /** One field of every node of a sequence, in order. */
  function Project(s: seq<NodeTree>, field: NodeTree -> int): (r: seq<int>)
    ensures |r| == |s|
  {
    seq(|s|, i requires 0 <= i < |s| => field(s[i]))
  }

  function IdOf(t: NodeTree): int
  {
    t.id
  }

  function ValueOf(t: NodeTree): int
  {
    t.value
  }

  function IdsOf(s: seq<NodeTree>): seq<int>
  {
    Project(s, IdOf)
  }

  function ValuesOf(s: seq<NodeTree>): seq<int>
  {
    Project(s, ValueOf)
  }

  /** Every node of `t` (as the subtree rooted there): root, left subtree, right subtree. */
  function PreOrder(t: Tree): (s: seq<NodeTree>)
    ensures |s| == Size(t)
  {
    if t.Nil? then [] else [t] + PreOrder(t.left) + PreOrder(t.right)
  }

  /** Every node of `t`: left subtree, right subtree, then the root. */
  function PostOrder(t: Tree): (s: seq<NodeTree>)
    ensures |s| == Size(t)
  {
    if t.Nil? then [] else PostOrder(t.left) + PostOrder(t.right) + [t]
  }

  /** The nodes at depth `d` of `t`, left to right. */
  function Level(t: Tree, d: nat): seq<NodeTree>
  {
    if t.Nil? then []
    else if d == 0 then [t]
    else Level(t.left, d - 1) + Level(t.right, d - 1)
  }

  /** The nodes at depth `d` of each tree of a forest, tree after tree. */
  function LevelF(f: seq<Tree>, d: nat): seq<NodeTree>
  {
    if f == [] then [] else Level(f[0], d) + LevelF(f[1..], d)
  }

  /** Levels `lo` up to (not including) `hi` of a forest, one after the other. */
  function LevelRange(f: seq<Tree>, lo: nat, hi: nat): seq<NodeTree>
    decreases hi - lo
  {
    if hi <= lo then [] else LevelF(f, lo) + LevelRange(f, lo + 1, hi)
  }

  /** Level-order enumeration: depth 0, then depth 1, ..., each level left to right. */
  function LevelOrder(t: Tree): seq<NodeTree>
  {
    LevelRange([t], 0, Height(t))
  }

  /** The children a breadth-first loop enqueues for `t`: left first, then right. */
  function Kids(t: NodeTree): seq<NodeTree>
  {
    (if t.left.Node? then [t.left] else []) + (if t.right.Node? then [t.right] else [])
  }

  /** The children a stack-based loop pushes for `t`: right first, then left (on top). */
  function RevKids(t: NodeTree): seq<NodeTree>
  {
    (if t.right.Node? then [t.right] else []) + (if t.left.Node? then [t.left] else [])
  }

  /** The children of every tree of a forest, in order. */
  function Children(f: seq<NodeTree>): seq<NodeTree>
  {
    if f == [] then [] else Kids(f[0]) + Children(f[1..])
  }

  function ForestSize(f: seq<Tree>): nat
  {
    if f == [] then 0 else Size(f[0]) + ForestSize(f[1..])
  }

  /**
   * The order in which a FIFO worklist holding `q` hands out nodes when each
   * node taken from the front has its children appended at the back.
   */
  function QueueOrder(q: seq<NodeTree>): seq<NodeTree>
    decreases ForestSize(q)
  {
    if q == [] then []
    else
      ForestSizeAppend(q[1..], Kids(q[0]));
      KidsSize(q[0]);
      [q[0]] + QueueOrder(q[1..] + Kids(q[0]))
  }

  /**
   * The order in which a LIFO worklist `s` (top at the end) hands out nodes
   * when each node popped has its right and then its left child pushed.
   */
  function StackOrder(s: seq<NodeTree>): seq<NodeTree>
    decreases ForestSize(s)
  {
    if s == [] then []
    else
      var top := s[|s| - 1];
      assert s == s[..|s| - 1] + [top];
      ForestSizeAppend(s[..|s| - 1], [top]);
      ForestSizeAppend(s[..|s| - 1], RevKids(top));
      KidsSize(top);
      [top] + StackOrder(s[..|s| - 1] + RevKids(top))
  }

  lemma Associative3<T>(a: seq<T>, b: seq<T>, c: seq<T>)
    ensures a + (b + c) == a + b + c
  {
  }

  /** Taking the front of `f + g` and appending `k` to the remainder. */
  lemma FrontOfAppend<T>(f: seq<T>, g: seq<T>, k: seq<T>)
    requires f != []
    ensures (f + g)[0] == f[0] && (f + g)[1..] + k == f[1..] + (g + k)
    ensures f == [f[0]] + f[1..]
  {
  }

  /** Empty pieces of a concatenation can be dropped. */
  lemma EmptyMiddle<T>(a: seq<T>, b: seq<T>, c: seq<T>)
    ensures a == [] ==> a + b + c == b + c
    ensures b == [] ==> a + b + c == a + c
    ensures c == [] ==> a + b + c == a + b
  {
  }

  lemma Associative<T>(a: seq<T>, b: seq<T>, c: seq<T>, d: seq<T>)
    ensures a + (b + c + d) == a + b + c + d
  {
  }

  // ---------------------------------------------------------------------
  // Sizes of forests

  lemma {:induction false} ForestSizeAppend(a: seq<Tree>, b: seq<Tree>)
    ensures ForestSize(a + b) == ForestSize(a) + ForestSize(b)
  {
    if a == [] {
      assert a + b == b;
    } else {
      assert (a + b)[0] == a[0];
      assert (a + b)[1..] == a[1..] + b;
      ForestSizeAppend(a[1..], b);
    }
  }

  lemma KidsSize(t: NodeTree)
    ensures ForestSize(Kids(t)) == Size(t) - 1
    ensures ForestSize(RevKids(t)) == Size(t) - 1
  {
    var l: seq<Tree> := if t.left.Node? then [t.left] else [];
    var r: seq<Tree> := if t.right.Node? then [t.right] else [];
    ForestSizeAppend(l, r);
    ForestSizeAppend(r, l);
  }

  /** Taking the front node of a queue and appending its children shrinks the queue's total size. */
  lemma QueueShrinks(q: seq<NodeTree>)
    requires q != []
    ensures ForestSize(q[1..] + Kids(q[0])) == ForestSize(q) - 1
  {
    ForestSizeAppend(q[1..], Kids(q[0]));
    KidsSize(q[0]);
  }

  /** Popping the top node of a stack and pushing its children shrinks the stack's total size. */
  lemma StackShrinks(s: seq<NodeTree>)
    requires s != []
    ensures ForestSize(s[..|s| - 1] + RevKids(s[|s| - 1])) == ForestSize(s) - 1
  {
    var top := s[|s| - 1];
    assert s == s[..|s| - 1] + [top];
    ForestSizeAppend(s[..|s| - 1], [top]);
    ForestSizeAppend(s[..|s| - 1], RevKids(top));
    KidsSize(top);
  }

  lemma {:induction false} ChildrenSize(f: seq<NodeTree>)
    ensures ForestSize(Children(f)) + |f| == ForestSize(f)
  {
    if f != [] {
      ChildrenSize(f[1..]);
      KidsSize(f[0]);
      ForestSizeAppend(Kids(f[0]), Children(f[1..]));
    }
  }

  // ---------------------------------------------------------------------
  // Levels

  lemma {:induction false} LevelFAppend(f: seq<Tree>, g: seq<Tree>, d: nat)
    ensures LevelF(f + g, d) == LevelF(f, d) + LevelF(g, d)
  {
    if f == [] {
      assert f + g == g;
    } else {
      assert (f + g)[0] == f[0];
      assert (f + g)[1..] == f[1..] + g;
      LevelFAppend(f[1..], g, d);
    }
  }

  lemma KidsLevel(t: NodeTree, d: nat)
    ensures LevelF(Kids(t), d) == Level(t, d + 1)
  {
    var l: seq<Tree> := if t.left.Node? then [t.left] else [];
    var r: seq<Tree> := if t.right.Node? then [t.right] else [];
    LevelFAppend(l, r, d);
    assert LevelF(l, d) == Level(t.left, d);
    assert LevelF(r, d) == Level(t.right, d);
  }

  /** The nodes at depth d + 1 of a forest are the nodes at depth d of its children. */
  lemma {:induction false} LevelFChildren(f: seq<NodeTree>, d: nat)
    ensures LevelF(Children(f), d) == LevelF(f, d + 1)
  {
    if f != [] {
      LevelFAppend(Kids(f[0]), Children(f[1..]), d);
      KidsLevel(f[0], d);
      LevelFChildren(f[1..], d);
    }
  }

  lemma {:induction false} LevelFRoots(f: seq<NodeTree>)
    ensures LevelF(f, 0) == f
  {
    if f != [] {
      LevelFRoots(f[1..]);
      assert f == [f[0]] + f[1..];
    }
  }

  lemma {:induction false} LevelRangeShift(f: seq<NodeTree>, lo: nat, hi: nat)
    ensures LevelRange(Children(f), lo, hi) == LevelRange(f, lo + 1, hi + 1)
    decreases hi - lo
  {
    if lo < hi {
      LevelFChildren(f, lo);
      LevelRangeShift(f, lo + 1, hi);
    }
  }

  lemma {:induction false} LevelRangeEmpty(lo: nat, hi: nat)
    ensures LevelRange([], lo, hi) == []
    decreases hi - lo
  {
    if lo < hi {
      LevelRangeEmpty(lo + 1, hi);
    }
  }

  ghost predicate HeightsAtMost(f: seq<Tree>, k: nat)
  {
    forall i :: 0 <= i < |f| ==> Height(f[i]) <= k
  }

  lemma {:induction false} ChildrenHeights(f: seq<NodeTree>, k: nat)
    requires HeightsAtMost(f, k + 1)
    ensures HeightsAtMost(Children(f), k)
  {
    if f != [] {
      assert HeightsAtMost(f[1..], k + 1) by {
        forall i | 0 <= i < |f[1..]| ensures Height(f[1..][i]) <= k + 1 {
          assert f[1..][i] == f[i + 1];
        }
      }
      ChildrenHeights(f[1..], k);
      assert Height(f[0]) <= k + 1;
      assert HeightsAtMost(Kids(f[0]), k);
    }
  }

  // ---------------------------------------------------------------------
  // The FIFO worklist

  /** One round of the FIFO worklist: the front node, then the rest with its children appended. */
  lemma QueueOrderFront(q: seq<NodeTree>)
    requires q != []
    ensures QueueOrder(q) == [q[0]] + QueueOrder(q[1..] + Kids(q[0]))
  {
  }

  /** Draining `f + g` hands out all of `f` first, then drains `g` followed by the children of `f`. */
  lemma {:induction false} QueueOrderAppend(f: seq<NodeTree>, g: seq<NodeTree>)
    ensures QueueOrder(f + g) == f + QueueOrder(g + Children(f))
    decreases |f|
  {
    if f == [] {
      assert f + g == g + Children(f);
    } else {
      var x, tail := f[0], f[1..];
      FrontOfAppend(f, g, Kids(x));
      QueueOrderFront(f + g);
      QueueOrderAppend(tail, g + Kids(x));
      Associative3(g, Kids(x), Children(tail));
      Associative3([x], tail, QueueOrder(g + Children(f)));
    }
  }

  lemma {:induction false} QueueOrderLevels(f: seq<NodeTree>, k: nat)
    requires HeightsAtMost(f, k)
    ensures QueueOrder(f) == LevelRange(f, 0, k)
    decreases ForestSize(f)
  {
    if f == [] {
      LevelRangeEmpty(0, k);
    } else {
      assert k >= 1 by {
        assert Height(f[0]) <= k;
      }
      QueueOrderAppend(f, []);
      assert f + [] == f && [] + Children(f) == Children(f);
      ChildrenSize(f);
      ChildrenHeights(f, k - 1);
      QueueOrderLevels(Children(f), k - 1);
      LevelRangeShift(f, 0, k - 1);
      LevelFRoots(f);
    }
  }

  /** A FIFO worklist seeded with a tree hands out its nodes in level order. */
  lemma QueueOrderIsLevelOrder(t: NodeTree)
    ensures QueueOrder([t]) == LevelOrder(t)
  {
    QueueOrderLevels([t], Height(t));
  }

  // ---------------------------------------------------------------------
  // The LIFO worklist

  lemma StackOrderPop(s: seq<NodeTree>, t: NodeTree)
    ensures StackOrder(s + [t]) == [t] + StackOrder(s + RevKids(t))
  {
    var s' := s + [t];
    assert s'[..|s'| - 1] == s && s'[|s'| - 1] == t;
  }

  /** Pushing a tree onto a stack hands out its whole pre-order before anything below it. */
  lemma {:induction false} StackOrderPush(s: seq<NodeTree>, t: NodeTree)
    ensures StackOrder(s + [t]) == PreOrder(t) + StackOrder(s)
    decreases t, 1
  {
    StackOrderPop(s, t);
    StackOrderPushKids(s, t);
    Associative([t], PreOrder(t.left), PreOrder(t.right), StackOrder(s));
  }

  lemma {:induction false} StackOrderPushKids(s: seq<NodeTree>, t: NodeTree)
    ensures StackOrder(s + RevKids(t)) == PreOrder(t.left) + PreOrder(t.right) + StackOrder(s)
    decreases t, 0
  {
    var l, r := t.left, t.right;
    if l.Node? && r.Node? {
      assert RevKids(t) == [r] + [l];
      Associative3(s, [r], [l]);
      StackOrderPush(s + [r], l);
      StackOrderPush(s, r);
      Associative3(PreOrder(l), PreOrder(r), StackOrder(s));
    } else if l.Node? {
      assert RevKids(t) == [l];
      StackOrderPush(s, l);
      EmptyMiddle(PreOrder(l), PreOrder(r), StackOrder(s));
    } else if r.Node? {
      assert RevKids(t) == [r];
      StackOrderPush(s, r);
      EmptyMiddle(PreOrder(l), PreOrder(r), StackOrder(s));
    } else {
      assert s + RevKids(t) == s;
      EmptyMiddle(PreOrder(l), PreOrder(r), StackOrder(s));
    }
  }

  /** A LIFO worklist seeded with a tree hands out its nodes in pre-order. */
  lemma StackOrderIsPreOrder(t: NodeTree)
    ensures StackOrder([t]) == PreOrder(t)
  {
    StackOrderPush([], t);
    assert [] + [t] == [t];
  }

  // ---------------------------------------------------------------------
  // Every order is a permutation of the nodes

  lemma {:induction false} PostOrderPermutation(t: Tree)
    ensures multiset(PostOrder(t)) == multiset(PreOrder(t))
  {
    if t.Node? {
      PostOrderPermutation(t.left);
      PostOrderPermutation(t.right);
    }
  }

  lemma LevelFSingle(t: Tree, d: nat)
    ensures LevelF([t], d) == Level(t, d)
  {
    assert LevelF([t], d) == Level(t, d) + LevelF([], d);
  }

  /** The nodes of every tree of a forest, each tree in pre-order, tree after tree. */
  function Flatten(q: seq<Tree>): seq<NodeTree>
  {
    if q == [] then [] else PreOrder(q[0]) + Flatten(q[1..])
  }

  lemma {:induction false} FlattenAppend(a: seq<Tree>, b: seq<Tree>)
    ensures Flatten(a + b) == Flatten(a) + Flatten(b)
  {
    if a == [] {
      assert a + b == b;
    } else {
      assert (a + b)[0] == a[0] && (a + b)[1..] == a[1..] + b;
      FlattenAppend(a[1..], b);
      Associative3(PreOrder(a[0]), Flatten(a[1..]), Flatten(b));
    }
  }

  /** The children a queue receives hold the two subtrees' nodes, left then right. */
  lemma FlattenKids(t: NodeTree)
    ensures Flatten(Kids(t)) == PreOrder(t.left) + PreOrder(t.right)
  {
    var l := if t.left.Node? then [t.left] else [];
    var r := if t.right.Node? then [t.right] else [];
    FlattenAppend(l, r);
    assert Flatten(l) == PreOrder(t.left);
    assert Flatten(r) == PreOrder(t.right);
  }

  /** A FIFO worklist hands out every node of its trees exactly once. */
  lemma {:induction false} QueueOrderPermutation(q: seq<NodeTree>)
    ensures multiset(QueueOrder(q)) == multiset(Flatten(q))
    decreases ForestSize(q)
  {
    if q != [] {
      var x := q[0];
      var next := q[1..] + Kids(x);
      QueueShrinks(q);
      QueueOrderPermutation(next);
      FlattenAppend(q[1..], Kids(x));
      FlattenKids(x);
      assert QueueOrder(q) == [x] + QueueOrder(next);
      assert Flatten(q) == [x] + PreOrder(x.left) + PreOrder(x.right) + Flatten(q[1..]);
    }
  }

  /** Level order lists every node exactly as often as pre-order does. */
  lemma LevelOrderPermutation(t: Tree)
    ensures multiset(LevelOrder(t)) == multiset(PreOrder(t))
    ensures |LevelOrder(t)| == Size(t)
  {
    if t.Node? {
      QueueOrderIsLevelOrder(t);
      QueueOrderPermutation([t]);
      assert Flatten([t]) == PreOrder(t) + [];
    } else {
      assert LevelOrder(t) == [];
    }
    assert |multiset(LevelOrder(t))| == |multiset(PreOrder(t))|;
  }

  // ---------------------------------------------------------------------
  // Identifiers

  lemma ProjectIndex(s: seq<NodeTree>, field: NodeTree -> int, k: int)
    requires 0 <= k < |s|
    ensures Project(s, field)[k] == field(s[k])
  {
  }

  lemma ProjectSingle(t: NodeTree, field: NodeTree -> int)
    ensures Project([t], field) == [field(t)]
  {
  }

  lemma ProjectAppend(a: seq<NodeTree>, b: seq<NodeTree>, field: NodeTree -> int)
    ensures Project(a + b, field) == Project(a, field) + Project(b, field)
  {
  }

  lemma {:induction false} IdsOfPreOrder(t: Tree)
    ensures IdsOf(PreOrder(t)) == Ids(t)
  {
    if t.Node? {
      IdsOfPreOrder(t.left);
      IdsOfPreOrder(t.right);
      assert Project([t], IdOf) == [t.id];
      ProjectAppend([t], PreOrder(t.left), IdOf);
      ProjectAppend([t] + PreOrder(t.left), PreOrder(t.right), IdOf);
    }
  }

  lemma {:induction false} ValuesOfPreOrder(t: Tree)
    ensures ValuesOf(PreOrder(t)) == Values(t)
  {
    if t.Node? {
      ValuesOfPreOrder(t.left);
      ValuesOfPreOrder(t.right);
      assert Project([t], ValueOf) == [t.value];
      ProjectAppend([t], PreOrder(t.left), ValueOf);
      ProjectAppend([t] + PreOrder(t.left), PreOrder(t.right), ValueOf);
    }
  }

  lemma CancelOne<T>(m: multiset<T>, a: multiset<T>, b: multiset<T>)
    requires m + a == m + b
    ensures a == b
  {
    forall y ensures a[y] == b[y] {
      assert (m + a)[y] == (m + b)[y];
    }
  }

  /** Reordering the nodes reorders any projection of them the same way. */
  lemma {:induction false} ProjectPermutation(a: seq<NodeTree>, b: seq<NodeTree>, field: NodeTree -> int)
    requires multiset(a) == multiset(b)
    ensures multiset(Project(a, field)) == multiset(Project(b, field))
    decreases |a|
  {
    if a == [] {
      assert |b| == |multiset(b)| == 0;
    } else {
      var x := a[0];
      assert x in multiset(b);
      var j :| 0 <= j < |b| && b[j] == x;
      var b' := b[..j] + b[j + 1..];
      assert b == b[..j] + [x] + b[j + 1..];
      assert a == [x] + a[1..];
      assert multiset(a) == multiset([x]) + multiset(a[1..]);
      assert multiset(b) == multiset(b[..j]) + multiset([x]) + multiset(b[j + 1..]);
      assert multiset(b') == multiset(b[..j]) + multiset(b[j + 1..]);
      CancelOne(multiset{x}, multiset(a[1..]), multiset(b'));
      ProjectPermutation(a[1..], b', field);
      ProjectAppend([x], a[1..], field);
      ProjectAppend(b[..j], [x], field);
      ProjectAppend(b[..j] + [x], b[j + 1..], field);
      ProjectAppend(b[..j], b[j + 1..], field);
    }
  }
}
