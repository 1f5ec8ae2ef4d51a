/**
 * What the three strategies of the step generator promise: how many steps
 * they emit and when the clock stops, that the clock strictly increases,
 * that every node is swapped exactly once and in which order, that every
 * swap is followed at once by the unhighlight of the same node, and that
 * the recursive strategy finishes a left subtree before it touches the
 * right one.
 *
 * Each fact is first proved as an invariant of the state a strategy
 * extends (`RecRun(t, r)` from any state `r`), then read off for a whole
 * run (`Generate`).
 */
module InversionProperties {
  import opened Trees
  import opened Traversals
  import opened TreeInversion

  // ---------------------------------------------------------------------
  // Reading a list of steps

  /** The node ids of the steps selected by `keep`, in list order. */
  function Targets(s: seq<Step>, keep: Step -> bool): seq<int>
  {
    if s == [] then []
    else
      var last := s[|s| - 1];
      Targets(s[..|s| - 1], keep) + (if keep(last) && last.nodeId.Some? then [last.nodeId.value] else [])
  }

  predicate IsSwap(st: Step)
  {
    st.kind == Swap
  }

  predicate IsVisit(st: Step)
  {
    st.message.VisitNode?
  }

  predicate IsDequeue(st: Step)
  {
    st.message.Dequeued?
  }

  predicate IsPop(st: Step)
  {
    st.message.Popped?
  }

  /** A later state only appends to the list of an earlier one. */
  ghost predicate Extends(later: Run, earlier: Run)
  {
    |earlier.steps| <= |later.steps| && later.steps[..|earlier.steps|] == earlier.steps
  }

  /** Every step is stamped before the clock's current value, and stamps strictly increase. */
  ghost predicate Paced(r: Run)
  {
    (forall i :: 0 <= i < |r.steps| ==> r.steps[i].timestamp < r.timestamp) &&
    (forall i, j :: 0 <= i < j < |r.steps| ==> r.steps[i].timestamp < r.steps[j].timestamp)
  }

  /** Every swap step is immediately followed by the unhighlight of the same node. */
  ghost predicate Settled(s: seq<Step>)
  {
    forall i :: 0 <= i < |s| && s[i].kind == Swap ==>
      i + 1 < |s| && s[i + 1].kind == Unhighlight && s[i + 1].nodeId == s[i].nodeId
  }

  // ---------------------------------------------------------------------
  // One push

  lemma TargetsPush(r: Run, kind: StepKind, nodeId: int, message: Message, pause: int, keep: Step -> bool)
    ensures Targets(Push(r, kind, nodeId, message, pause).steps, keep) ==
            Targets(r.steps, keep) + (if keep(Step(kind, Some(nodeId), message, r.timestamp)) then [nodeId] else [])
  {
    var s := Push(r, kind, nodeId, message, pause).steps;
    assert s[..|s| - 1] == r.steps;
  }

  /** A push with a positive pause keeps the clock ahead of every stamp. */
  lemma PushPaced(r: Run, kind: StepKind, nodeId: int, message: Message, pause: int)
    requires Paced(r) && pause > 0
    ensures Paced(Push(r, kind, nodeId, message, pause))
  {
  }

  /** A swap pushed together with its unhighlight keeps the list settled; so does any other push. */
  lemma PushSettled(r: Run, kind: StepKind, nodeId: int, message: Message, pause: int)
    requires Settled(r.steps) && kind != Swap
    ensures Settled(Push(r, kind, nodeId, message, pause).steps)
  {
    var s := Push(r, kind, nodeId, message, pause).steps;
    assert forall i :: 0 <= i < |r.steps| ==> s[i] == r.steps[i];
  }

  lemma PushSwapSettled(r: Run, nodeId: int, m1: Message, p1: int, m2: Message, p2: int)
    requires Settled(r.steps)
    ensures Settled(Push(Push(r, Swap, nodeId, m1, p1), Unhighlight, nodeId, m2, p2).steps)
  {
    var s := Push(Push(r, Swap, nodeId, m1, p1), Unhighlight, nodeId, m2, p2).steps;
    assert forall i :: 0 <= i < |r.steps| ==> s[i] == r.steps[i];
  }

  lemma ExtendsTransitive(a: Run, b: Run, c: Run)
    requires Extends(c, b) && Extends(b, a)
    ensures Extends(c, a)
  {
    assert c.steps[..|a.steps|] == c.steps[..|b.steps|][..|a.steps|];
  }

  lemma PushExtends(r: Run, kind: StepKind, nodeId: int, message: Message, pause: int)
    ensures Extends(Push(r, kind, nodeId, message, pause), r)
  {
  }

  // ---------------------------------------------------------------------
  // The recursive strategy

  /** The recursive strategy only appends to the list. */
  lemma {:induction false} RecRunExtends(t: Tree, r: Run)
    ensures Extends(RecRun(t, r), r)
    decreases t, 1
  {
    if t.Node? {
      var visited := Push(r, Highlight, t.id, VisitNode(t.value), 500);
      var afterLeft := Descend(t.left, DescendLeft, visited);
      var afterRight := Descend(t.right, DescendRight, afterLeft);
      var swapped := Push(afterRight, Swap, t.id, SwapChildren(t.value), 700);
      PushExtends(r, Highlight, t.id, VisitNode(t.value), 500);
      DescendExtends(t.left, DescendLeft, visited);
      DescendExtends(t.right, DescendRight, afterLeft);
      PushExtends(afterRight, Swap, t.id, SwapChildren(t.value), 700);
      PushExtends(swapped, Unhighlight, t.id, FinishNode(t.value), 300);
      ExtendsTransitive(r, visited, afterLeft);
      ExtendsTransitive(r, afterLeft, afterRight);
      ExtendsTransitive(r, afterRight, swapped);
      ExtendsTransitive(r, swapped, RecRun(t, r));
    }
  }

  lemma {:induction false} DescendExtends(child: Tree, message: Message, r: Run)
    ensures Extends(Descend(child, message, r), r)
    decreases child, 2
  {
    if child.Node? {
      var d := Push(r, Highlight, child.id, message, 300);
      PushExtends(r, Highlight, child.id, message, 300);
      RecRunExtends(child, d);
      ExtendsTransitive(r, d, RecRun(child, d));
    }
  }

  /** The recursive strategy keeps the clock ahead of every stamp and the stamps increasing. */
  lemma {:induction false} RecRunPaced(t: Tree, r: Run)
    requires Paced(r)
    ensures Paced(RecRun(t, r))
    decreases t, 1
  {
    if t.Node? {
      var visited := Push(r, Highlight, t.id, VisitNode(t.value), 500);
      var afterLeft := Descend(t.left, DescendLeft, visited);
      var afterRight := Descend(t.right, DescendRight, afterLeft);
      var swapped := Push(afterRight, Swap, t.id, SwapChildren(t.value), 700);
      PushPaced(r, Highlight, t.id, VisitNode(t.value), 500);
      DescendPaced(t.left, DescendLeft, visited);
      DescendPaced(t.right, DescendRight, afterLeft);
      PushPaced(afterRight, Swap, t.id, SwapChildren(t.value), 700);
      PushPaced(swapped, Unhighlight, t.id, FinishNode(t.value), 300);
    }
  }

  lemma {:induction false} DescendPaced(child: Tree, message: Message, r: Run)
    requires Paced(r)
    ensures Paced(Descend(child, message, r))
    decreases child, 2
  {
    if child.Node? {
      PushPaced(r, Highlight, child.id, message, 300);
      RecRunPaced(child, Push(r, Highlight, child.id, message, 300));
    }
  }

  /** The recursive strategy keeps every swap immediately followed by its unhighlight. */
  lemma {:induction false} RecRunSettled(t: Tree, r: Run)
    requires Settled(r.steps)
    ensures Settled(RecRun(t, r).steps)
    decreases t, 1
  {
    if t.Node? {
      var visited := Push(r, Highlight, t.id, VisitNode(t.value), 500);
      var afterLeft := Descend(t.left, DescendLeft, visited);
      var afterRight := Descend(t.right, DescendRight, afterLeft);
      PushSettled(r, Highlight, t.id, VisitNode(t.value), 500);
      DescendSettled(t.left, DescendLeft, visited);
      DescendSettled(t.right, DescendRight, afterLeft);
      PushSwapSettled(afterRight, t.id, SwapChildren(t.value), 700, FinishNode(t.value), 300);
    }
  }

  lemma {:induction false} DescendSettled(child: Tree, message: Message, r: Run)
    requires Settled(r.steps)
    ensures Settled(Descend(child, message, r).steps)
    decreases child, 2
  {
    if child.Node? {
      PushSettled(r, Highlight, child.id, message, 300);
      RecRunSettled(child, Push(r, Highlight, child.id, message, 300));
    }
  }

  /**
   * The recursive strategy emits 3 steps per node plus one descent per
   * non-root node, and advances the clock by 1500 per node plus 300 per
   * descent.
   */
  lemma {:induction false} RecRunCount(t: Tree, r: Run)
    ensures |RecRun(t, r).steps| == |r.steps| + (if t.Nil? then 0 else 4 * Size(t) - 1)
    ensures RecRun(t, r).timestamp == r.timestamp + (if t.Nil? then 0 else 1800 * Size(t) - 300)
    decreases t, 1
  {
    if t.Node? {
      var visited := Push(r, Highlight, t.id, VisitNode(t.value), 500);
      var afterLeft := Descend(t.left, DescendLeft, visited);
      DescendCount(t.left, DescendLeft, visited);
      DescendCount(t.right, DescendRight, afterLeft);
    }
  }

  lemma {:induction false} DescendCount(child: Tree, message: Message, r: Run)
    ensures |Descend(child, message, r).steps| == |r.steps| + 4 * Size(child)
    ensures Descend(child, message, r).timestamp == r.timestamp + 1800 * Size(child)
    decreases child, 2
  {
    if child.Node? {
      RecRunCount(child, Push(r, Highlight, child.id, message, 300));
    }
  }

  /** The recursive strategy swaps the nodes in post-order. */
  lemma {:induction false} RecRunSwaps(t: Tree, r: Run)
    ensures Targets(RecRun(t, r).steps, IsSwap) == Targets(r.steps, IsSwap) + IdsOf(PostOrder(t))
    decreases t, 1
  {
    if t.Node? {
      var visited := Push(r, Highlight, t.id, VisitNode(t.value), 500);
      var afterLeft := Descend(t.left, DescendLeft, visited);
      var afterRight := Descend(t.right, DescendRight, afterLeft);
      var swapped := Push(afterRight, Swap, t.id, SwapChildren(t.value), 700);
      TargetsPush(r, Highlight, t.id, VisitNode(t.value), 500, IsSwap);
      DescendSwaps(t.left, DescendLeft, visited);
      DescendSwaps(t.right, DescendRight, afterLeft);
      TargetsPush(afterRight, Swap, t.id, SwapChildren(t.value), 700, IsSwap);
      TargetsPush(swapped, Unhighlight, t.id, FinishNode(t.value), 300, IsSwap);
      var before, left, right := Targets(r.steps, IsSwap), IdsOf(PostOrder(t.left)), IdsOf(PostOrder(t.right));
      assert Targets(visited.steps, IsSwap) == before;
      assert Targets(afterLeft.steps, IsSwap) == before + left;
      assert Targets(afterRight.steps, IsSwap) == before + left + right;
      assert RecRun(t, r) == Push(swapped, Unhighlight, t.id, FinishNode(t.value), 300);
      assert Targets(RecRun(t, r).steps, IsSwap) == before + left + right + [t.id];
      ProjectSingle(t, IdOf);
      ProjectAppend(PostOrder(t.left), PostOrder(t.right), IdOf);
      ProjectAppend(PostOrder(t.left) + PostOrder(t.right), [t], IdOf);
      assert IdsOf(PostOrder(t)) == left + right + [t.id];
      Associative(before, left, right, [t.id]);
    }
  }

  lemma {:induction false} DescendSwaps(child: Tree, message: Message, r: Run)
    ensures Targets(Descend(child, message, r).steps, IsSwap) == Targets(r.steps, IsSwap) + IdsOf(PostOrder(child))
    decreases child, 2
  {
    if child.Node? {
      TargetsPush(r, Highlight, child.id, message, 300, IsSwap);
      RecRunSwaps(child, Push(r, Highlight, child.id, message, 300));
    }
  }

  /** The recursive strategy visits the nodes in pre-order. */
  lemma {:induction false} RecRunVisits(t: Tree, r: Run)
    ensures Targets(RecRun(t, r).steps, IsVisit) == Targets(r.steps, IsVisit) + IdsOf(PreOrder(t))
    decreases t, 1
  {
    if t.Node? {
      var visited := Push(r, Highlight, t.id, VisitNode(t.value), 500);
      var afterLeft := Descend(t.left, DescendLeft, visited);
      var afterRight := Descend(t.right, DescendRight, afterLeft);
      var swapped := Push(afterRight, Swap, t.id, SwapChildren(t.value), 700);
      TargetsPush(r, Highlight, t.id, VisitNode(t.value), 500, IsVisit);
      DescendVisits(t.left, DescendLeft, visited);
      DescendVisits(t.right, DescendRight, afterLeft);
      TargetsPush(afterRight, Swap, t.id, SwapChildren(t.value), 700, IsVisit);
      TargetsPush(swapped, Unhighlight, t.id, FinishNode(t.value), 300, IsVisit);
      var before, left, right := Targets(r.steps, IsVisit), IdsOf(PreOrder(t.left)), IdsOf(PreOrder(t.right));
      assert Targets(visited.steps, IsVisit) == before + [t.id];
      assert Targets(afterLeft.steps, IsVisit) == before + [t.id] + left;
      assert Targets(afterRight.steps, IsVisit) == before + [t.id] + left + right;
      assert RecRun(t, r) == Push(swapped, Unhighlight, t.id, FinishNode(t.value), 300);
      assert Targets(RecRun(t, r).steps, IsVisit) == Targets(afterRight.steps, IsVisit);
      ProjectSingle(t, IdOf);
      ProjectAppend([t], PreOrder(t.left), IdOf);
      ProjectAppend([t] + PreOrder(t.left), PreOrder(t.right), IdOf);
      assert IdsOf(PreOrder(t)) == [t.id] + left + right;
      Associative(before, [t.id], left, right);
    }
  }

  lemma {:induction false} DescendVisits(child: Tree, message: Message, r: Run)
    requires !message.VisitNode?
    ensures Targets(Descend(child, message, r).steps, IsVisit) == Targets(r.steps, IsVisit) + IdsOf(PreOrder(child))
    decreases child, 2
  {
    if child.Node? {
      TargetsPush(r, Highlight, child.id, message, 300, IsVisit);
      RecRunVisits(child, Push(r, Highlight, child.id, message, 300));
    }
  }

  // ---------------------------------------------------------------------
  // The queue strategy

  /** Handling one dequeued node only appends: 3 steps plus one per enqueued child. */
  lemma QueueVisitCount(n: NodeTree, r: Run)
    ensures Extends(QueueVisit(n, r), r)
    ensures |QueueVisit(n, r).steps| == |r.steps| + 3 + |Kids(n)|
    ensures QueueVisit(n, r).timestamp == r.timestamp + 1300 + 200 * |Kids(n)|
  {
    var s := QueueVisit(n, r).steps;
    assert s[..|r.steps|] == r.steps;
  }

  lemma QueueVisitPaced(n: NodeTree, r: Run)
    requires Paced(r)
    ensures Paced(QueueVisit(n, r))
  {
    var taken := Push(r, Highlight, n.id, Dequeued(n.value), 300);
    PushPaced(r, Highlight, n.id, Dequeued(n.value), 300);
    var withLeft := taken;
    if n.left.Node? {
      PushPaced(taken, Highlight, n.left.id, EnqueueLeft(n.left.value), 200);
      withLeft := Push(taken, Highlight, n.left.id, EnqueueLeft(n.left.value), 200);
    }
    var withRight := withLeft;
    if n.right.Node? {
      PushPaced(withLeft, Highlight, n.right.id, EnqueueRight(n.right.value), 200);
      withRight := Push(withLeft, Highlight, n.right.id, EnqueueRight(n.right.value), 200);
    }
    PushPaced(withRight, Swap, n.id, SwapChildren(n.value), 700);
    PushPaced(Push(withRight, Swap, n.id, SwapChildren(n.value), 700), Unhighlight, n.id, FinishNode(n.value), 300);
  }

  lemma QueueVisitSettled(n: NodeTree, r: Run)
    requires Settled(r.steps)
    ensures Settled(QueueVisit(n, r).steps)
  {
    var taken := Push(r, Highlight, n.id, Dequeued(n.value), 300);
    PushSettled(r, Highlight, n.id, Dequeued(n.value), 300);
    var withLeft := taken;
    if n.left.Node? {
      PushSettled(taken, Highlight, n.left.id, EnqueueLeft(n.left.value), 200);
      withLeft := Push(taken, Highlight, n.left.id, EnqueueLeft(n.left.value), 200);
    }
    var withRight := withLeft;
    if n.right.Node? {
      PushSettled(withLeft, Highlight, n.right.id, EnqueueRight(n.right.value), 200);
      withRight := Push(withLeft, Highlight, n.right.id, EnqueueRight(n.right.value), 200);
    }
    PushSwapSettled(withRight, n.id, SwapChildren(n.value), 700, FinishNode(n.value), 300);
  }

  /** Handling one dequeued node adds exactly one swap, of that node. */
  lemma QueueVisitSwaps(n: NodeTree, r: Run)
    ensures Targets(QueueVisit(n, r).steps, IsSwap) == Targets(r.steps, IsSwap) + [n.id]
  {
    var before := Targets(r.steps, IsSwap);
    var taken := Push(r, Highlight, n.id, Dequeued(n.value), 300);
    TargetsPush(r, Highlight, n.id, Dequeued(n.value), 300, IsSwap);
    assert Targets(taken.steps, IsSwap) == before;
    var withLeft := taken;
    if n.left.Node? {
      TargetsPush(taken, Highlight, n.left.id, EnqueueLeft(n.left.value), 200, IsSwap);
      withLeft := Push(taken, Highlight, n.left.id, EnqueueLeft(n.left.value), 200);
    }
    assert Targets(withLeft.steps, IsSwap) == before;
    var withRight := withLeft;
    if n.right.Node? {
      TargetsPush(withLeft, Highlight, n.right.id, EnqueueRight(n.right.value), 200, IsSwap);
      withRight := Push(withLeft, Highlight, n.right.id, EnqueueRight(n.right.value), 200);
    }
    assert Targets(withRight.steps, IsSwap) == before;
    var swapped := Push(withRight, Swap, n.id, SwapChildren(n.value), 700);
    TargetsPush(withRight, Swap, n.id, SwapChildren(n.value), 700, IsSwap);
    assert Targets(swapped.steps, IsSwap) == before + [n.id];
    TargetsPush(swapped, Unhighlight, n.id, FinishNode(n.value), 300, IsSwap);
    assert QueueVisit(n, r) == Push(swapped, Unhighlight, n.id, FinishNode(n.value), 300);
  }

  /** Handling one dequeued node adds exactly one dequeue highlight, of that node. */
  lemma QueueVisitDequeues(n: NodeTree, r: Run)
    ensures Targets(QueueVisit(n, r).steps, IsDequeue) == Targets(r.steps, IsDequeue) + [n.id]
  {
    var before := Targets(r.steps, IsDequeue);
    var taken := Push(r, Highlight, n.id, Dequeued(n.value), 300);
    TargetsPush(r, Highlight, n.id, Dequeued(n.value), 300, IsDequeue);
    assert Targets(taken.steps, IsDequeue) == before + [n.id];
    var withLeft := taken;
    if n.left.Node? {
      TargetsPush(taken, Highlight, n.left.id, EnqueueLeft(n.left.value), 200, IsDequeue);
      withLeft := Push(taken, Highlight, n.left.id, EnqueueLeft(n.left.value), 200);
    }
    assert Targets(withLeft.steps, IsDequeue) == before + [n.id];
    var withRight := withLeft;
    if n.right.Node? {
      TargetsPush(withLeft, Highlight, n.right.id, EnqueueRight(n.right.value), 200, IsDequeue);
      withRight := Push(withLeft, Highlight, n.right.id, EnqueueRight(n.right.value), 200);
    }
    assert Targets(withRight.steps, IsDequeue) == before + [n.id];
    var swapped := Push(withRight, Swap, n.id, SwapChildren(n.value), 700);
    TargetsPush(withRight, Swap, n.id, SwapChildren(n.value), 700, IsDequeue);
    assert Targets(swapped.steps, IsDequeue) == before + [n.id];
    TargetsPush(swapped, Unhighlight, n.id, FinishNode(n.value), 300, IsDequeue);
    assert QueueVisit(n, r) == Push(swapped, Unhighlight, n.id, FinishNode(n.value), 300);
  }

  /**
   * Draining a queue only appends: 3 steps per node plus one per enqueued
   * node, and 1300 per node plus 200 per enqueued node on the clock.
   */
  lemma {:induction false} QueueRunCount(q: seq<NodeTree>, r: Run)
    ensures Extends(QueueRun(q, r), r)
    ensures |QueueRun(q, r).steps| == |r.steps| + 4 * ForestSize(q) - |q|
    ensures QueueRun(q, r).timestamp == r.timestamp + 1500 * ForestSize(q) - 200 * |q|
    decreases ForestSize(q)
  {
    if q != [] {
      QueueShrinks(q);
      var v := QueueVisit(q[0], r);
      QueueVisitCount(q[0], r);
      QueueRunCount(q[1..] + Kids(q[0]), v);
      ExtendsTransitive(r, v, QueueRun(q, r));
    }
  }

  lemma {:induction false} QueueRunPaced(q: seq<NodeTree>, r: Run)
    requires Paced(r)
    ensures Paced(QueueRun(q, r))
    decreases ForestSize(q)
  {
    if q != [] {
      QueueShrinks(q);
      QueueVisitPaced(q[0], r);
      QueueRunPaced(q[1..] + Kids(q[0]), QueueVisit(q[0], r));
    }
  }

  lemma {:induction false} QueueRunSettled(q: seq<NodeTree>, r: Run)
    requires Settled(r.steps)
    ensures Settled(QueueRun(q, r).steps)
    decreases ForestSize(q)
  {
    if q != [] {
      QueueShrinks(q);
      QueueVisitSettled(q[0], r);
      QueueRunSettled(q[1..] + Kids(q[0]), QueueVisit(q[0], r));
    }
  }

  /** Draining a queue swaps the nodes in the order the queue hands them out. */
  lemma {:induction false} QueueRunSwaps(q: seq<NodeTree>, r: Run)
    ensures Targets(QueueRun(q, r).steps, IsSwap) == Targets(r.steps, IsSwap) + IdsOf(QueueOrder(q))
    decreases ForestSize(q)
  {
    if q != [] {
      var rest := q[1..] + Kids(q[0]);
      QueueShrinks(q);
      QueueVisitSwaps(q[0], r);
      QueueRunSwaps(rest, QueueVisit(q[0], r));
      ProjectSingle(q[0], IdOf);
      ProjectAppend([q[0]], QueueOrder(rest), IdOf);
      assert IdsOf(QueueOrder(q)) == [q[0].id] + IdsOf(QueueOrder(rest));
      Associative3(Targets(r.steps, IsSwap), [q[0].id], IdsOf(QueueOrder(rest)));
    }
  }

  /** Draining a queue highlights the dequeued nodes in the order the queue hands them out. */
  lemma {:induction false} QueueRunDequeues(q: seq<NodeTree>, r: Run)
    ensures Targets(QueueRun(q, r).steps, IsDequeue) == Targets(r.steps, IsDequeue) + IdsOf(QueueOrder(q))
    decreases ForestSize(q)
  {
    if q != [] {
      var rest := q[1..] + Kids(q[0]);
      QueueShrinks(q);
      QueueVisitDequeues(q[0], r);
      QueueRunDequeues(rest, QueueVisit(q[0], r));
      ProjectSingle(q[0], IdOf);
      ProjectAppend([q[0]], QueueOrder(rest), IdOf);
      assert IdsOf(QueueOrder(q)) == [q[0].id] + IdsOf(QueueOrder(rest));
      Associative3(Targets(r.steps, IsDequeue), [q[0].id], IdsOf(QueueOrder(rest)));
    }
  }

  // ---------------------------------------------------------------------
  // The stack strategy

  /** Handling one popped node only appends: 3 steps plus one per pushed child. */
  lemma StackVisitCount(n: NodeTree, r: Run)
    ensures Extends(StackVisit(n, r), r)
    ensures |StackVisit(n, r).steps| == |r.steps| + 3 + |RevKids(n)|
    ensures StackVisit(n, r).timestamp == r.timestamp + 1300 + 200 * |RevKids(n)|
  {
    var s := StackVisit(n, r).steps;
    assert s[..|r.steps|] == r.steps;
  }

  lemma StackVisitPaced(n: NodeTree, r: Run)
    requires Paced(r)
    ensures Paced(StackVisit(n, r))
  {
    var taken := Push(r, Highlight, n.id, Popped(n.value), 300);
    PushPaced(r, Highlight, n.id, Popped(n.value), 300);
    var withRight := taken;
    if n.right.Node? {
      PushPaced(taken, Highlight, n.right.id, PushRight(n.right.value), 200);
      withRight := Push(taken, Highlight, n.right.id, PushRight(n.right.value), 200);
    }
    var withLeft := withRight;
    if n.left.Node? {
      PushPaced(withRight, Highlight, n.left.id, PushLeft(n.left.value), 200);
      withLeft := Push(withRight, Highlight, n.left.id, PushLeft(n.left.value), 200);
    }
    PushPaced(withLeft, Swap, n.id, SwapChildren(n.value), 700);
    PushPaced(Push(withLeft, Swap, n.id, SwapChildren(n.value), 700), Unhighlight, n.id, FinishNode(n.value), 300);
  }

  lemma StackVisitSettled(n: NodeTree, r: Run)
    requires Settled(r.steps)
    ensures Settled(StackVisit(n, r).steps)
  {
    var taken := Push(r, Highlight, n.id, Popped(n.value), 300);
    PushSettled(r, Highlight, n.id, Popped(n.value), 300);
    var withRight := taken;
    if n.right.Node? {
      PushSettled(taken, Highlight, n.right.id, PushRight(n.right.value), 200);
      withRight := Push(taken, Highlight, n.right.id, PushRight(n.right.value), 200);
    }
    var withLeft := withRight;
    if n.left.Node? {
      PushSettled(withRight, Highlight, n.left.id, PushLeft(n.left.value), 200);
      withLeft := Push(withRight, Highlight, n.left.id, PushLeft(n.left.value), 200);
    }
    PushSwapSettled(withLeft, n.id, SwapChildren(n.value), 700, FinishNode(n.value), 300);
  }

  /** Handling one popped node adds exactly one swap, of that node. */
  lemma StackVisitSwaps(n: NodeTree, r: Run)
    ensures Targets(StackVisit(n, r).steps, IsSwap) == Targets(r.steps, IsSwap) + [n.id]
  {
    var before := Targets(r.steps, IsSwap);
    var taken := Push(r, Highlight, n.id, Popped(n.value), 300);
    TargetsPush(r, Highlight, n.id, Popped(n.value), 300, IsSwap);
    assert Targets(taken.steps, IsSwap) == before;
    var withRight := taken;
    if n.right.Node? {
      TargetsPush(taken, Highlight, n.right.id, PushRight(n.right.value), 200, IsSwap);
      withRight := Push(taken, Highlight, n.right.id, PushRight(n.right.value), 200);
    }
    assert Targets(withRight.steps, IsSwap) == before;
    var withLeft := withRight;
    if n.left.Node? {
      TargetsPush(withRight, Highlight, n.left.id, PushLeft(n.left.value), 200, IsSwap);
      withLeft := Push(withRight, Highlight, n.left.id, PushLeft(n.left.value), 200);
    }
    assert Targets(withLeft.steps, IsSwap) == before;
    var swapped := Push(withLeft, Swap, n.id, SwapChildren(n.value), 700);
    TargetsPush(withLeft, Swap, n.id, SwapChildren(n.value), 700, IsSwap);
    assert Targets(swapped.steps, IsSwap) == before + [n.id];
    TargetsPush(swapped, Unhighlight, n.id, FinishNode(n.value), 300, IsSwap);
    assert StackVisit(n, r) == Push(swapped, Unhighlight, n.id, FinishNode(n.value), 300);
  }

  /** Handling one popped node adds exactly one pop highlight, of that node. */
  lemma StackVisitPops(n: NodeTree, r: Run)
    ensures Targets(StackVisit(n, r).steps, IsPop) == Targets(r.steps, IsPop) + [n.id]
  {
    var before := Targets(r.steps, IsPop);
    var taken := Push(r, Highlight, n.id, Popped(n.value), 300);
    TargetsPush(r, Highlight, n.id, Popped(n.value), 300, IsPop);
    assert Targets(taken.steps, IsPop) == before + [n.id];
    var withRight := taken;
    if n.right.Node? {
      TargetsPush(taken, Highlight, n.right.id, PushRight(n.right.value), 200, IsPop);
      withRight := Push(taken, Highlight, n.right.id, PushRight(n.right.value), 200);
    }
    assert Targets(withRight.steps, IsPop) == before + [n.id];
    var withLeft := withRight;
    if n.left.Node? {
      TargetsPush(withRight, Highlight, n.left.id, PushLeft(n.left.value), 200, IsPop);
      withLeft := Push(withRight, Highlight, n.left.id, PushLeft(n.left.value), 200);
    }
    assert Targets(withLeft.steps, IsPop) == before + [n.id];
    var swapped := Push(withLeft, Swap, n.id, SwapChildren(n.value), 700);
    TargetsPush(withLeft, Swap, n.id, SwapChildren(n.value), 700, IsPop);
    assert Targets(swapped.steps, IsPop) == before + [n.id];
    TargetsPush(swapped, Unhighlight, n.id, FinishNode(n.value), 300, IsPop);
    assert StackVisit(n, r) == Push(swapped, Unhighlight, n.id, FinishNode(n.value), 300);
  }

  /** Draining a stack only appends; the same counts as for the queue. */
  lemma {:induction false} StackRunCount(s: seq<NodeTree>, r: Run)
    ensures Extends(StackRun(s, r), r)
    ensures |StackRun(s, r).steps| == |r.steps| + 4 * ForestSize(s) - |s|
    ensures StackRun(s, r).timestamp == r.timestamp + 1500 * ForestSize(s) - 200 * |s|
    decreases ForestSize(s)
  {
    if s != [] {
      StackShrinks(s);
      var top := s[|s| - 1];
      var v := StackVisit(top, r);
      StackVisitCount(top, r);
      StackRunCount(s[..|s| - 1] + RevKids(top), v);
      ExtendsTransitive(r, v, StackRun(s, r));
    }
  }

  lemma {:induction false} StackRunPaced(s: seq<NodeTree>, r: Run)
    requires Paced(r)
    ensures Paced(StackRun(s, r))
    decreases ForestSize(s)
  {
    if s != [] {
      StackShrinks(s);
      var top := s[|s| - 1];
      StackVisitPaced(top, r);
      StackRunPaced(s[..|s| - 1] + RevKids(top), StackVisit(top, r));
    }
  }

  lemma {:induction false} StackRunSettled(s: seq<NodeTree>, r: Run)
    requires Settled(r.steps)
    ensures Settled(StackRun(s, r).steps)
    decreases ForestSize(s)
  {
    if s != [] {
      StackShrinks(s);
      var top := s[|s| - 1];
      StackVisitSettled(top, r);
      StackRunSettled(s[..|s| - 1] + RevKids(top), StackVisit(top, r));
    }
  }

  /** Draining a stack swaps the nodes in the order the stack hands them out. */
  lemma {:induction false} StackRunSwaps(s: seq<NodeTree>, r: Run)
    ensures Targets(StackRun(s, r).steps, IsSwap) == Targets(r.steps, IsSwap) + IdsOf(StackOrder(s))
    decreases ForestSize(s)
  {
    if s != [] {
      var top := s[|s| - 1];
      var rest := s[..|s| - 1] + RevKids(top);
      StackShrinks(s);
      StackVisitSwaps(top, r);
      StackRunSwaps(rest, StackVisit(top, r));
      ProjectSingle(top, IdOf);
      ProjectAppend([top], StackOrder(rest), IdOf);
      assert IdsOf(StackOrder(s)) == [top.id] + IdsOf(StackOrder(rest));
      Associative3(Targets(r.steps, IsSwap), [top.id], IdsOf(StackOrder(rest)));
    }
  }

  /** Draining a stack highlights the popped nodes in the order the stack hands them out. */
  lemma {:induction false} StackRunPops(s: seq<NodeTree>, r: Run)
    ensures Targets(StackRun(s, r).steps, IsPop) == Targets(r.steps, IsPop) + IdsOf(StackOrder(s))
    decreases ForestSize(s)
  {
    if s != [] {
      var top := s[|s| - 1];
      var rest := s[..|s| - 1] + RevKids(top);
      StackShrinks(s);
      StackVisitPops(top, r);
      StackRunPops(rest, StackVisit(top, r));
      ProjectSingle(top, IdOf);
      ProjectAppend([top], StackOrder(rest), IdOf);
      assert IdsOf(StackOrder(s)) == [top.id] + IdsOf(StackOrder(rest));
      Associative3(Targets(r.steps, IsPop), [top.id], IdsOf(StackOrder(rest)));
    }
  }

  // ---------------------------------------------------------------------
  // Every step names a node of the tree

  /** Every step of `s` names a node, and a node listed in `ids`. */
  ghost predicate NamesIn(s: seq<Step>, ids: seq<int>)
  {
    forall i :: 0 <= i < |s| ==> s[i].nodeId.Some? && s[i].nodeId.value in ids
  }

  /** Every identifier of every tree of the worklist `f` is listed in `ids`. */
  ghost predicate Within(f: seq<NodeTree>, ids: seq<int>)
  {
    forall u, k :: u in f && k in Ids(u) ==> k in ids
  }

  lemma PushNames(r: Run, kind: StepKind, nodeId: int, message: Message, pause: int, ids: seq<int>)
    requires NamesIn(r.steps, ids) && nodeId in ids
    ensures NamesIn(Push(r, kind, nodeId, message, pause).steps, ids)
  {
  }

  lemma {:induction false} RecRunNames(t: Tree, r: Run, ids: seq<int>)
    requires NamesIn(r.steps, ids)
    requires forall k :: k in Ids(t) ==> k in ids
    ensures NamesIn(RecRun(t, r).steps, ids)
    decreases t, 1
  {
    if t.Node? {
      var visited := Push(r, Highlight, t.id, VisitNode(t.value), 500);
      var afterLeft := Descend(t.left, DescendLeft, visited);
      var afterRight := Descend(t.right, DescendRight, afterLeft);
      var swapped := Push(afterRight, Swap, t.id, SwapChildren(t.value), 700);
      assert Ids(t) == [t.id] + Ids(t.left) + Ids(t.right);
      PushNames(r, Highlight, t.id, VisitNode(t.value), 500, ids);
      DescendNames(t.left, DescendLeft, visited, ids);
      DescendNames(t.right, DescendRight, afterLeft, ids);
      PushNames(afterRight, Swap, t.id, SwapChildren(t.value), 700, ids);
      PushNames(swapped, Unhighlight, t.id, FinishNode(t.value), 300, ids);
    }
  }

  lemma {:induction false} DescendNames(child: Tree, message: Message, r: Run, ids: seq<int>)
    requires NamesIn(r.steps, ids)
    requires forall k :: k in Ids(child) ==> k in ids
    ensures NamesIn(Descend(child, message, r).steps, ids)
    decreases child, 2
  {
    if child.Node? {
      assert child.id in Ids(child);
      PushNames(r, Highlight, child.id, message, 300, ids);
      RecRunNames(child, Push(r, Highlight, child.id, message, 300), ids);
    }
  }

  lemma QueueVisitNames(n: NodeTree, r: Run, ids: seq<int>)
    requires NamesIn(r.steps, ids)
    requires forall k :: k in Ids(n) ==> k in ids
    ensures NamesIn(QueueVisit(n, r).steps, ids)
  {
    assert Ids(n) == [n.id] + Ids(n.left) + Ids(n.right);
    var taken := Push(r, Highlight, n.id, Dequeued(n.value), 300);
    PushNames(r, Highlight, n.id, Dequeued(n.value), 300, ids);
    var withLeft := taken;
    if n.left.Node? {
      assert n.left.id in Ids(n.left);
      PushNames(taken, Highlight, n.left.id, EnqueueLeft(n.left.value), 200, ids);
      withLeft := Push(taken, Highlight, n.left.id, EnqueueLeft(n.left.value), 200);
    }
    var withRight := withLeft;
    if n.right.Node? {
      assert n.right.id in Ids(n.right);
      PushNames(withLeft, Highlight, n.right.id, EnqueueRight(n.right.value), 200, ids);
      withRight := Push(withLeft, Highlight, n.right.id, EnqueueRight(n.right.value), 200);
    }
    PushNames(withRight, Swap, n.id, SwapChildren(n.value), 700, ids);
    PushNames(Push(withRight, Swap, n.id, SwapChildren(n.value), 700), Unhighlight, n.id, FinishNode(n.value), 300, ids);
  }

  lemma StackVisitNames(n: NodeTree, r: Run, ids: seq<int>)
    requires NamesIn(r.steps, ids)
    requires forall k :: k in Ids(n) ==> k in ids
    ensures NamesIn(StackVisit(n, r).steps, ids)
  {
    assert Ids(n) == [n.id] + Ids(n.left) + Ids(n.right);
    var taken := Push(r, Highlight, n.id, Popped(n.value), 300);
    PushNames(r, Highlight, n.id, Popped(n.value), 300, ids);
    var withRight := taken;
    if n.right.Node? {
      assert n.right.id in Ids(n.right);
      PushNames(taken, Highlight, n.right.id, PushRight(n.right.value), 200, ids);
      withRight := Push(taken, Highlight, n.right.id, PushRight(n.right.value), 200);
    }
    var withLeft := withRight;
    if n.left.Node? {
      assert n.left.id in Ids(n.left);
      PushNames(withRight, Highlight, n.left.id, PushLeft(n.left.value), 200, ids);
      withLeft := Push(withRight, Highlight, n.left.id, PushLeft(n.left.value), 200);
    }
    PushNames(withLeft, Swap, n.id, SwapChildren(n.value), 700, ids);
    PushNames(Push(withLeft, Swap, n.id, SwapChildren(n.value), 700), Unhighlight, n.id, FinishNode(n.value), 300, ids);
  }

  /** The identifiers of a node's children are identifiers of the node. */
  lemma KidsWithin(n: NodeTree)
    ensures forall u, k :: u in Kids(n) && k in Ids(u) ==> k in Ids(n)
    ensures forall u, k :: u in RevKids(n) && k in Ids(u) ==> k in Ids(n)
  {
    assert Ids(n) == [n.id] + Ids(n.left) + Ids(n.right);
  }

  lemma {:induction false} QueueRunNames(q: seq<NodeTree>, r: Run, ids: seq<int>)
    requires NamesIn(r.steps, ids) && Within(q, ids)
    ensures NamesIn(QueueRun(q, r).steps, ids)
    decreases ForestSize(q)
  {
    if q != [] {
      QueueShrinks(q);
      assert q[0] in q;
      QueueVisitNames(q[0], r, ids);
      KidsWithin(q[0]);
      assert forall u :: u in q[1..] ==> u in q;
      QueueRunNames(q[1..] + Kids(q[0]), QueueVisit(q[0], r), ids);
    }
  }

  lemma {:induction false} StackRunNames(s: seq<NodeTree>, r: Run, ids: seq<int>)
    requires NamesIn(r.steps, ids) && Within(s, ids)
    ensures NamesIn(StackRun(s, r).steps, ids)
    decreases ForestSize(s)
  {
    if s != [] {
      StackShrinks(s);
      var top := s[|s| - 1];
      assert top in s;
      StackVisitNames(top, r, ids);
      KidsWithin(top);
      assert forall u :: u in s[..|s| - 1] ==> u in s;
      StackRunNames(s[..|s| - 1] + RevKids(top), StackVisit(top, r), ids);
    }
  }

  // ---------------------------------------------------------------------
  // The recursive strategy keeps to one subtree at a time

  /** The steps from index `from` up to `to` all name a node, and a node of `ids`. */
  ghost predicate TouchesOnly(s: seq<Step>, from: int, to: int, ids: seq<int>)
    requires 0 <= from && to <= |s|
  {
    forall i :: from <= i < to ==> s[i].nodeId.Some? && s[i].nodeId.value in ids
  }

  /** Everything the recursive strategy appends for `t` names a node of `t`. */
  lemma {:induction false} RecRunTouches(t: Tree, r: Run)
    ensures |r.steps| <= |RecRun(t, r).steps|
    ensures TouchesOnly(RecRun(t, r).steps, |r.steps|, |RecRun(t, r).steps|, Ids(t))
    decreases t, 1
  {
    if t.Node? {
      var visited := Push(r, Highlight, t.id, VisitNode(t.value), 500);
      var afterLeft := Descend(t.left, DescendLeft, visited);
      var afterRight := Descend(t.right, DescendRight, afterLeft);
      var swapped := Push(afterRight, Swap, t.id, SwapChildren(t.value), 700);
      var s := RecRun(t, r).steps;
      assert s == afterRight.steps + swapped.steps[|afterRight.steps|..] + [s[|s| - 1]];
      DescendTouches(t.left, DescendLeft, visited);
      DescendTouches(t.right, DescendRight, afterLeft);
      DescendExtends(t.left, DescendLeft, visited);
      DescendExtends(t.right, DescendRight, afterLeft);
      RecRunExtends(t, r);
      forall i | |r.steps| <= i < |s|
        ensures s[i].nodeId.Some? && s[i].nodeId.value in Ids(t)
      {
        if i >= |afterRight.steps| {
        } else if i >= |afterLeft.steps| {
          assert s[i] == afterRight.steps[i];
        } else if i >= |visited.steps| {
          assert s[i] == afterRight.steps[..|afterLeft.steps|][i] == afterLeft.steps[i];
        } else {
          assert s[i] == afterRight.steps[..|afterLeft.steps|][..|visited.steps|][i] == visited.steps[i];
        }
      }
    }
  }

  lemma {:induction false} DescendTouches(child: Tree, message: Message, r: Run)
    ensures |r.steps| <= |Descend(child, message, r).steps|
    ensures TouchesOnly(Descend(child, message, r).steps, |r.steps|, |Descend(child, message, r).steps|, Ids(child))
    decreases child, 2
  {
    if child.Node? {
      var d := Push(r, Highlight, child.id, message, 300);
      RecRunTouches(child, d);
      RecRunExtends(child, d);
      var s := RecRun(child, d).steps;
      assert s[|r.steps|] == s[..|d.steps|][|r.steps|] == d.steps[|r.steps|];
    }
  }

  /** The run of a node up to the end of its left subtree's steps. */
  function LeftDone(t: NodeTree, r: Run): Run
  {
    Descend(t.left, DescendLeft, Push(r, Highlight, t.id, VisitNode(t.value), 500))
  }

  /** The run of a node up to the end of its right subtree's steps. */
  function RightDone(t: NodeTree, r: Run): Run
  {
    Descend(t.right, DescendRight, LeftDone(t, r))
  }

  /**
   * The layout of a node's run: its visit, then the steps of its left
   * subtree, then those of its right subtree, then its swap and its
   * unhighlight.
   */
  lemma RecRunLayout(t: NodeTree, r: Run)
    ensures var s := RecRun(t, r).steps;
      var n2, n3 := |LeftDone(t, r).steps|, |RightDone(t, r).steps|;
      |r.steps| < n2 <= n3 && |s| == n3 + 2 &&
      s[..n3] == RightDone(t, r).steps &&
      s[|r.steps|].nodeId == Some(t.id) && s[n3].nodeId == Some(t.id) && s[n3 + 1].nodeId == Some(t.id)
  {
    var visited := Push(r, Highlight, t.id, VisitNode(t.value), 500);
    DescendExtends(t.left, DescendLeft, visited);
    DescendExtends(t.right, DescendRight, LeftDone(t, r));
    var s := RecRun(t, r).steps;
    var n0, n3 := |r.steps|, |RightDone(t, r).steps|;
    assert s[..n3] == RightDone(t, r).steps;
    assert s[n0] == s[..n3][n0] == LeftDone(t, r).steps[n0] == visited.steps[n0];
  }

  /** Between the visit and the end of the left subtree, every step names a node of the left subtree. */
  lemma LeftRegion(t: NodeTree, r: Run)
    ensures var s := RightDone(t, r).steps;
      |LeftDone(t, r).steps| <= |s| &&
      forall i :: |r.steps| < i < |LeftDone(t, r).steps| ==>
        s[i].nodeId.Some? && s[i].nodeId.value in Ids(t.left)
  {
    var visited := Push(r, Highlight, t.id, VisitNode(t.value), 500);
    DescendTouches(t.left, DescendLeft, visited);
    DescendExtends(t.right, DescendRight, LeftDone(t, r));
    var s := RightDone(t, r).steps;
    forall i | |r.steps| < i < |LeftDone(t, r).steps|
      ensures s[i].nodeId.Some? && s[i].nodeId.value in Ids(t.left)
    {
      assert s[i] == LeftDone(t, r).steps[i];
    }
  }

  /** After the left subtree's steps, every step up to the swap names a node of the right subtree. */
  lemma RightRegion(t: NodeTree, r: Run)
    ensures var s := RightDone(t, r).steps;
      forall i :: |LeftDone(t, r).steps| <= i < |s| ==>
        s[i].nodeId.Some? && s[i].nodeId.value in Ids(t.right)
  {
    DescendTouches(t.right, DescendRight, LeftDone(t, r));
  }

  /**
   * With unique identifiers, every step the recursive strategy emits for a
   * node of the left subtree comes before every step it emits for a node of
   * the right subtree.
   */
  lemma LeftBeforeRight(t: Tree, r: Run)
    requires t.Node? && UniqueIds(t)
    ensures var s := RecRun(t, r).steps;
      forall i, j ::
        |r.steps| <= i < |s| && |r.steps| <= j < |s| &&
        s[i].nodeId.Some? && s[i].nodeId.value in Ids(t.left) &&
        s[j].nodeId.Some? && s[j].nodeId.value in Ids(t.right)
        ==> i < j
  {
    UniqueIdsNode(t);
    RecRunLayout(t, r);
    LeftRegion(t, r);
    RightRegion(t, r);
    var s := RecRun(t, r).steps;
    var n2, n3 := |LeftDone(t, r).steps|, |RightDone(t, r).steps|;
    forall i, j |
      |r.steps| <= i < |s| && |r.steps| <= j < |s| &&
      s[i].nodeId.Some? && s[i].nodeId.value in Ids(t.left) &&
      s[j].nodeId.Some? && s[j].nodeId.value in Ids(t.right)
      ensures i < j
    {
      assert i < n3 && j < n3;
      var d := RightDone(t, r).steps;
      assert s[i] == s[..n3][i] == d[i];
      assert s[j] == s[..n3][j] == d[j];
      var a := s[i].nodeId.value;
      assert a in Ids(t.left);
      assert a !in Ids(t.right);
      assert i < n2;
      var b := s[j].nodeId.value;
      assert b in Ids(t.right) && b != t.id;
      assert b !in Ids(t.left);
      assert n2 <= j;
    }
  }

  // ---------------------------------------------------------------------
  // Whole runs

  /** The order in which a strategy swaps the nodes. */
  function SwapOrder(algorithm: AlgorithmType, t: Tree): seq<NodeTree>
  {
    match algorithm
    case Recursive => PostOrder(t)
    case IterativeQueue => LevelOrder(t)
    case IterativeStack => PreOrder(t)
  }

  /**
   * Step counts and the final clock value: nothing for an empty tree;
   * 4n - 1 steps ending at 1800n - 300 for the recursive strategy and
   * 4n steps ending at 1500n + 300 for the iterative ones.
   */
  lemma GenerateCount(algorithm: AlgorithmType, t: Tree)
    ensures t.Nil? ==> Generate(algorithm, t) == Run([], 0)
    ensures t.Node? && algorithm.Recursive? ==>
      |Generate(algorithm, t).steps| == 4 * Size(t) - 1 &&
      Generate(algorithm, t).timestamp == 1800 * Size(t) - 300
    ensures t.Node? && !algorithm.Recursive? ==>
      |Generate(algorithm, t).steps| == 4 * Size(t) &&
      Generate(algorithm, t).timestamp == 1500 * Size(t) + 300
  {
    var start := Run([], 0);
    match algorithm
    case Recursive =>
      RecRunCount(t, start);
    case IterativeQueue =>
      if t.Node? {
        QueueRunCount([t], Push(start, Highlight, t.id, InitQueue, 500));
      }
    case IterativeStack =>
      if t.Node? {
        StackRunCount([t], Push(start, Highlight, t.id, InitStack, 500));
      }
  }

  /**
   * Every run starts with a highlight of the root stamped 0, its stamps
   * strictly increase and the final clock value is past all of them.
   */
  lemma GenerateTimeline(algorithm: AlgorithmType, t: Tree)
    ensures Paced(Generate(algorithm, t))
    ensures t.Node? ==>
      |Generate(algorithm, t).steps| > 0 &&
      Generate(algorithm, t).steps[0].kind == Highlight &&
      Generate(algorithm, t).steps[0].nodeId == Some(t.id) &&
      Generate(algorithm, t).steps[0].timestamp == 0
  {
    var start := Run([], 0);
    if t.Node? {
      var first :=
        match algorithm
        case Recursive => Push(start, Highlight, t.id, VisitNode(t.value), 500)
        case IterativeQueue => Push(start, Highlight, t.id, InitQueue, 500)
        case IterativeStack => Push(start, Highlight, t.id, InitStack, 500);
      PushPaced(start, first.steps[0].kind, t.id, first.steps[0].message, 500);
      match algorithm
      case Recursive =>
        var afterLeft := Descend(t.left, DescendLeft, first);
        var afterRight := Descend(t.right, DescendRight, afterLeft);
        var swapped := Push(afterRight, Swap, t.id, SwapChildren(t.value), 700);
        DescendPaced(t.left, DescendLeft, first);
        DescendPaced(t.right, DescendRight, afterLeft);
        PushPaced(afterRight, Swap, t.id, SwapChildren(t.value), 700);
        PushPaced(swapped, Unhighlight, t.id, FinishNode(t.value), 300);
        DescendExtends(t.left, DescendLeft, first);
        DescendExtends(t.right, DescendRight, afterLeft);
        PushExtends(afterRight, Swap, t.id, SwapChildren(t.value), 700);
        PushExtends(swapped, Unhighlight, t.id, FinishNode(t.value), 300);
        ExtendsTransitive(first, afterLeft, afterRight);
        ExtendsTransitive(first, afterRight, swapped);
        ExtendsTransitive(first, swapped, RecRun(t, start));
      case IterativeQueue =>
        QueueRunPaced([t], first);
        QueueRunCount([t], first);
      case IterativeStack =>
        StackRunPaced([t], first);
        StackRunCount([t], first);
      var s := Generate(algorithm, t).steps;
      assert s[0] == s[..1][0] == first.steps[0];
    } else {
      RecRunPaced(t, start);
    }
  }

  /** In every run, each swap is immediately followed by the unhighlight of the same node. */
  lemma GenerateSettled(algorithm: AlgorithmType, t: Tree)
    ensures Settled(Generate(algorithm, t).steps)
  {
    var start := Run([], 0);
    match algorithm
    case Recursive =>
      RecRunSettled(t, start);
    case IterativeQueue =>
      if t.Node? {
        PushSettled(start, Highlight, t.id, InitQueue, 500);
        QueueRunSettled([t], Push(start, Highlight, t.id, InitQueue, 500));
      }
    case IterativeStack =>
      if t.Node? {
        PushSettled(start, Highlight, t.id, InitStack, 500);
        StackRunSettled([t], Push(start, Highlight, t.id, InitStack, 500));
      }
  }

  /** Each strategy's swap order lists every node once. */
  lemma SwapOrderPermutation(algorithm: AlgorithmType, t: Tree)
    ensures multiset(IdsOf(SwapOrder(algorithm, t))) == multiset(Ids(t))
  {
    IdsOfPreOrder(t);
    match algorithm
    case Recursive =>
      PostOrderPermutation(t);
      ProjectPermutation(PostOrder(t), PreOrder(t), IdOf);
    case IterativeQueue =>
      LevelOrderPermutation(t);
      ProjectPermutation(LevelOrder(t), PreOrder(t), IdOf);
    case IterativeStack =>
  }

  /** The recursive strategy swaps in post-order, the queue one in level order, the stack one in pre-order. */
  lemma GenerateSwapOrder(algorithm: AlgorithmType, t: Tree)
    ensures Targets(Generate(algorithm, t).steps, IsSwap) == IdsOf(SwapOrder(algorithm, t))
  {
    var start := Run([], 0);
    match algorithm
    case Recursive =>
      RecRunSwaps(t, start);
    case IterativeQueue =>
      if t.Node? {
        var first := Push(start, Highlight, t.id, InitQueue, 500);
        TargetsPush(start, Highlight, t.id, InitQueue, 500, IsSwap);
        QueueRunSwaps([t], first);
        QueueOrderIsLevelOrder(t);
      }
    case IterativeStack =>
      if t.Node? {
        var first := Push(start, Highlight, t.id, InitStack, 500);
        TargetsPush(start, Highlight, t.id, InitStack, 500, IsSwap);
        StackRunSwaps([t], first);
        StackOrderIsPreOrder(t);
      }
  }

  /** Every strategy swaps every node exactly once. */
  lemma GenerateSwapsEachOnce(algorithm: AlgorithmType, t: Tree)
    ensures multiset(Targets(Generate(algorithm, t).steps, IsSwap)) == multiset(Ids(t))
  {
    GenerateSwapOrder(algorithm, t);
    SwapOrderPermutation(algorithm, t);
  }

  /**
   * The node each strategy takes up next: the recursive strategy visits in
   * pre-order, the queue strategy dequeues in level order and the stack
   * strategy pops in pre-order.
   */
  lemma GenerateVisits(t: Tree)
    ensures Targets(Generate(Recursive, t).steps, IsVisit) == IdsOf(PreOrder(t))
    ensures Targets(Generate(IterativeQueue, t).steps, IsDequeue) == IdsOf(LevelOrder(t))
    ensures Targets(Generate(IterativeStack, t).steps, IsPop) == IdsOf(PreOrder(t))
  {
    var start := Run([], 0);
    RecRunVisits(t, start);
    if t.Node? {
      TargetsPush(start, Highlight, t.id, InitQueue, 500, IsDequeue);
      QueueRunDequeues([t], Push(start, Highlight, t.id, InitQueue, 500));
      QueueOrderIsLevelOrder(t);
      TargetsPush(start, Highlight, t.id, InitStack, 500, IsPop);
      StackRunPops([t], Push(start, Highlight, t.id, InitStack, 500));
      StackOrderIsPreOrder(t);
    }
  }

  /** Every step of every run names a node of the tree. */
  lemma GenerateNames(algorithm: AlgorithmType, t: Tree)
    ensures NamesIn(Generate(algorithm, t).steps, Ids(t))
  {
    var start := Run([], 0);
    match algorithm
    case Recursive =>
      RecRunNames(t, start, Ids(t));
    case IterativeQueue =>
      if t.Node? {
        assert t.id in Ids(t) && Within([t], Ids(t));
        PushNames(start, Highlight, t.id, InitQueue, 500, Ids(t));
        QueueRunNames([t], Push(start, Highlight, t.id, InitQueue, 500), Ids(t));
      }
    case IterativeStack =>
      if t.Node? {
        assert t.id in Ids(t) && Within([t], Ids(t));
        PushNames(start, Highlight, t.id, InitStack, 500, Ids(t));
        StackRunNames([t], Push(start, Highlight, t.id, InitStack, 500), Ids(t));
      }
  }
}
