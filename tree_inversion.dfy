/**
 * The step generator: for a tree and one of three strategies it narrates an
 * inversion run as a list of steps (highlight, swap, unhighlight), each
 * stamped with a running animation clock. It only reads the tree.
 *
 * `RecRun`, `QueueRun` and `StackRun` are the value-level meaning of the
 * three strategies: the steps a strategy emits from a given clock value and
 * the clock value it ends with. The imperative generator (`InversionAlgorithm`)
 * is proved against them; their properties are proved in module
 * InversionProperties.
 */
module TreeInversion {
  import opened Trees
  import opened Traversals

  datatype StepKind = Highlight | Swap | Unhighlight

  /**
   * The narration of a step: one constructor per message template, carrying
   * the node value the template interpolates.
   */
  datatype Message =
    | VisitNode(value: int)
    | DescendLeft
    | DescendRight
    | SwapChildren(value: int)
    | FinishNode(value: int)
    | InitQueue
    | Dequeued(value: int)
    | EnqueueLeft(value: int)
    | EnqueueRight(value: int)
    | InitStack
    | Popped(value: int)
    | PushRight(value: int)
    | PushLeft(value: int)

  /** Step: the node identifier is optional in the record type. */
  datatype Step = Step(kind: StepKind, nodeId: Option<int>, message: Message, timestamp: int)

  datatype AlgorithmType = Recursive | IterativeQueue | IterativeStack

  /** The generator's state: the steps emitted so far and the animation clock. */
  datatype Run = Run(steps: seq<Step>, timestamp: int)

  /** One `push` of a step stamped with the current clock, followed by `timestamp += pause`. */
  function Push(r: Run, kind: StepKind, nodeId: int, message: Message, pause: int): Run
  {
    Run(r.steps + [Step(kind, Some(nodeId), message, r.timestamp)], r.timestamp + pause)
  }

  // ---------------------------------------------------------------------
  // The recursive strategy

  /**
   * The state after the recursive strategy has handled `t`, starting from
   * `r`: visit the node (+500), descend into the left and then the right
   * child, then swap (+700) and unhighlight (+300). An empty tree adds
   * nothing.
   */
  function RecRun(t: Tree, r: Run): Run
    decreases t, 1
  {
    if t.Nil? then r
    else
      var visited := Push(r, Highlight, t.id, VisitNode(t.value), 500);
      var afterLeft := Descend(t.left, DescendLeft, visited);
      var afterRight := Descend(t.right, DescendRight, afterLeft);
      Push(Push(afterRight, Swap, t.id, SwapChildren(t.value), 700),
           Unhighlight, t.id, FinishNode(t.value), 300)
  }

  /** Descending into a child: nothing for an absent child, else its highlight (+300) and its own run. */
  function Descend(child: Tree, message: Message, r: Run): Run
    decreases child, 2
  {
    if child.Nil? then r
    else RecRun(child, Push(r, Highlight, child.id, message, 300))
  }

  // ---------------------------------------------------------------------
  // The queue strategy

  /**
   * One node taken from the front of the queue: its highlight (+300), a
   * highlight per enqueued child, left before right (+200 each), then swap
   * (+700) and unhighlight (+300).
   */
  function QueueVisit(node: NodeTree, r: Run): Run
  {
    var taken := Push(r, Highlight, node.id, Dequeued(node.value), 300);
    var withLeft :=
      if node.left.Node? then Push(taken, Highlight, node.left.id, EnqueueLeft(node.left.value), 200)
      else taken;
    var withRight :=
      if node.right.Node? then Push(withLeft, Highlight, node.right.id, EnqueueRight(node.right.value), 200)
      else withLeft;
    Push(Push(withRight, Swap, node.id, SwapChildren(node.value), 700),
         Unhighlight, node.id, FinishNode(node.value), 300)
  }

  /** Drain a queue: visit the front node, append its children at the back, repeat. */
  function QueueRun(q: seq<NodeTree>, r: Run): Run
    decreases ForestSize(q)
  {
    if q == [] then r
    else
      ForestSizeAppend(q[1..], Kids(q[0]));
      KidsSize(q[0]);
      QueueRun(q[1..] + Kids(q[0]), QueueVisit(q[0], r))
  }

  // ---------------------------------------------------------------------
  // The stack strategy

  /**
   * One node popped from the top of the stack: its highlight (+300), a
   * highlight per pushed child, right before left (+200 each), then swap
   * (+700) and unhighlight (+300).
   */
  function StackVisit(node: NodeTree, r: Run): Run
  {
    var taken := Push(r, Highlight, node.id, Popped(node.value), 300);
    var withRight :=
      if node.right.Node? then Push(taken, Highlight, node.right.id, PushRight(node.right.value), 200)
      else taken;
    var withLeft :=
      if node.left.Node? then Push(withRight, Highlight, node.left.id, PushLeft(node.left.value), 200)
      else withRight;
    Push(Push(withLeft, Swap, node.id, SwapChildren(node.value), 700),
         Unhighlight, node.id, FinishNode(node.value), 300)
  }

  /** Drain a stack (top at the end): pop, visit, push the right and then the left child, repeat. */
  function StackRun(s: seq<NodeTree>, r: Run): Run
    decreases ForestSize(s)
  {
    if s == [] then r
    else
      var top := s[|s| - 1];
      assert s == s[..|s| - 1] + [top];
      ForestSizeAppend(s[..|s| - 1], [top]);
      ForestSizeAppend(s[..|s| - 1], RevKids(top));
      KidsSize(top);
      StackRun(s[..|s| - 1] + RevKids(top), StackVisit(top, r))
  }

  // ---------------------------------------------------------------------
  // Whole runs

  /**
   * generateSteps: the list starts empty and the clock at 0. The iterative
   * strategies open with a highlight of the root (+500) and emit nothing for
   * an empty tree.
   */
  function Generate(algorithm: AlgorithmType, t: Tree): Run
  {
    var start := Run([], 0);
    match algorithm
    case Recursive => RecRun(t, start)
    case IterativeQueue =>
      if t.Nil? then start else QueueRun([t], Push(start, Highlight, t.id, InitQueue, 500))
    case IterativeStack =>
      if t.Nil? then start else StackRun([t], Push(start, Highlight, t.id, InitStack, 500))
  }

  /**
   * InversionAlgorithm: the strategy chosen at construction, the list of
   * steps emitted so far and the animation clock.
   */
  class InversionAlgorithm {
    var steps: seq<Step>
    var timestamp: int
    const algorithm: AlgorithmType

    constructor (algorithm: AlgorithmType)
      ensures this.algorithm == algorithm && steps == [] && timestamp == 0
    {
      this.algorithm := algorithm;
      steps := [];
      timestamp := 0;
    }

    /**
     * generateSteps: clears the list and the clock, runs the chosen strategy
     * and returns the list. The result depends on the strategy and the tree
     * only, not on any earlier call.
     */
    method GenerateSteps(tree: Tree) returns (result: seq<Step>)
      modifies this
      ensures State() == Generate(algorithm, tree)
      ensures result == Generate(algorithm, tree).steps
    {
      steps := [];
      timestamp := 0;
      match algorithm {
        case Recursive =>
          RecursiveInvert(tree);
        case IterativeQueue =>
          IterativeQueueInvert(tree);
        case IterativeStack =>
          IterativeStackInvert(tree);
      }
      result := steps;
    }

    /** The list of steps and the clock, as one value. */
    function State(): Run
      reads this
    {
      Run(steps, timestamp)
    }

    /** One `steps.push({...})` stamped with the clock, then `timestamp += pause`. */
    method Emit(kind: StepKind, nodeId: int, message: Message, pause: int)
      modifies this
      ensures State() == Push(old(State()), kind, nodeId, message, pause)
    {
      steps := steps + [Step(kind, Some(nodeId), message, timestamp)];
      timestamp := timestamp + pause;
    }

    /** recursiveInvert: the recursive strategy's steps for `node`, appended to the list. */
    method RecursiveInvert(node: Tree)
      modifies this
      ensures State() == RecRun(node, old(State()))
      decreases node
    {
      if node.Nil? {
        return;
      }
      Emit(Highlight, node.id, VisitNode(node.value), 500);
      if node.left.Node? {
        Emit(Highlight, node.left.id, DescendLeft, 300);
        RecursiveInvert(node.left);
      }
      if node.right.Node? {
        Emit(Highlight, node.right.id, DescendRight, 300);
        RecursiveInvert(node.right);
      }
      Emit(Swap, node.id, SwapChildren(node.value), 700);
      Emit(Unhighlight, node.id, FinishNode(node.value), 300);
    }

    /** iterativeQueueInvert: the queue strategy's steps for `root`, appended to the list. */
    method IterativeQueueInvert(root: Tree)
      modifies this
      ensures root.Nil? ==> State() == old(State())
      ensures root.Node? ==>
        State() == QueueRun([root], Push(old(State()), Highlight, root.id, InitQueue, 500))
    {
      if root.Nil? {
        return;
      }
      var queue: seq<NodeTree> := [root];
      Emit(Highlight, root.id, InitQueue, 500);
      ghost var total := QueueRun(queue, State());
      while |queue| > 0
        invariant QueueRun(queue, State()) == total
        decreases ForestSize(queue)
      {
        ghost var q0 := queue;
        QueueShrinks(queue);
        var node := queue[0];
        queue := queue[1..];
        Emit(Highlight, node.id, Dequeued(node.value), 300);
        if node.left.Node? {
          var child: NodeTree := node.left;
          queue := queue + [child];
          Emit(Highlight, child.id, EnqueueLeft(child.value), 200);
        }
        if node.right.Node? {
          var child: NodeTree := node.right;
          queue := queue + [child];
          Emit(Highlight, child.id, EnqueueRight(child.value), 200);
        }
        Emit(Swap, node.id, SwapChildren(node.value), 700);
        Emit(Unhighlight, node.id, FinishNode(node.value), 300);
        assert queue == q0[1..] + Kids(node);
      }
    }

    /** iterativeStackInvert: the stack strategy's steps for `root`, appended to the list. */
    method IterativeStackInvert(root: Tree)
      modifies this
      ensures root.Nil? ==> State() == old(State())
      ensures root.Node? ==>
        State() == StackRun([root], Push(old(State()), Highlight, root.id, InitStack, 500))
    {
      if root.Nil? {
        return;
      }
      var stack: seq<NodeTree> := [root];
      Emit(Highlight, root.id, InitStack, 500);
      ghost var total := StackRun(stack, State());
      while |stack| > 0
        invariant StackRun(stack, State()) == total
        decreases ForestSize(stack)
      {
        ghost var s0 := stack;
        StackShrinks(stack);
        var node := stack[|stack| - 1];
        stack := stack[..|stack| - 1];
        Emit(Highlight, node.id, Popped(node.value), 300);
        if node.right.Node? {
          var child: NodeTree := node.right;
          stack := stack + [child];
          Emit(Highlight, child.id, PushRight(child.value), 200);
        }
        if node.left.Node? {
          var child: NodeTree := node.left;
          stack := stack + [child];
          Emit(Highlight, child.id, PushLeft(child.value), 200);
        }
        Emit(Swap, node.id, SwapChildren(node.value), 700);
        Emit(Unhighlight, node.id, FinishNode(node.value), 300);
        assert stack == s0[..|s0| - 1] + RevKids(node);
      }
    }
  }
}
