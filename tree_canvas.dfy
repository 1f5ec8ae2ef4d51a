/**
 * The canvas's step application: which step the canvas applies for a cursor
 * position, and how a step changes a tree. A step acts on every node whose
 * identifier is the step's `nodeId`: a highlight sets the node's
 * `highlighted` flag, an unhighlight clears it, a swap exchanges the node's
 * two child references and sets its `animating` flag. The search does not
 * descend below a node it has changed, but it does go on into the sibling
 * subtrees.
 *
 * `ApplyStep` is the value-level meaning; the heap method `UpdateNode` is
 * proved against it. The last part shows that applying, one after the
 * other, all the steps a strategy generates for a tree with unique
 * identifiers turns it into its mirror image.
 */
module TreeCanvas {
  import opened Trees
  import opened Traversals
  import opened TreeNodes
  import opened TreeOperations
  import opened TreeInversion
  import opened InversionProperties

  // ---------------------------------------------------------------------
  // The step guard

  /**
   * The step the canvas applies at position `cursor`: none before the first
   * step, for an empty list, past the end of the list, or for a step whose
   * node identifier is absent or 0 (both read as false).
   */
  function StepToApply(steps: seq<Step>, cursor: int): (r: Option<Step>)
    ensures r.Some? <==>
      0 <= cursor < |steps| && steps[cursor].nodeId.Some? && steps[cursor].nodeId.value != 0
    ensures r.Some? ==> r.value == steps[cursor]
  {
    if cursor < 0 || |steps| == 0 then None
    else if cursor >= |steps| then None
    else if steps[cursor].nodeId.None? || steps[cursor].nodeId == Some(0) then None
    else Some(steps[cursor])
  }

  /**
   * For the steps of any strategy on a tree without a node numbered 0, the
   * canvas applies the step at the cursor exactly when the cursor is on a
   * step.
   */
  lemma GuardAppliesGenerated(algorithm: AlgorithmType, t: Tree, cursor: int)
    requires 0 !in Ids(t)
    ensures var steps := Generate(algorithm, t).steps;
      (StepToApply(steps, cursor).Some? <==> 0 <= cursor < |steps|) &&
      (0 <= cursor < |steps| ==> StepToApply(steps, cursor) == Some(steps[cursor]))
  {
    GenerateNames(algorithm, t);
  }

  // ---------------------------------------------------------------------
  // One step, on values

  /** What a step does to the node it names. */
  function Change(t: Tree, kind: StepKind): (c: Tree)
    requires t.Node?
    ensures c.Node? && c.id == t.id && c.value == t.value
  {
    match kind
    case Highlight => t.(highlighted := true)
    case Unhighlight => t.(highlighted := false)
    case Swap => t.(left := t.right, right := t.left, animating := true)
  }

  /**
   * updateNode: a node named by the step is changed and returned without
   * searching below it; any other node passes the step on to its left and
   * then its right child.
   */
  function ApplyStep(t: Tree, step: Step): (r: Tree)
    ensures r.Nil? <==> t.Nil?
    ensures r.Node? ==> r.id == t.id && r.value == t.value
  {
    if t.Nil? then Nil
    else if step.nodeId == Some(t.id) then Change(t, step.kind)
    else t.(left := ApplyStep(t.left, step), right := ApplyStep(t.right, step))
  }

  /** The first node, in pre-order, with identifier `k`, with the subtree it roots. */
  function Find(t: Tree, k: int): (r: Option<Tree>)
    ensures r.Some? <==> k in Ids(t)
    ensures r.Some? ==> r.value.Node? && r.value.id == k
  {
    if t.Nil? then None
    else if t.id == k then Some(t)
    else
      var l := Find(t.left, k);
      if l.Some? then l else Find(t.right, k)
  }

  /** A step that names no node of the tree leaves the tree as it is. */
  lemma {:induction false} ApplyStepMissing(t: Tree, step: Step)
    requires step.nodeId.None? || step.nodeId.value !in Ids(t)
    ensures ApplyStep(t, step) == t
  {
    if t.Node? {
      ApplyStepMissing(t.left, step);
      ApplyStepMissing(t.right, step);
    }
  }

  /** The node the step names, found again after the step, carries exactly the step's change. */
  lemma {:induction false} ApplyStepAt(t: Tree, step: Step)
    requires step.nodeId.Some? && step.nodeId.value in Ids(t)
    ensures Find(ApplyStep(t, step), step.nodeId.value) ==
            Some(Change(Find(t, step.nodeId.value).value, step.kind))
  {
    var k := step.nodeId.value;
    if t.id != k {
      if k in Ids(t.left) {
        ApplyStepAt(t.left, step);
      } else {
        ApplyStepMissing(t.left, step);
        ApplyStepAt(t.right, step);
      }
    }
  }

  /** The two nodes agree in every field except their subtrees. */
  predicate SameNode(a: Tree, b: Tree)
  {
    a.Node? && b.Node? && a.id == b.id && a.value == b.value && a.x == b.x && a.y == b.y &&
    a.highlighted == b.highlighted && a.animating == b.animating
  }

  /** A step keeps the set of identifiers present in the tree. */
  lemma IdsKept(t: Tree, step: Step, k: int)
    ensures k in Ids(ApplyStep(t, step)) <==> k in Ids(t)
  {
    ApplyStepContents(t, step);
    assert k in Ids(t) <==> k in multiset(Ids(t));
    assert k in Ids(ApplyStep(t, step)) <==> k in multiset(Ids(ApplyStep(t, step)));
  }

  /** Below a root with another identifier, the search goes into the left child when that holds `k`, else into the right. */
  lemma FindSplit(t: Tree, k: int)
    requires t.Node? && t.id != k
    ensures k in Ids(t.left) ==> Find(t, k) == Find(t.left, k)
    ensures k !in Ids(t.left) ==> Find(t, k) == Find(t.right, k)
  {
  }

  /**
   * Nothing else changes: in a tree with unique identifiers, every node the
   * step does not name keeps its identifier, value, position and both flags.
   */
  lemma {:induction false} ApplyStepFrame(t: Tree, step: Step, k: int)
    requires UniqueIds(t) && k in Ids(t) && step.nodeId != Some(k)
    ensures Find(ApplyStep(t, step), k).Some?
    ensures SameNode(Find(ApplyStep(t, step), k).value, Find(t, k).value)
  {
    var u := ApplyStep(t, step);
    IdsKept(t, step, k);
    if t.id != k {
      UniqueIdsNode(t);
      FindSplit(t, k);
      FindSplit(u, k);
      if step.nodeId == Some(t.id) {
        if step.kind == Swap {
          assert u.left == t.right && u.right == t.left;
        } else {
          assert u.left == t.left && u.right == t.right;
        }
      } else {
        IdsKept(t.left, step, k);
        if k in Ids(t.left) {
          ApplyStepFrame(t.left, step, k);
        } else {
          ApplyStepFrame(t.right, step, k);
        }
      }
    }
  }

  /** Exchanging the two parts after the first element keeps the multiset. */
  lemma SwapParts<T>(x: T, a: seq<T>, b: seq<T>)
    ensures multiset([x] + a + b) == multiset([x] + b + a)
  {
  }

  /** Replacing the two parts after the first element by permutations keeps the multiset. */
  lemma PermuteParts<T>(x: T, a: seq<T>, b: seq<T>, a': seq<T>, b': seq<T>)
    requires multiset(a) == multiset(a') && multiset(b) == multiset(b')
    ensures multiset([x] + a + b) == multiset([x] + a' + b')
  {
  }

  /** A step keeps the node count and every identifier and value, as often as they occur. */
  lemma {:induction false} ApplyStepContents(t: Tree, step: Step)
    ensures Size(ApplyStep(t, step)) == Size(t)
    ensures multiset(Ids(ApplyStep(t, step))) == multiset(Ids(t))
    ensures multiset(Values(ApplyStep(t, step))) == multiset(Values(t))
  {
    if t.Node? {
      var u := ApplyStep(t, step);
      if step.nodeId == Some(t.id) {
        if step.kind == Swap {
          assert u.left == t.right && u.right == t.left;
          SwapParts(t.id, Ids(t.right), Ids(t.left));
          SwapParts(t.value, Values(t.right), Values(t.left));
        } else {
          assert u.left == t.left && u.right == t.right;
        }
      } else {
        var l, r := ApplyStep(t.left, step), ApplyStep(t.right, step);
        assert u.left == l && u.right == r;
        ApplyStepContents(t.left, step);
        ApplyStepContents(t.right, step);
        PermuteParts(t.id, Ids(l), Ids(r), Ids(t.left), Ids(t.right));
        PermuteParts(t.value, Values(l), Values(r), Values(t.left), Values(t.right));
      }
    }
  }

  /** A highlight or an unhighlight changes display flags only: shape, ids and values stay. */
  lemma {:induction false} ApplyFlagStep(t: Tree, step: Step)
    requires step.kind != Swap
    ensures Strip(ApplyStep(t, step)) == Strip(t)
  {
    if t.Node? && step.nodeId != Some(t.id) {
      ApplyFlagStep(t.left, step);
      ApplyFlagStep(t.right, step);
    }
  }

  /** Applying the same swap step twice gives back the original shape, ids and values. */
  lemma {:induction false} SwapTwice(t: Tree, step: Step)
    requires step.kind == Swap
    ensures Strip(ApplyStep(ApplyStep(t, step), step)) == Strip(t)
  {
    if t.Node? && step.nodeId != Some(t.id) {
      SwapTwice(t.left, step);
      SwapTwice(t.right, step);
    }
  }

  // ---------------------------------------------------------------------
  // One step, on heap nodes

  /**
   * updateNode on the subtree rooted at `node`: returns the node it was
   * given, with the subtree changed as `ApplyStep` says and made of the same
   * objects. Writing a child back (`node.left = updateNode(node.left)`)
   * stores the object that was already there.
   */
  method UpdateNode(node: TreeNode?, step: Step) returns (r: TreeNode?)
    requires node != null ==> node.Valid()
    modifies if node != null then node.Repr else {}
    ensures r == node
    ensures node != null ==> node.Valid() && node.Repr == old(node.Repr)
    ensures node != null ==> node.Model == ApplyStep(old(node.Model), step)
    decreases if node != null then node.Repr else {}
  {
    if node == null {
      return null;
    }
    if step.nodeId == Some(node.id) {
      ChangeNode(node, step.kind);
      return node;
    }
    ghost var before := node.Model;
    var left := node.left;
    if left != null {
      left := UpdateNode(left, step);
    }
    assert ModelOf(left) == ApplyStep(before.left, step);
    var right := node.right;
    if right != null {
      right := UpdateNode(right, step);
    }
    assert ModelOf(right) == ApplyStep(before.right, step);
    assert left != node && right != node;
    node.Relink(left, right);
    return node;
  }

  /** The change made to the node a step names: set or clear its highlight, or swap its children. */
  method ChangeNode(node: TreeNode, kind: StepKind)
    requires node.Valid()
    modifies node.Repr
    ensures node.Valid() && node.Repr == old(node.Repr)
    ensures node.Model == Change(old(node.Model), kind)
  {
    match kind {
      case Highlight =>
        node.highlighted := true;
        node.Model := node.Model.(highlighted := true);
      case Unhighlight =>
        node.highlighted := false;
        node.Model := node.Model.(highlighted := false);
      case Swap =>
        node.animating := true;
        node.Model := node.Model.(animating := true);
        var temp := node.left;
        node.Relink(node.right, temp);
    }
  }

  /** applyStepToTree: applies the step to the tree it is given and returns that tree's root. */
  method ApplyStepToTree(treeClone: TreeNode, step: Step) returns (r: TreeNode)
    requires treeClone.Valid()
    modifies treeClone.Repr
    ensures r == treeClone && r.Valid() && r.Repr == old(treeClone.Repr)
    ensures r.Model == ApplyStep(old(treeClone.Model), step)
  {
    var updated := UpdateNode(treeClone, step);
    if updated != null {
      r := updated;
    } else {
      r := treeClone;
    }
  }

  // ---------------------------------------------------------------------
  // All the steps of a run

  /** The tree after applying `steps` one after the other, first to last. */
  function ApplySteps(t: Tree, steps: seq<Step>): Tree
  {
    if steps == [] then t
    else ApplyStep(ApplySteps(t, steps[..|steps| - 1]), steps[|steps| - 1])
  }

  /** The tree with the children of every node whose identifier is in `S` exchanged. */
  function MirrorSet(t: Tree, S: set<int>): Tree
  {
    if t.Nil? then Nil
    else if t.id in S then t.(left := MirrorSet(t.right, S), right := MirrorSet(t.left, S))
    else t.(left := MirrorSet(t.left, S), right := MirrorSet(t.right, S))
  }

  function Elements(s: seq<int>): set<int>
  {
    set k | k in s
  }

  /** Exchanging at the nodes of `S` keeps the identifiers. */
  lemma {:induction false} MirrorSetIds(t: Tree, S: set<int>)
    ensures forall k :: k in Ids(MirrorSet(t, S)) <==> k in Ids(t)
  {
    if t.Node? {
      MirrorSetIds(t.left, S);
      MirrorSetIds(t.right, S);
    }
  }

  /** Whether `k` is in `S` does not matter to a tree without a node `k`. */
  lemma {:induction false} MirrorSetIrrelevant(t: Tree, S: set<int>, k: int)
    requires k !in Ids(t)
    ensures MirrorSet(t, S + {k}) == MirrorSet(t, S)
  {
    if t.Node? {
      MirrorSetIrrelevant(t.left, S, k);
      MirrorSetIrrelevant(t.right, S, k);
    }
  }

  /** Exchanging at no node changes nothing. */
  lemma {:induction false} MirrorSetNone(t: Tree)
    ensures MirrorSet(t, {}) == t
  {
    if t.Node? {
      MirrorSetNone(t.left);
      MirrorSetNone(t.right);
    }
  }

  /** Exchanging at every node is inversion. */
  lemma {:induction false} MirrorSetAll(t: Tree, S: set<int>)
    requires forall k :: k in Ids(t) ==> k in S
    ensures MirrorSet(t, S) == Mirror(t)
  {
    if t.Node? {
      assert Ids(t) == [t.id] + Ids(t.left) + Ids(t.right);
      MirrorSetAll(t.left, S);
      MirrorSetAll(t.right, S);
    }
  }

  /** Trees alike but for display flags stay alike under the same step. */
  lemma {:induction false} ApplyStepStrip(a: Tree, b: Tree, step: Step)
    requires Strip(a) == Strip(b)
    ensures Strip(ApplyStep(a, step)) == Strip(ApplyStep(b, step))
  {
    if a.Node? {
      assert b.Node? && a.id == b.id;
      assert Strip(a.left) == Strip(b.left) && Strip(a.right) == Strip(b.right);
      if step.nodeId != Some(a.id) {
        ApplyStepStrip(a.left, b.left, step);
        ApplyStepStrip(a.right, b.right, step);
      }
    }
  }

  /**
   * With unique identifiers, the swap of a node not yet exchanged adds that
   * node to the exchanged ones.
   */
  lemma {:induction false} SwapAddsNode(t: Tree, S: set<int>, step: Step)
    requires UniqueIds(t)
    requires step.kind == Swap && step.nodeId.Some?
    requires step.nodeId.value in Ids(t) && step.nodeId.value !in S
    ensures Strip(ApplyStep(MirrorSet(t, S), step)) == Strip(MirrorSet(t, S + {step.nodeId.value}))
  {
    var k := step.nodeId.value;
    var T := S + {k};
    UniqueIdsNode(t);
    assert Ids(t) == [t.id] + Ids(t.left) + Ids(t.right);
    if t.id == k {
      MirrorSetIrrelevant(t.left, S, k);
      MirrorSetIrrelevant(t.right, S, k);
      assert MirrorSet(t, S) == t.(left := MirrorSet(t.left, S), right := MirrorSet(t.right, S));
      assert MirrorSet(t, T) == t.(left := MirrorSet(t.right, S), right := MirrorSet(t.left, S));
    } else {
      // The subtree holding `k` takes the swap, the other one has no node `k`.
      var a, b := MirrorSet(t.left, S), MirrorSet(t.right, S);
      MirrorSetIds(t.left, S);
      MirrorSetIds(t.right, S);
      if k in Ids(t.left) {
        SwapAddsNode(t.left, S, step);
        ApplyStepMissing(b, step);
        MirrorSetIrrelevant(t.right, S, k);
        assert Strip(ApplyStep(a, step)) == Strip(MirrorSet(t.left, T));
        assert ApplyStep(b, step) == MirrorSet(t.right, T);
      } else {
        SwapAddsNode(t.right, S, step);
        ApplyStepMissing(a, step);
        MirrorSetIrrelevant(t.left, S, k);
        assert Strip(ApplyStep(b, step)) == Strip(MirrorSet(t.right, T));
        assert ApplyStep(a, step) == MirrorSet(t.left, T);
      }
      var u, v := ApplyStep(MirrorSet(t, S), step), MirrorSet(t, T);
      if t.id in S {
        assert u.left == ApplyStep(b, step) && u.right == ApplyStep(a, step);
        assert v.left == MirrorSet(t.right, T) && v.right == MirrorSet(t.left, T);
      } else {
        assert u.left == ApplyStep(a, step) && u.right == ApplyStep(b, step);
        assert v.left == MirrorSet(t.left, T) && v.right == MirrorSet(t.right, T);
      }
      StripNode(u, v);
    }
  }

  /** Two nodes with the same identifier and value and matching stripped children strip alike. */
  lemma StripNode(u: Tree, v: Tree)
    requires u.Node? && v.Node? && u.id == v.id && u.value == v.value
    requires Strip(u.left) == Strip(v.left) && Strip(u.right) == Strip(v.right)
    ensures Strip(u) == Strip(v)
  {
  }

  /**
   * No element occurs twice in `s`, split as `a + b`: then none occurs twice
   * in `a`, every element of `a` is in `s`, and the elements of `s` are those
   * of `a` and those of `b`, none of which is in `a`.
   */
  lemma NoRepeatsSplit(s: seq<int>, a: seq<int>, b: seq<int>)
    requires s == a + b && forall k :: multiset(s)[k] <= 1
    ensures forall k :: multiset(a)[k] <= 1
    ensures forall k :: k in a ==> k in s
    ensures forall k :: k in b ==> k !in a
    ensures Elements(s) == Elements(a) + Elements(b)
  {
    assert multiset(s) == multiset(a) + multiset(b);
    forall k ensures multiset(a)[k] <= 1 {
      assert multiset(s)[k] <= 1;
    }
    forall k | k in b ensures k !in a {
      assert k in multiset(b);
      assert multiset(s)[k] <= 1;
    }
  }

  /** The swap targets of `steps` are those of all but its last step `st`, then `st`'s if it is a swap. */
  lemma SwapTargetsLast(steps: seq<Step>, p: seq<Step>, st: Step)
    requires steps != [] && p == steps[..|steps| - 1] && st == steps[|steps| - 1]
    ensures Targets(steps, IsSwap) == Targets(p, IsSwap) + (if IsSwap(st) && st.nodeId.Some? then [st.nodeId.value] else [])
  {
  }

  lemma {:induction false} ApplyStepsSwaps(t: Tree, steps: seq<Step>)
    requires UniqueIds(t)
    requires forall k :: multiset(Targets(steps, IsSwap))[k] <= 1
    requires forall k :: k in Targets(steps, IsSwap) ==> k in Ids(t)
    ensures Strip(ApplySteps(t, steps)) == Strip(MirrorSet(t, Elements(Targets(steps, IsSwap))))
  {
    if steps == [] {
      assert Elements(Targets(steps, IsSwap)) == {};
      MirrorSetNone(t);
    } else {
      var p, st := steps[..|steps| - 1], steps[|steps| - 1];
      var sp := Targets(p, IsSwap);
      var last := if IsSwap(st) && st.nodeId.Some? then [st.nodeId.value] else [];
      SwapTargetsLast(steps, p, st);
      NoRepeatsSplit(Targets(steps, IsSwap), sp, last);
      ApplyStepsSwaps(t, p);
      var before := MirrorSet(t, Elements(sp));
      ApplyStepStrip(ApplySteps(t, p), before, st);
      if IsSwap(st) && st.nodeId.Some? {
        var k := st.nodeId.value;
        assert k in last && k in Targets(steps, IsSwap) && k !in sp;
        assert Elements(last) == {k};
        assert Elements(Targets(steps, IsSwap)) == Elements(sp) + {k};
        SwapAddsNode(t, Elements(sp), st);
      } else {
        assert Targets(steps, IsSwap) == sp + [] == sp;
        if st.kind == Swap {
          ApplyStepMissing(before, st);
        } else {
          ApplyFlagStep(before, st);
        }
      }
      assert ApplySteps(t, steps) == ApplyStep(ApplySteps(t, p), st);
    }
  }

  /**
   * Applying, one after the other, all the steps any strategy generates for a
   * tree with unique identifiers yields the inverted tree, up to display
   * flags.
   */
  lemma ApplyGeneratedSteps(algorithm: AlgorithmType, t: Tree)
    requires UniqueIds(t)
    ensures Strip(ApplySteps(t, Generate(algorithm, t).steps)) == Strip(Mirror(t))
  {
    var steps := Generate(algorithm, t).steps;
    var swaps := Targets(steps, IsSwap);
    GenerateSwapsEachOnce(algorithm, t);
    assert forall k :: multiset(swaps)[k] == multiset(Ids(t))[k];
    assert forall k :: k in swaps <==> k in Ids(t) by {
      forall k ensures k in swaps <==> k in Ids(t) {
        assert k in swaps <==> k in multiset(swaps);
        assert k in Ids(t) <==> k in multiset(Ids(t));
      }
    }
    ApplyStepsSwaps(t, steps);
    MirrorSetAll(t, Elements(swaps));
  }
}
