# Binary tree inversion visualiser — a Dafny model

The modelled program animates LeetCode problem 226, "invert a binary tree".
A tree of `TreeNode` objects carries an identifier, a value, two child
references, a screen position and two display flags. An `InversionAlgorithm`
runs one of three strategies over the tree:

- recursive post-order;
- iterative breadth-first, with a queue;
- iterative depth-first, with a stack.

Each strategy writes down a timeline of `Step`s: highlight, swap or
unhighlight a node, each with a message and a time stamp. A playback hook
moves a cursor through those steps on a timer or on the user's controls.
The canvas applies the step under the cursor to a copy of the tree. A small
utility library inverts a tree in place, compares two trees, measures
height, lists values breadth-first and builds perfect trees.

The model follows the program's structure, one module per source file:

| module | file | models |
|---|---|---|
| `Trees`, `Traversals` | (shared) | trees as values, sizes, heights, identifier lists, pre-, post- and level order, and the queue and stack worklists |
| `TreeNodes` | `tree_node.dfy` | `TreeNode` as a heap class (ghost `Repr`/`Model`), its constructor, clone and the example tree |
| `TreeOperations` | `tree_operations.dfy` | `invertTree`, `areTreesEqual`, `getTreeHeight`, `bfsTraversal`, `createBalancedTree` |
| `TreeInversion` | `tree_inversion.dfy` | the step generator: `InversionAlgorithm` as a class, proved against value-level runs |
| `InversionProperties` | `inversion_properties.dfy` | what the generated timelines satisfy |
| `TreeCanvas` | `tree_canvas.dfy` | the step guard and `applyStepToTree`, on values and on the heap |
| `AnimationController` | `animation_controller.dfy` | the playback hook as transitions on values and as a class |
| `ExampleRun` | `example_run.dfy` | the seven-node example tree worked through |

Every class method is proved against a function on values:
`InversionAlgorithm.RecursiveInvert` produces `RecRun(node, old(State()))`,
`UpdateNode` leaves the tree at `ApplyStep(old(Model), step)`, and
`PlaybackController.Tick` moves to `AfterTick(old(State()), |steps|)`. The
properties are then proved about those functions.

The main results:

- All three strategies swap every node exactly once, in post-order,
  breadth-first order and pre-order respectively.
- Their time stamps strictly increase.
- Every swap is immediately followed by the unhighlight of the same node.
- Folding the whole timeline through the canvas's step application turns a
  tree with unique identifiers into its mirror image. Display fields are not
  compared.

## Model

| member | source | states |
|---|---|---|
| `TreeNodes.TreeNode.constructor` | src/models/TreeNode.ts:22-31 | builds a valid subtree of freshly allocated nodes whose snapshot is `Build(data)`, the record read with its defaults |
| `TreeNodes.BuildDefaults` | src/models/TreeNode.ts:22-31 | id and value are copied; a child is present exactly when the record has one; absent x and y become 0 and absent flags become false; present fields are copied |
| `TreeNodes.BuildRecord` | src/models/TreeNode.ts:22-31 | building a node from the full record of any tree gives back that tree: the constructor loses no field |
| `TreeNodes.TreeNode.Clone` | src/models/TreeNode.ts:54-73 | the copy is valid, made of fresh objects disjoint from the original, and equal to the original in every field at every position |
| `TreeNodes.TreeNode.AttachLeft` | src/models/TreeNode.ts:64-66 | on a node without a left child, the new left subtree is the child's snapshot, the rest is unchanged, and the footprint grows by the child's |
| `TreeNodes.TreeNode.AttachRight` | src/models/TreeNode.ts:68-70 | the same for the right child |
| `TreeNodes.TreeNode.CreateExampleTree` | src/models/TreeNode.ts:34-51 | returns a fresh valid tree whose snapshot is the seven-node example |
| `ExampleRun.ExampleTreeWritten` | src/models/TreeNode.ts:34-51 | the example record builds the tree written out node by node, with default positions and flags |
| `ExampleRun.ExampleTreeIds` | src/models/TreeNode.ts:34-51 | the example has 7 nodes with identifiers 1, 2, 4, 5, 3, 6, 7 in pre-order, all distinct |
| `ExampleRun.ExampleLevelOrder` | src/models/TreeNode.ts:34-51 | breadth-first, the example's identifiers are 1..7 and its values 4, 2, 7, 1, 3, 6, 9 |
| `ExampleRun.ExampleInverted` | src/utils/TreeOperations.ts:8-20 | the inverted example lists values 4, 7, 2, 9, 6, 3, 1 breadth-first |
| `ExampleRun.ExamplePostOrder` | src/models/TreeNode.ts:34-51 | the example's post-order identifiers are 4, 5, 2, 6, 7, 3, 1 |
| `ExampleRun.SevenNodeRun` | src/algorithms/TreeInversion.ts:38-91 | on any seven-node tree with unique identifiers, the recursive strategy emits 27 steps, swaps in post-order and, applied step by step, yields the mirror (display fields aside) |
| `ExampleRun.ExampleRecursiveRun` | src/algorithms/TreeInversion.ts:38-91 | on the example, the recursive strategy emits 27 steps and swaps nodes 4, 5, 2, 6, 7, 3, 1, and replaying them yields the inverted example (display fields aside) |
| `TreeOperations.InvertTree` | src/utils/TreeOperations.ts:8-20 | returns the root it was given (null for null), keeps the same node objects, and leaves them holding the mirror image of its old snapshot |
| `TreeOperations.MirrorInvolution` | src/utils/TreeOperations.ts:8-20 | inverting twice gives back the original tree |
| `TreeOperations.MirrorSizeHeight` | src/utils/TreeOperations.ts:8-20 | inversion keeps the number of nodes and the height |
| `TreeOperations.MirrorContents` | src/utils/TreeOperations.ts:8-20 | inversion keeps the multisets of identifiers and of values |
| `TreeOperations.AreTreesEqual` | src/utils/TreeOperations.ts:28-40 | two trees that compare equal have the same number of nodes, the same height and the same values in pre-order |
| `TreeOperations.AreTreesEqualMeansSameValueShape` | src/utils/TreeOperations.ts:28-40 | two trees compare equal if and only if they have the same shape and the same value at every position; identifiers, positions and flags are ignored |
| `TreeOperations.AreTreesEqualEquivalence` | src/utils/TreeOperations.ts:28-40 | the comparison is reflexive, symmetric and transitive |
| `TreeOperations.InvertTwiceIsEqual` | src/utils/TreeOperations.ts:8-40 | a tree inverted twice compares equal to the original |
| `Trees.Height` | src/utils/TreeOperations.ts:47-54 | the height (0 for an empty tree, else one more than the taller child) never exceeds the number of nodes |
| `Trees.HeightBounds` | src/utils/TreeOperations.ts:47-54 | the height is at most the number of nodes, and the number of nodes is below 2 to the power of the height |
| `TreeOperations.HeightCountsLevels` | src/utils/TreeOperations.ts:47-54 | depth d has a node if and only if d is below the height |
| `TreeOperations.BfsTraversal` | src/utils/TreeOperations.ts:61-76 | the result is the values in level order; it has one entry per node, starts with the root's value, and is a permutation of the tree's values |
| `TreeOperations.LevelOrderValues` | src/utils/TreeOperations.ts:61-76 | the level-order value list has one entry per node, starts with the root's value and is a permutation of the values |
| `TreeOperations.QueueRound` | src/utils/TreeOperations.ts:67-73 | one round of the loop emits the front node's value and leaves a strictly smaller worklist |
| `Traversals.QueueOrderIsLevelOrder` | src/utils/TreeOperations.ts:64-73 | a first-in first-out worklist seeded with a tree hands out its nodes in level order |
| `Traversals.QueueOrderPermutation` | src/utils/TreeOperations.ts:64-73 | the queue hands out exactly the nodes of the worklist's trees, counted with multiplicity |
| `Traversals.LevelOrderPermutation` | src/utils/TreeOperations.ts:61-76 | the level order is a permutation of the pre-order and has one entry per node |
| `Traversals.StackOrderIsPreOrder` | src/algorithms/TreeInversion.ts:176-209 | a last-in first-out worklist that pushes right before left hands out a tree's nodes in pre-order |
| `Traversals.PostOrderPermutation` | src/algorithms/TreeInversion.ts:38-91 | the post-order is a permutation of the pre-order |
| `TreeOperations.GenerateTree` | src/utils/TreeOperations.ts:87-100 | past the requested height (depth > height) it returns null; otherwise it returns a fresh valid perfect subtree of height `height - depth + 1` rooted at `index` |
| `TreeOperations.CreateBalancedTree` | src/utils/TreeOperations.ts:84-103 | a height of 0 or less gives null; otherwise a fresh valid perfect tree of that height rooted at identifier 1 |
| `TreeOperations.PerfectShape` | src/utils/TreeOperations.ts:84-103 | a perfect tree of height h has 2^h - 1 nodes and height h |
| `TreeOperations.PerfectLevel` | src/utils/TreeOperations.ts:87-100 | depth d of the subtree rooted at index i holds identifiers i*2^d up to (i+1)*2^d, left to right |
| `TreeOperations.PerfectLevelOrder` | src/utils/TreeOperations.ts:84-103 | breadth-first, the identifiers are 1 .. 2^h - 1 and the values run up from the start value |
| `TreeOperations.PerfectUniqueIds` | src/utils/TreeOperations.ts:84-103 | the identifiers of a balanced tree are all distinct |
| `TreeInversion.InversionAlgorithm.constructor` | src/algorithms/TreeInversion.ts:12-19 | the strategy is stored, the step list starts empty and the clock at 0 |
| `TreeInversion.InversionAlgorithm.GenerateSteps` | src/algorithms/TreeInversion.ts:22-35 | it resets the list and the clock, runs the chosen strategy, and returns exactly the steps that `Generate` describes |
| `TreeInversion.InversionAlgorithm.Emit` | src/algorithms/TreeInversion.ts:42-48 | appends one step stamped with the current clock and then advances the clock by the pause |
| `TreeInversion.InversionAlgorithm.RecursiveInvert` | src/algorithms/TreeInversion.ts:38-91 | the list and clock end as `RecRun` says: visit, descend left, descend right, swap, unhighlight |
| `TreeInversion.InversionAlgorithm.IterativeQueueInvert` | src/algorithms/TreeInversion.ts:94-160 | an empty tree changes nothing; otherwise the root highlight (+500) is followed by the queue loop's run |
| `TreeInversion.InversionAlgorithm.IterativeStackInvert` | src/algorithms/TreeInversion.ts:163-229 | an empty tree changes nothing; otherwise the root highlight (+500) is followed by the stack loop's run |
| `InversionProperties.RecRunCount` | src/algorithms/TreeInversion.ts:38-91 | the recursive strategy adds 4n-1 steps and advances the clock by 1800n-300 for a tree of n nodes, and nothing for an empty one |
| `InversionProperties.QueueRunCount` | src/algorithms/TreeInversion.ts:107-159 | the queue loop extends the run and adds 4 steps per node, less one per tree it starts with, and 1500 per node less 200 per starting tree to the clock |
| `InversionProperties.StackRunCount` | src/algorithms/TreeInversion.ts:176-228 | the same counts for the stack loop |
| `InversionProperties.GenerateCount` | src/algorithms/TreeInversion.ts:22-229 | an empty tree gives no steps; n nodes give 4n-1 recursive steps ending at clock 1800n-300, or 4n iterative steps ending at 1500n+300 |
| `InversionProperties.RecRunPaced` | src/algorithms/TreeInversion.ts:38-91 | the recursive strategy keeps stamps strictly increasing and below the clock |
| `InversionProperties.QueueRunPaced` | src/algorithms/TreeInversion.ts:107-159 | the queue loop keeps stamps strictly increasing and below the clock |
| `InversionProperties.StackRunPaced` | src/algorithms/TreeInversion.ts:176-228 | the stack loop keeps stamps strictly increasing and below the clock |
| `InversionProperties.GenerateTimeline` | src/algorithms/TreeInversion.ts:22-229 | every generated timeline has strictly increasing stamps; for a non-empty tree it starts with a highlight of the root at time 0 |
| `InversionProperties.RecRunSettled` | src/algorithms/TreeInversion.ts:74-90 | in the recursive strategy, every swap is immediately followed by the unhighlight of the same node |
| `InversionProperties.QueueRunSettled` | src/algorithms/TreeInversion.ts:142-158 | the same for the queue loop |
| `InversionProperties.StackRunSettled` | src/algorithms/TreeInversion.ts:211-227 | the same for the stack loop |
| `InversionProperties.GenerateSettled` | src/algorithms/TreeInversion.ts:22-229 | in every generated timeline, each swap is immediately followed by the unhighlight of the same node |
| `InversionProperties.RecRunSwaps` | src/algorithms/TreeInversion.ts:38-91 | the recursive strategy swaps the nodes in post-order |
| `InversionProperties.QueueRunSwaps` | src/algorithms/TreeInversion.ts:107-159 | the queue loop swaps the nodes in the order the queue hands them out |
| `InversionProperties.StackRunSwaps` | src/algorithms/TreeInversion.ts:176-228 | the stack loop swaps the nodes in the order the stack hands them out |
| `InversionProperties.GenerateSwapOrder` | src/algorithms/TreeInversion.ts:22-229 | the swaps follow post-order (recursive), level order (queue) or pre-order (stack) |
| `InversionProperties.SwapOrderPermutation` | src/algorithms/TreeInversion.ts:22-229 | each of those orders is a permutation of the tree's identifiers |
| `InversionProperties.GenerateSwapsEachOnce` | src/algorithms/TreeInversion.ts:22-229 | every strategy swaps each node exactly as often as its identifier occurs in the tree, so once when identifiers are unique |
| `InversionProperties.RecRunVisits` | src/algorithms/TreeInversion.ts:41-48 | the "visit node" highlights of the recursive strategy come in pre-order |
| `InversionProperties.QueueRunDequeues` | src/algorithms/TreeInversion.ts:107-117 | the "take from queue" highlights come in queue order |
| `InversionProperties.StackRunPops` | src/algorithms/TreeInversion.ts:176-186 | the "take from stack" highlights come in stack order |
| `InversionProperties.GenerateVisits` | src/algorithms/TreeInversion.ts:22-229 | recursive visits follow pre-order, queue removals follow level order, and stack removals follow pre-order |
| `InversionProperties.RecRunTouches` | src/algorithms/TreeInversion.ts:38-91 | every step the recursive strategy adds for a subtree names a node of that subtree |
| `InversionProperties.LeftBeforeRight` | src/algorithms/TreeInversion.ts:51-81 | with unique identifiers, every step about the left subtree comes before every step about the right subtree |
| `InversionProperties.RecRunNames` | src/algorithms/TreeInversion.ts:38-91 | recursive steps name only nodes of the tree |
| `InversionProperties.QueueRunNames` | src/algorithms/TreeInversion.ts:94-160 | queue steps name only nodes of the worklist's trees |
| `InversionProperties.StackRunNames` | src/algorithms/TreeInversion.ts:163-229 | stack steps name only nodes of the worklist's trees |
| `InversionProperties.GenerateNames` | src/algorithms/TreeInversion.ts:22-229 | every generated step carries a node identifier, and that identifier is in the tree |
| `TreeCanvas.StepToApply` | src/components/TreeCanvas.tsx:103-106 | a step is applied exactly when the cursor is inside the list and the step's node identifier is present and not 0; it is then the step under the cursor |
| `TreeCanvas.GuardAppliesGenerated` | src/components/TreeCanvas.tsx:103-106 | for a generated timeline over a tree without node 0, a step is applied exactly when the cursor is inside the list |
| `TreeCanvas.Change` | src/components/TreeCanvas.tsx:118-129 | the changed node keeps its identifier and value |
| `TreeCanvas.ApplyStep` | src/components/TreeCanvas.tsx:115-142 | a step never empties or fills a tree, and the root keeps its identifier and value |
| `TreeCanvas.ApplyStepMissing` | src/components/TreeCanvas.tsx:115-144 | a step without an identifier, or one naming no node, leaves the tree as it is |
| `TreeCanvas.ApplyStepAt` | src/components/TreeCanvas.tsx:118-130 | after a step, the first node with the step's identifier is that node changed by the step's kind |
| `TreeCanvas.ApplyStepFrame` | src/components/TreeCanvas.tsx:115-142 | with unique identifiers, every node the step does not name is still found after the step, with the same identifier, value, position and flags |
| `TreeCanvas.ApplyStepContents` | src/components/TreeCanvas.tsx:115-144 | a step keeps the number of nodes and the multisets of identifiers and values |
| `TreeCanvas.ApplyFlagStep` | src/components/TreeCanvas.tsx:118-122 | a highlight or unhighlight keeps the shape, identifiers and values of the whole tree; together with `ApplyStepFrame`, only the named node's flag changes |
| `TreeCanvas.SwapTwice` | src/components/TreeCanvas.tsx:123-129 | the same swap applied twice restores the tree up to display fields |
| `TreeCanvas.UpdateNode` | src/components/TreeCanvas.tsx:115-142 | returns the node it was given, keeps the same objects, and leaves the tree at `ApplyStep` of its old snapshot |
| `TreeCanvas.ChangeNode` | src/components/TreeCanvas.tsx:118-130 | on the named node, the same objects end up holding `Change` of the old snapshot: a highlight sets the flag, an unhighlight clears it, and a swap exchanges the children and sets `animating` |
| `TreeCanvas.ApplyStepToTree` | src/components/TreeCanvas.tsx:114-145 | returns the clone it was given, now holding `ApplyStep` of its old snapshot |
| `TreeCanvas.ApplyStepsSwaps` | src/components/TreeCanvas.tsx:114-145 | with unique identifiers, applying a sequence of steps whose swaps name distinct nodes of the tree mirrors exactly those nodes (display fields aside) |
| `TreeCanvas.ApplyGeneratedSteps` | src/components/TreeCanvas.tsx:114-145 | applying all the steps any strategy generates, one after another, turns a tree with unique identifiers into its mirror image (display fields aside) |
| `AnimationController.PlaybackController.constructor` | src/utils/AnimationController.ts:23-31 | keeps the steps and the initial speed; starts paused before the first step |
| `AnimationController.Narrate` | src/utils/AnimationController.ts:34-43 | a step's message is shown exactly when the cursor is inside the list; otherwise the ready text |
| `AnimationController.PlaybackController.CurrentMessage` | src/utils/AnimationController.ts:34-43 | the hook shows a step's message exactly when its cursor is inside its list, and then the message of the step under the cursor |
| `AnimationController.NarrationMatchesCanvas` | src/utils/AnimationController.ts:34-43 | on a generated timeline over a tree without node 0, the canvas applies a step exactly when its message is shown, and it is the narrated step |
| `AnimationController.NextDelay` | src/utils/AnimationController.ts:54-63 | the wait is the gap between the stamps of the next and the current step exactly when both exist; otherwise one second |
| `AnimationController.GeneratedDelays` | src/utils/AnimationController.ts:54-63 | on a generated timeline the first wait is the one-second fallback, every later wait is a positive stamp gap, and the time elapsed at step k is its stamp |
| `AnimationController.ElapsedIsStampDifference` | src/utils/AnimationController.ts:54-63 | the gaps waited up to step k add up to the difference between its stamp and the first |
| `AnimationController.PlaybackController.Tick` | src/utils/AnimationController.ts:46-70 | paused: nothing happens; at the last step: playback stops; otherwise the cursor advances after the wait `NextDelay` gives |
| `AnimationController.TicksAdvance` | src/utils/AnimationController.ts:46-70 | while steps remain, n timer firings advance the cursor by n |
| `AnimationController.PlaybackStopsAtEnd` | src/utils/AnimationController.ts:46-70 | playing from anywhere in range reaches the last step, and the next firing stops playback there |
| `AnimationController.PausedStaysPut` | src/utils/AnimationController.ts:46-47 | while paused, firings change nothing |
| `AnimationController.PlaybackController.Play` | src/utils/AnimationController.ts:72-77 | starts playback, rewinding to before the first step when at or past the last |
| `AnimationController.PlayAtEndRestarts` | src/utils/AnimationController.ts:46-77 | playing at the end and letting one firing pass shows the first step |
| `AnimationController.PlaybackController.Pause` | src/utils/AnimationController.ts:79-81 | stops playback and keeps the cursor |
| `AnimationController.PlaybackController.StepForward` | src/utils/AnimationController.ts:83-87 | advances the cursor by one unless at or past the last step |
| `AnimationController.PlaybackController.StepBackward` | src/utils/AnimationController.ts:89-93 | moves the cursor back by one unless before the first step |
| `AnimationController.StepForwardBackward` | src/utils/AnimationController.ts:83-93 | a step forward and a step back undo each other within range; each control does nothing at its end |
| `AnimationController.PlaybackController.Reset` | src/utils/AnimationController.ts:95-98 | stops playback and moves the cursor before the first step |
| `AnimationController.PlaybackController.SetSpeed` | src/utils/AnimationController.ts:30 | changes the speed and nothing else |
| `AnimationController.PlaybackController.SetSteps` | src/utils/AnimationController.ts:23-27 | a new step list replaces the old one; the cursor and playing flag are kept |
| `AnimationController.OperationsKeepRange` | src/utils/AnimationController.ts:46-98 | every control and every timer firing keeps the cursor between -1 and the last step |

## Left out

- Layout and drawing are not modelled: `updatePositions` and the d3 rendering in the canvas compute screen coordinates only. The x and y fields are carried as integers and never read.
- The canvas effect at TreeCanvas.tsx:108 applies the current step to a fresh clone and discards the result. The model gives the meaning of that application (`ApplyStepToTree`, `ApplySteps`) but not the discarding.
- `ApplyStep` follows the code of `updateNode`: after changing a matching node it does not search below it, but it still visits the sibling subtrees. So every topmost node with the step's identifier is changed, not only the first in pre-order. With unique identifiers the two readings agree.
- The canvas guard skips a step whose node identifier is 0, because 0 reads as false. The properties that connect the guard to generated timelines assume no node is numbered 0. The example tree and `createBalancedTree` number from 1.
- `AnimationController.PlaybackController.Tick`: one call stands for one run of the playback effect together with the timeout it schedules. React scheduling, `clearTimeout` on cleanup and the real clock are not modelled.
- `AnimationController.NextDelay`: returns the undivided stamp gap. The division by the floating-point speed is left out.
- The `onStepChange` callback is left out. It is foreign code called with the current index.
- Step messages are modelled as a `Message` datatype carrying the node value where the text shows one. The Chinese text itself is not modelled.
- `AnimationController.PlaybackController.SetSteps`: keeps the cursor when the list changes, as the hook does. A cursor past the end of a shorter list is therefore possible. `OperationsKeepRange` holds for a fixed list only.
- `TreeInversion.InversionAlgorithm`, `TreeOperations.BfsTraversal`, `TreeOperations.AreTreesEqual`, `Trees.Height`: these read the tree as a value snapshot (`Trees.Tree`) rather than as `TreeNode` objects. The source only reads the tree in `generateSteps`, `bfsTraversal`, `areTreesEqual` and `getTreeHeight`, so no update in place or aliasing is lost.
- The default arguments (`'recursive'` for the strategy, speed 1 for the hook, `startValue = 1` for `createBalancedTree` at src/utils/TreeOperations.ts:84) are not modelled: the model's constructors take both arguments explicitly, and `CreateBalancedTree` takes `start` explicitly.
- `TreeNodes.TreeNode.constructor`: the `||` defaults are modelled for absent fields. A present but falsy x or y is 0 either way, and a present flag is kept. NaN positions have no counterpart in integers.
- The source sets id and value, builds the children, then sets x, y and the flags. The constructor sets every scalar field before attaching the children. The order is not observable because the calls share no state.
- `TreeCanvas.ApplyGeneratedSteps`, `TreeCanvas.ApplyStepsSwaps`, `TreeCanvas.SwapTwice`, `ExampleRun.SevenNodeRun`, `ExampleRun.ExampleRecursiveRun`: these compare trees up to the display fields (`Strip`). After a full replay, swapped nodes keep `animating` set.
- JavaScript numbers are modelled as unbounded integers. Floating-point precision limits are not modelled.
- The application shell, the control panel and the components other than the canvas's step handling are not part of this model.
