# Binary-tree traversals, modelled and proved in Dafny

The `Traversals` class of this repository (`src/Traversals.java`) is a set of
independent, read-only algorithms over a generic binary tree node with a
`value`, a `left` child and a `right` child, either of which may be null. This
project models those algorithms and proves what their documentation promises:

- `sumLeafNodes`: the sum of the values at the leaves;
- `countInternalNodes`: the number of nodes with at least one child;
- `buildPostOrderString`: the values' string forms concatenated in post-order;
- `collectLevelOrderValues`: a breadth-first walk driven by a FIFO queue that
  may hold nulls;
- `countDistinctValues`: a depth-first walk driven by a stack that may hold
  nulls, gathering the values into a hash set whose size it returns;
- `hasStrictlyIncreasingPath`, in its one-argument form and its helper form
  that carries the previous value: whether some root-to-leaf path increases
  strictly.

The tree is the datatype `Trees.Tree<T> = Nil | Node(value, left, right)`;
`Nil` is the null node. A tree is a value, so no traversal can change it, and
cycles cannot arise (a node the source would share is seen once per path to
it, as in the unfolded tree). The recursive algorithms are functions.
The two loop-based walks are methods with `while` loops: the queue is a
`seq` whose head is index 0 (`poll` takes the head, `add` appends); the stack
is a `seq` whose top is its last entry (`push` and `add` append, `pop` takes
the last); the output list is a `seq`, the hash set a `set<int>`.

Files:

- `trees.dfy` (module `Trees`): the datatype and the vocabulary of the
  specifications: size, height, the pre-order list of present subtrees, its
  leaves and internal nodes, pre- and post-order, the multiset and the set of
  values; forests (the contents of a queue or stack) with a weight that every
  step of either walk lowers.
- `levels.dfy` (module `Levels`): level order defined level by level
  (`LevelOrder`), the values a FIFO queue emits when drained (`Drain`), and
  the theorem that the two agree (`DrainSingleton`).
- `paths.dfy` (module `Paths`): root-to-leaf paths and strictly increasing
  sequences.
- `traversals.dfy` (module `Traversals`): the operations of the class and the
  lemmas that specify them.
- `spec_only.dfy` (module `SpecOnly`): the documented contracts of
  `haveSameShape` and `findAllRootToLeafPaths`, whose bodies in the source are
  unfinished (see "Left out").
- `examples.dfy` (module `Examples`): the documented example tree
  1(2(4, 5), 3(_, 6)) and the results the operations give on it.

The loop invariants are: for the level-order walk, the list built so far
followed by what the queue's forest still emits equals what the root alone
emits; for the distinct-value walk, the set built so far together with the
values of the trees on the stack equals the tree's value set. Both loops
terminate because each step lowers the forest's weight (each entry weighs
2 * Size + 1, the number of present and absent nodes it spans).

## Model

| member | source | states |
|---|---|---|
| `Traversals.SumLeafNodesIsSumOverLeaves` | src/Traversals.java:13-22 | sumLeafNodes equals the sum of the values of exactly those subtrees that are leaves (no children); 0 for an empty tree, the leaf's own value for a leaf |
| `Traversals.CountInternalNodesIsNonLeafCount` | src/Traversals.java:32-40 | countInternalNodes equals the number of subtrees with at least one child; it plus the number of leaves equals the number of nodes; 0 for an empty tree or a leaf |
| `Traversals.BuildPostOrderStringIsPostOrder` | src/Traversals.java:52-56 | buildPostOrderString equals the string forms of the values concatenated in post-order (left, right, node); "" for an empty tree |
| `Traversals.PostOrderStringOfCharacters` | src/Traversals.java:42-56 | when every value in the tree prints as one character the string has one character per node, the i-th being that of the i-th post-order value (the "abc" example of the documentation) |
| `Trees.PostOrderElements` | src/Traversals.java:42-46 | post-order lists every value of the tree as often as it occurs and ends with the root's value |
| `Trees.PostOrderIsReversedMirrorPreOrder` | src/Traversals.java:42-46 | post-order is the pre-order of the mirrored tree read backwards, an independent description of the visit order |
| `Traversals.CollectLevelOrderValues` | src/Traversals.java:66-93 | the queue-driven walk returns the level order (levels top to bottom, each left to right), one entry per node, the same multiset of values as the tree, [] for an empty tree and the root's value first otherwise |
| `Levels.DrainSingleton` | src/Traversals.java:70-89 | draining a FIFO queue that starts with the root, skipping nulls and queuing both children of each present node, emits exactly the level-by-level order |
| `Levels.DrainRound` | src/Traversals.java:75-89 | the queue emits the roots of its current forest first, then behaves as if their children had been queued behind the rest |
| `Levels.LevelOrderProperties` | src/Traversals.java:58-64 | the level order is [] for an empty tree, has the tree's multiset of values, one entry per node, and starts with the root |
| `Traversals.CountDistinctValues` | src/Traversals.java:102-133 | the stack-driven walk returns the number of distinct values in the tree, which lies between 0 and the node count and is 0 for an empty tree |
| `Trees.ValueSetBound` | src/Traversals.java:130-132 | a tree has no more distinct values than nodes |
| `Trees.ValueSetIsSupport` | src/Traversals.java:108-109 | the set of values holds exactly the values that occur in the tree |
| `Traversals.HasStrictlyIncreasingPathSpec` | src/Traversals.java:144-154 | true iff some root-to-leaf path has each value strictly greater than the one before; false for an empty tree, true for a leaf |
| `Traversals.HasStrictlyIncreasingPathAboveSpec` | src/Traversals.java:156-170 | the helper is true iff some root-to-leaf path, preceded by prev, increases strictly; false for an empty tree and when the root is not above prev |
| `Traversals.OverloadsAgree` | src/Traversals.java:144-170 | for a present root, the one-argument form equals the helper with prev just below the root's value |
| `SpecOnly.SameShapeIsEqualShape` | src/Traversals.java:173-182 | as documented (not as implemented): two trees have the same shape iff erasing their values makes them equal; same-shape trees have equal sizes and the relation is symmetric |
| `SpecOnly.SameShapeReflexive` | src/Traversals.java:173-182 | as documented: every tree has its own shape |
| `SpecOnly.RootToLeafPathsAreThePaths` | src/Traversals.java:195-214 | as documented (not as implemented): the enumeration lists exactly the root-to-leaf paths, left subtree's before right's |
| `SpecOnly.RootToLeafPathCount` | src/Traversals.java:195-214 | as documented: there is one path per leaf |
| `SpecOnly.RootToLeafPathsFollowLeaves` | src/Traversals.java:195-214 | as documented: the paths come in pre-order, the i-th ending at the value of the i-th leaf a pre-order walk meets |
| `Examples.SamplePaths` | src/Traversals.java:201-210 | on the documented tree the paths are [[1,2,4],[1,2,5],[1,3,6]] |
| `Examples.SampleLeafSumAndInternalCount` | src/Traversals.java:13-40 | on the sample tree the leaf sum is 15 and there are 3 internal nodes |
| `Examples.SamplePostOrderString` | src/Traversals.java:52-56 | on the sample tree with one-digit string forms the result is "452631" |
| `Examples.SampleLevels` | src/Traversals.java:58-64 | the level order of the sample tree is [1, 2, 3, 4, 5, 6] |
| `Examples.SampleLevelOrder` | src/Traversals.java:66-93 | the queue-driven walk returns [1, 2, 3, 4, 5, 6] on the sample tree |
| `Examples.SampleDistinct` | src/Traversals.java:102-133 | the sample tree has 6 distinct values |
| `Examples.RepeatedDistinct` | src/Traversals.java:102-133 | the tree 5(3, 3) has 2 distinct values |
| `Examples.SampleIncreasingPaths` | src/Traversals.java:144-170 | the sample tree has an increasing path; the tree 5(3, _) has none |
| `Examples.SampleShapes` | src/Traversals.java:173-182 | as documented: trees with the same arrangement have the same shape; a leaf and a node with one child do not |

## Left out

- haveSameShape: the body (src/Traversals.java:183-185) always returns false, an unfinished exercise; only its documented contract is stated, in `SpecOnly`, and nothing models the stub itself.
- findAllRootToLeafPaths: the body (src/Traversals.java:215-217) returns null, an unfinished exercise; only its documented contract (paths in pre-order) is stated, as the function `SpecOnly.RootToLeafPaths`, and its suggested backtracking implementation is not modelled.
- SumLeafNodes: Java's 32-bit `int` wrap-around is not modelled; the sum is over unbounded integers. Because Java's `int` addition is addition modulo 2^32, the Java result is this sum reduced into the `int` range, so the proved equality holds for Java exactly when the total leaf sum lies within that range, whatever the partial sums do.
- CountInternalNodes: the count is over unbounded integers; a Java `int` could only overflow for trees of more than 2^31 - 1 nodes.
- HasStrictlyIncreasingPathAbove: `prev` and the values are unbounded integers rather than 32-bit `int`s; the comparisons are the same for every value a Java `int` holds. `OverloadsAgree` passes the root's value minus one as `prev`, which has no Java `int` counterpart when the root holds Integer.MIN_VALUE (Java would wrap it to Integer.MAX_VALUE), so it is a fact about the model's unbounded integers only.
- BuildPostOrderString: Java's conversion of a value to a string (`String.valueOf`) is not modelled; it is the parameter `str`.
- A null value stored in a node is not modelled: values are never null here. In the source its effect differs by operation: sumLeafNodes fails to unbox it when it sits at a leaf (src/Traversals.java:18) and ignores it elsewhere; countInternalNodes never reads a value; the one-argument hasStrictlyIncreasingPath fails to unbox a null at a non-leaf root when passing it on as `prev` (src/Traversals.java:153), and the helper fails at the comparison with `prev` (src/Traversals.java:160); countDistinctValues adds it to the hash set (src/Traversals.java:122), where it counts as one more distinct value; collectLevelOrderValues copies it into the list (src/Traversals.java:83) and buildPostOrderString writes it as "null" (src/Traversals.java:55).
- `ArrayList`, `LinkedList` used as a queue, `Stack` and `HashSet` are modelled by sequences and a set, not as implementations; running time and memory are not modelled.
- Cyclic node graphs cannot be built from the datatype. On one reachable from the root, sumLeafNodes, countInternalNodes and buildPostOrderString recurse until the call stack overflows; collectLevelOrderValues keeps appending to its list until memory runs out; countDistinctValues can loop forever with a bounded stack; hasStrictlyIncreasingPath still terminates, because the helper recurses only into a node whose value exceeds `prev` and passes that value on as the next `prev` (src/Traversals.java:160, src/Traversals.java:169), so no node occurs twice in a chain of calls, and on such a graph its answer is not modelled. A node graph that shares nodes without a cycle is covered: each walk terminates on it and visits a shared node once per path that reaches it, which is what the same operation computes on the tree obtained by unfolding the sharing.

Both `haveSameShape` and `findAllRootToLeafPaths` are unfinished exercises in
the source (marked "OPTIONAL CHALLENGE", with hints, src/Traversals.java:172-194);
`SpecOnly` states the contracts of their doc comments and models neither body.
