/**
 * The worked examples of the traversals' documentation, on the tree
 *
 *         1
 *        / \
 *       2   3
 *      / \   \
 *     4   5   6
 */
module Examples {
  import opened Trees
  import opened Levels
  import opened Traversals
  import opened SpecOnly

  function Leaf(v: int): Tree<int> {
    Node(v, Nil, Nil)
  }

  function Sample(): Tree<int> {
    Node(1, Node(2, Leaf(4), Leaf(5)), Node(3, Nil, Leaf(6)))
  }

  /** A string form for one-digit values. */
  function Digit(x: int): string {
    if 0 <= x <= 9 then [('0' as int + x) as char] else "?"
  }

  lemma SampleLeafSumAndInternalCount()
    ensures SumLeafNodes(Sample()) == 4 + 5 + 6
    ensures CountInternalNodes(Sample()) == 3
  {
  }

  /** Post-order meets 4, 5, 2, 6, 3, 1. */
  lemma SamplePostOrderString()
    ensures BuildPostOrderString(Sample(), Digit) == "452631"
  {
  }

  /** 1 -> 3 -> 6 increases; a tree whose only path goes from 5 down to 3
      has no increasing path. */
  lemma SampleIncreasingPaths()
    ensures HasStrictlyIncreasingPath(Sample())
    ensures !HasStrictlyIncreasingPath(Node(5, Leaf(3), Nil))
  {
  }

  /** Changing only the values keeps the shape; a leaf has a different
      shape from a node with one child. */
  lemma SampleShapes()
    ensures SameShape(Sample(), Node(0, Node(0, Leaf(0), Leaf(0)), Node(0, Nil, Leaf(0))))
    ensures !SameShape(Leaf(1), Node(1, Leaf(2), Nil))
  {
  }

  lemma SamplePaths()
    ensures RootToLeafPaths(Sample()) == [[1, 2, 4], [1, 2, 5], [1, 3, 6]]
  {
    assert [2] + [4] == [2, 4] && [2] + [5] == [2, 5] && [3] + [6] == [3, 6];
    assert [1] + [2, 4] == [1, 2, 4] && [1] + [2, 5] == [1, 2, 5] && [1] + [3, 6] == [1, 3, 6];
    assert RootToLeafPaths(Node(2, Leaf(4), Leaf(5))) == [[2, 4], [2, 5]];
    assert RootToLeafPaths(Node(3, Nil, Leaf(6))) == [[3, 6]];
  }

  /** The levels of the sample tree are [1], [2, 3] and [4, 5, 6]. */
  lemma SampleLevels()
    ensures LevelOrder(Sample()) == [1, 2, 3, 4, 5, 6]
  {
    assert Height(Sample()) == 3;
    assert Level(Sample(), 1) == [2, 3];
    assert Level(Sample(), 2) == [4, 5, 6];
  }

  /** The breadth-first walk of the sample tree. */
  method SampleLevelOrder() returns (values: seq<int>)
    ensures values == [1, 2, 3, 4, 5, 6]
  {
    values := CollectLevelOrderValues(Sample());
    SampleLevels();
  }

  /** The sample tree holds six distinct values. */
  method SampleDistinct() returns (distinct: int)
    ensures distinct == 6
  {
    distinct := CountDistinctValues(Sample());
    assert ValueSet(Sample()) == {1, 2, 3, 4, 5, 6};
  }

  /** A repeated value is counted once. */
  method RepeatedDistinct() returns (distinct: int)
    ensures distinct == 2
  {
    distinct := CountDistinctValues(Node(5, Leaf(3), Leaf(3)));
    assert ValueSet(Node(5, Leaf(3), Leaf(3))) == {3, 5};
  }
}
