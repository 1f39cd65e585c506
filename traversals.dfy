/**
 * The traversal algorithms of the `Traversals` class, one member per source
 * method. None of them changes the tree: a tree is a value here. The two
 * walks that the source drives with an explicit queue or stack are methods
 * with a loop; the recursive ones are functions, specified by the lemmas that
 * follow each of them.
 */
module Traversals {
  import opened Trees
  import opened Levels
  import opened Paths

  // ---------------------------------------------------------------------
  // sumLeafNodes
  // ---------------------------------------------------------------------

  /** The sum of the values at the leaves; 0 for the empty tree. */
  function SumLeafNodes(t: Tree<int>): int {
    match t
    case Nil => 0
    case Node(v, l, r) =>
      if l.Nil? && r.Nil? then v else SumLeafNodes(l) + SumLeafNodes(r)
  }

  /** The sum of the values of the present entries of `ss`. */
  function SumOfValues(ss: seq<Tree<int>>): int {
    if ss == [] then 0
    else (if ss[0].Node? then ss[0].value else 0) + SumOfValues(ss[1..])
  }

  lemma {:induction false} SumOfValuesAppend(a: seq<Tree<int>>, b: seq<Tree<int>>)
    ensures SumOfValues(a + b) == SumOfValues(a) + SumOfValues(b)
  {
    if a == [] {
      assert a + b == b;
    } else {
      assert (a + b)[0] == a[0] && (a + b)[1..] == a[1..] + b;
      SumOfValuesAppend(a[1..], b);
    }
  }

  /** The result is the sum over every leaf of the tree, found among all its
      subtrees; in particular 0 for the empty tree and the value itself for a
      single leaf. */
  lemma {:induction false} SumLeafNodesIsSumOverLeaves(t: Tree<int>)
    ensures SumLeafNodes(t) == SumOfValues(Leaves(Subtrees(t)))
    ensures t.Nil? ==> SumLeafNodes(t) == 0
    ensures IsLeaf(t) ==> SumLeafNodes(t) == t.value
  {
    match t
    case Nil =>
    case Node(v, l, r) =>
      SumLeafNodesIsSumOverLeaves(l);
      SumLeafNodesIsSumOverLeaves(r);
      SubtreesOfNode(t);
      var ll, lr := Leaves(Subtrees(l)), Leaves(Subtrees(r));
      SumOfValuesAppend(Leaves([t]) + ll, lr);
      SumOfValuesAppend(Leaves([t]), ll);
      assert [t][1..] == [];
      if IsLeaf(t) {
        assert Subtrees(l) == [] && Subtrees(r) == [];
        assert Leaves<int>([]) == [];
      }
  }

  // ---------------------------------------------------------------------
  // countInternalNodes
  // ---------------------------------------------------------------------

  /** The number of nodes with at least one child. */
  function CountInternalNodes(t: Tree<int>): int {
    match t
    case Nil => 0
    case Node(_, l, r) =>
      if l.Node? || r.Node? then 1 + CountInternalNodes(l) + CountInternalNodes(r) else 0
  }

  /** The result counts exactly the internal nodes among all subtrees, so
      together with the leaves it accounts for every node; it is 0 for the
      empty tree and for a leaf. */
  lemma {:induction false} CountInternalNodesIsNonLeafCount(t: Tree<int>)
    ensures CountInternalNodes(t) == |InternalNodes(Subtrees(t))|
    ensures CountInternalNodes(t) + LeafCount(t) == Size(t)
    ensures t.Nil? || IsLeaf(t) ==> CountInternalNodes(t) == 0
  {
    match t
    case Nil =>
    case Node(v, l, r) =>
      CountInternalNodesIsNonLeafCount(l);
      CountInternalNodesIsNonLeafCount(r);
      SubtreesOfNode(t);
      assert [t][1..] == [];
      if IsLeaf(t) {
        assert Subtrees(l) == [] && Subtrees(r) == [];
        assert Leaves<int>([]) == [] && InternalNodes<int>([]) == [];
      }
  }

  // ---------------------------------------------------------------------
  // buildPostOrderString
  // ---------------------------------------------------------------------

  /** Post-order concatenation of the values' string forms; `str` stands for
      the string conversion of the value type. */
  function BuildPostOrderString<T>(t: Tree<T>, str: T -> string): string {
    match t
    case Nil => ""
    case Node(v, l, r) => BuildPostOrderString(l, str) + BuildPostOrderString(r, str) + str(v)
  }

  /** The string forms of `xs`, one after another. */
  function ConcatMap<T>(xs: seq<T>, str: T -> string): string {
    if xs == [] then "" else str(xs[0]) + ConcatMap(xs[1..], str)
  }

  lemma {:induction false} ConcatMapAppend<T>(a: seq<T>, b: seq<T>, str: T -> string)
    ensures ConcatMap(a + b, str) == ConcatMap(a, str) + ConcatMap(b, str)
  {
    if a == [] {
      assert a + b == b;
    } else {
      assert (a + b)[0] == a[0] && (a + b)[1..] == a[1..] + b;
      ConcatMapAppend(a[1..], b, str);
    }
  }

  /** The result concatenates the string forms of the values in the order a
      post-order visit meets them; "" for the empty tree. */
  lemma {:induction false} BuildPostOrderStringIsPostOrder<T>(t: Tree<T>, str: T -> string)
    ensures BuildPostOrderString(t, str) == ConcatMap(PostOrder(t), str)
    ensures t.Nil? ==> BuildPostOrderString(t, str) == ""
  {
    match t
    case Nil =>
    case Node(v, l, r) =>
      BuildPostOrderStringIsPostOrder(l, str);
      BuildPostOrderStringIsPostOrder(r, str);
      ConcatMapAppend(PostOrder(l) + PostOrder(r), [v], str);
      ConcatMapAppend(PostOrder(l), PostOrder(r), str);
      assert [v][1..] == [];
  }

  /** When every value prints as a single character, the i-th character of
      the concatenation is that of the i-th value of `xs`. */
  lemma {:induction false} ConcatMapOfCharacters<T>(xs: seq<T>, str: T -> string)
    requires forall x | x in xs :: |str(x)| == 1
    ensures |ConcatMap(xs, str)| == |xs|
    ensures forall i :: 0 <= i < |xs| ==> [ConcatMap(xs, str)[i]] == str(xs[i])
  {
    if xs != [] {
      assert forall x | x in xs[1..] :: x in xs;
      ConcatMapOfCharacters(xs[1..], str);
      var c := ConcatMap(xs, str);
      assert c == str(xs[0]) + ConcatMap(xs[1..], str);
      forall i | 0 <= i < |xs| ensures [c[i]] == str(xs[i]) {
        if i > 0 {
          assert c[i] == ConcatMap(xs[1..], str)[i - 1];
        }
      }
    }
  }

  /** With one-character string forms, the post-order string has one
      character per node, the i-th being that of the i-th post-order value. */
  lemma {:induction false} PostOrderStringOfCharacters<T>(t: Tree<T>, str: T -> string)
    requires forall x | x in Elements(t) :: |str(x)| == 1
    ensures |PostOrder(t)| == |BuildPostOrderString(t, str)| == Size(t)
    ensures forall i :: 0 <= i < Size(t) ==>
      [BuildPostOrderString(t, str)[i]] == str(PostOrder(t)[i])
  {
    BuildPostOrderStringIsPostOrder(t, str);
    PostOrderElements(t);
    assert forall x | x in PostOrder(t) :: x in Elements(t);
    ConcatMapOfCharacters(PostOrder(t), str);
    ElementsCount(t);
    assert |multiset(PostOrder(t))| == |PostOrder(t)|;
  }

  // ---------------------------------------------------------------------
  // collectLevelOrderValues
  // ---------------------------------------------------------------------

  /** Breadth-first walk with a FIFO queue (its head at index 0) that may hold
      absent children: each present node taken off the queue appends its
      value and queues its left and right child. */
  method CollectLevelOrderValues<T>(root: Tree<T>) returns (values: seq<T>)
    ensures values == LevelOrder(root)
    ensures |values| == Size(root)
    ensures multiset(values) == Elements(root)
    ensures root.Nil? ==> values == []
    ensures root.Node? ==> values[0] == root.value
  {
    values := [];
    var queue := [root];
    while queue != []
      invariant values + Drain(queue) == Drain([root])
      decreases Weight(queue)
    {
      var current := queue[0];
      if current.Node? {
        ExpandHeadLowersWeight(queue);
        assert Drain(queue) == [current.value] + Drain(queue[1..] + [current.left, current.right]);
        values := values + [current.value];
        queue := queue[1..] + [current.left, current.right];
      } else {
        queue := queue[1..];
      }
    }
    DrainSingleton(root);
    LevelOrderProperties(root);
  }

  // ---------------------------------------------------------------------
  // countDistinctValues
  // ---------------------------------------------------------------------

  /** Depth-first walk with a LIFO stack (its top at the end) that may hold
      absent children, gathering the values into a set; the result is the
      size of that set. */
  method CountDistinctValues(root: Tree<int>) returns (count: int)
    ensures count == |ValueSet(root)|
    ensures 0 <= count <= Size(root)
    ensures root.Nil? ==> count == 0
  {
    var stack := [root];
    var seen: set<int> := {};
    assert [root][1..] == [];
    while stack != []
      invariant seen + ForestValueSet(stack) == ValueSet(root)
      decreases Weight(stack)
    {
      var top := stack[|stack| - 1];
      ForestValueSetPop(stack);
      if top.Node? {
        ExpandTopLowersWeight(stack);
        ForestValueSetPush(stack[..|stack| - 1], top.left, top.right);
        seen := seen + {top.value};
        stack := stack[..|stack| - 1] + [top.left, top.right];
      } else {
        stack := stack[..|stack| - 1];
      }
    }
    count := |seen|;
    ValueSetBound(root);
  }

  // ---------------------------------------------------------------------
  // hasStrictlyIncreasingPath, both overloads
  // ---------------------------------------------------------------------

  /** Whether some root-to-leaf path increases strictly. */
  function HasStrictlyIncreasingPath(t: Tree<int>): bool {
    match t
    case Nil => false
    case Node(v, l, r) =>
      if l.Nil? && r.Nil? then true
      else HasStrictlyIncreasingPathAbove(l, v) || HasStrictlyIncreasingPathAbove(r, v)
  }

  /** The two-argument overload: whether some path from the root of `t` to a
      leaf starts above `prev` and increases strictly. */
  function HasStrictlyIncreasingPathAbove(t: Tree<int>, prev: int): bool {
    match t
    case Nil => false
    case Node(v, l, r) =>
      if v <= prev then false
      else if l.Nil? && r.Nil? then true
      else HasStrictlyIncreasingPathAbove(l, v) || HasStrictlyIncreasingPathAbove(r, v)
  }

  /** The helper holds exactly when some root-to-leaf path of `t`, preceded by
      `prev`, increases strictly; so it is false for the empty tree and for a
      root not above `prev`. */
  lemma {:induction false} HasStrictlyIncreasingPathAboveSpec(t: Tree<int>, prev: int)
    ensures HasStrictlyIncreasingPathAbove(t, prev) <==>
      exists p :: IsRootToLeafPath(t, p) && StrictlyIncreasing([prev] + p)
    ensures t.Nil? || t.value <= prev ==> !HasStrictlyIncreasingPathAbove(t, prev)
  {
    match t
    case Nil =>
    case Node(v, l, r) =>
      if HasStrictlyIncreasingPathAbove(t, prev) {
        var p: seq<int>;
        if l.Nil? && r.Nil? {
          p := [v];
          IncreasingCons(v, []);
          assert [v] + [] == [v];
        } else {
          var c := if HasStrictlyIncreasingPathAbove(l, v) then l else r;
          HasStrictlyIncreasingPathAboveSpec(c, v);
          var q :| IsRootToLeafPath(c, q) && StrictlyIncreasing([v] + q);
          IsRootToLeafPathNonEmpty(c, q);
          p := [v] + q;
          assert p[1..] == q;
        }
        IncreasingCons(prev, p);
        assert IsRootToLeafPath(t, p);
      }
      forall p | IsRootToLeafPath(t, p) && StrictlyIncreasing([prev] + p)
        ensures HasStrictlyIncreasingPathAbove(t, prev)
      {
        IncreasingCons(prev, p);
        assert p == [v] + p[1..];
        if !(l.Nil? && r.Nil?) {
          IncreasingCons(v, p[1..]);
          var c := if IsRootToLeafPath(l, p[1..]) then l else r;
          HasStrictlyIncreasingPathAboveSpec(c, v);
        }
      }
  }

  /** The result holds exactly when some root-to-leaf path increases
      strictly: false for the empty tree, true for a leaf. */
  lemma HasStrictlyIncreasingPathSpec(t: Tree<int>)
    ensures HasStrictlyIncreasingPath(t) <==>
      exists p :: IsRootToLeafPath(t, p) && StrictlyIncreasing(p)
    ensures t.Nil? ==> !HasStrictlyIncreasingPath(t)
    ensures IsLeaf(t) ==> HasStrictlyIncreasingPath(t)
  {
    if t.Node? {
      OverloadsAgree(t);
      HasStrictlyIncreasingPathAboveSpec(t, t.value - 1);
      forall p | IsRootToLeafPath(t, p)
        ensures StrictlyIncreasing([t.value - 1] + p) <==> StrictlyIncreasing(p)
      {
        IsRootToLeafPathNonEmpty(t, p);
        IncreasingCons(t.value - 1, p);
      }
    }
  }

  /** The one-argument overload is the helper with the bound one below the
      root's value. */
  lemma OverloadsAgree(t: Tree<int>)
    requires t.Node?
    ensures HasStrictlyIncreasingPath(t) == HasStrictlyIncreasingPathAbove(t, t.value - 1)
  {
  }
}
