/**
 * Binary trees whose nodes carry a value, and the facts about them that the
 * traversals rely on. `Nil` plays the part of an absent (null) node, so a tree
 * is always finite, acyclic and unshared.
 */
module Trees {

  datatype Tree<T> = Nil | Node(value: T, left: Tree<T>, right: Tree<T>)

  /** A leaf is a present node with neither a left nor a right child. */
  predicate IsLeaf<T>(t: Tree<T>) {
    t.Node? && t.left.Nil? && t.right.Nil?
  }

  /** The number of present nodes. */
  function Size<T>(t: Tree<T>): nat {
    match t
    case Nil => 0
    case Node(_, l, r) => 1 + Size(l) + Size(r)
  }

  /** The number of levels: 0 for the empty tree, 1 for a leaf. */
  function Height<T>(t: Tree<T>): nat {
    match t
    case Nil => 0
    case Node(_, l, r) => 1 + Max(Height(l), Height(r))
  }

  function Max(a: nat, b: nat): nat {
    if a < b then b else a
  }

  /** Every present subtree of `t`, in pre-order: a node, then the subtrees of
      its left child, then those of its right child. */
  function Subtrees<T>(t: Tree<T>): seq<Tree<T>> {
    match t
    case Nil => []
    case Node(_, l, r) => [t] + Subtrees(l) + Subtrees(r)
  }

  /** The values stored in `t`, with their multiplicities. */
  ghost function Elements<T>(t: Tree<T>): multiset<T> {
    match t
    case Nil => multiset{}
    case Node(v, l, r) => multiset{v} + Elements(l) + Elements(r)
  }

  /** The distinct values stored in `t`. */
  ghost function ValueSet<T>(t: Tree<T>): set<T> {
    match t
    case Nil => {}
    case Node(v, l, r) => {v} + ValueSet(l) + ValueSet(r)
  }

  /** The entries of `ss` that are leaves, in order. */
  function Leaves<T>(ss: seq<Tree<T>>): seq<Tree<T>> {
    if ss == [] then []
    else (if IsLeaf(ss[0]) then [ss[0]] else []) + Leaves(ss[1..])
  }

  /** The entries of `ss` that are internal nodes (present, with at least one
      child), in order. */
  function InternalNodes<T>(ss: seq<Tree<T>>): seq<Tree<T>> {
    if ss == [] then []
    else (if ss[0].Node? && !IsLeaf(ss[0]) then [ss[0]] else []) + InternalNodes(ss[1..])
  }

  /** The number of leaves of `t`. */
  function LeafCount<T>(t: Tree<T>): nat {
    |Leaves(Subtrees(t))|
  }

  /** The values of `t` in post-order: left subtree, right subtree, node. */
  function PostOrder<T>(t: Tree<T>): seq<T> {
    match t
    case Nil => []
    case Node(v, l, r) => PostOrder(l) + PostOrder(r) + [v]
  }

  /** The values of `t` in pre-order: node, left subtree, right subtree. */
  function PreOrder<T>(t: Tree<T>): seq<T> {
    match t
    case Nil => []
    case Node(v, l, r) => [v] + PreOrder(l) + PreOrder(r)
  }

  /** `t` with left and right exchanged at every node. */
  function Mirror<T>(t: Tree<T>): Tree<T> {
    match t
    case Nil => Nil
    case Node(v, l, r) => Node(v, Mirror(r), Mirror(l))
  }

  function Reverse<T>(s: seq<T>): seq<T> {
    if s == [] then [] else Reverse(s[1..]) + [s[0]]
  }

  lemma {:induction false} LeavesAppend<T>(a: seq<Tree<T>>, b: seq<Tree<T>>)
    ensures Leaves(a + b) == Leaves(a) + Leaves(b)
  {
    if a == [] {
      assert a + b == b;
    } else {
      assert (a + b)[0] == a[0] && (a + b)[1..] == a[1..] + b;
      LeavesAppend(a[1..], b);
    }
  }

  lemma {:induction false} InternalNodesAppend<T>(a: seq<Tree<T>>, b: seq<Tree<T>>)
    ensures InternalNodes(a + b) == InternalNodes(a) + InternalNodes(b)
  {
    if a == [] {
      assert a + b == b;
    } else {
      assert (a + b)[0] == a[0] && (a + b)[1..] == a[1..] + b;
      InternalNodesAppend(a[1..], b);
    }
  }

  /** The subtrees of a present node are the node itself followed by those of
      its children; their leaves and internal nodes split the same way. */
  lemma SubtreesOfNode<T>(t: Tree<T>)
    requires t.Node?
    ensures Leaves(Subtrees(t)) == Leaves([t]) + Leaves(Subtrees(t.left)) + Leaves(Subtrees(t.right))
    ensures InternalNodes(Subtrees(t)) == InternalNodes([t]) + InternalNodes(Subtrees(t.left)) + InternalNodes(Subtrees(t.right))
  {
    LeavesAppend([t] + Subtrees(t.left), Subtrees(t.right));
    LeavesAppend([t], Subtrees(t.left));
    InternalNodesAppend([t] + Subtrees(t.left), Subtrees(t.right));
    InternalNodesAppend([t], Subtrees(t.left));
  }

  lemma {:induction false} ReverseAppend<T>(a: seq<T>, b: seq<T>)
    ensures Reverse(a + b) == Reverse(b) + Reverse(a)
  {
    if a == [] {
      assert a + b == b;
    } else {
      assert (a + b)[1..] == a[1..] + b;
      ReverseAppend(a[1..], b);
    }
  }

  /** Post-order is pre-order of the mirror image, read backwards. */
  lemma {:induction false} PostOrderIsReversedMirrorPreOrder<T>(t: Tree<T>)
    ensures PostOrder(t) == Reverse(PreOrder(Mirror(t)))
  {
    match t
    case Nil =>
    case Node(v, l, r) =>
      PostOrderIsReversedMirrorPreOrder(l);
      PostOrderIsReversedMirrorPreOrder(r);
      var pl, pr := PreOrder(Mirror(l)), PreOrder(Mirror(r));
      assert PreOrder(Mirror(t)) == [v] + (pr + pl);
      ReverseAppend([v], pr + pl);
      ReverseAppend(pr, pl);
      assert Reverse([v]) == [v] by {
        assert [v][1..] == [];
      }
  }

  /** Post-order lists every value of the tree as often as it occurs, and ends
      with the root. */
  lemma {:induction false} PostOrderElements<T>(t: Tree<T>)
    ensures multiset(PostOrder(t)) == Elements(t)
    ensures t.Node? ==> |PostOrder(t)| > 0 && PostOrder(t)[|PostOrder(t)| - 1] == t.value
  {
    match t
    case Nil =>
    case Node(v, l, r) =>
      PostOrderElements(l);
      PostOrderElements(r);
  }

  lemma {:induction false} ElementsCount<T>(t: Tree<T>)
    ensures |Elements(t)| == Size(t)
  {
    match t
    case Nil =>
    case Node(_, l, r) =>
      ElementsCount(l);
      ElementsCount(r);
  }

  /** The value set holds exactly the values that occur in the tree. */
  lemma {:induction false} ValueSetIsSupport<T>(t: Tree<T>, x: T)
    ensures x in ValueSet(t) <==> x in Elements(t)
  {
    match t
    case Nil =>
    case Node(_, l, r) =>
      ValueSetIsSupport(l, x);
      ValueSetIsSupport(r, x);
  }

  /** A tree has no more distinct values than nodes. */
  lemma {:induction false} ValueSetBound<T>(t: Tree<T>)
    ensures |ValueSet(t)| <= Size(t)
  {
    match t
    case Nil =>
    case Node(v, l, r) =>
      ValueSetBound(l);
      ValueSetBound(r);
      calc {
        |ValueSet(t)|;
      <= |{v} + ValueSet(l)| + |ValueSet(r)|;
      <= 1 + |ValueSet(l)| + |ValueSet(r)|;
      }
  }

  // ---------------------------------------------------------------------
  // Forests: the contents of a work queue or stack, one tree per entry.
  // Absent (Nil) entries are allowed, as the Java collections hold nulls.
  // ---------------------------------------------------------------------

  /** A termination measure for walks over a forest: an entry weighs the
      number of present and absent nodes it spans, 2 * Size + 1. Replacing a
      present node by its two children lowers the weight by one. */
  function Weight<T>(q: seq<Tree<T>>): nat {
    if q == [] then 0 else 2 * Size(q[0]) + 1 + Weight(q[1..])
  }

  lemma {:induction false} WeightAppend<T>(a: seq<Tree<T>>, b: seq<Tree<T>>)
    ensures Weight(a + b) == Weight(a) + Weight(b)
  {
    if a == [] {
      assert a + b == b;
    } else {
      assert (a + b)[1..] == a[1..] + b;
      WeightAppend(a[1..], b);
    }
  }

  lemma WeightPair<T>(l: Tree<T>, r: Tree<T>)
    ensures Weight([l, r]) == 2 * Size(l) + 2 * Size(r) + 2
  {
    assert [r][1..] == [];
    assert Weight([r]) == 2 * Size(r) + 1;
    assert [l, r][1..] == [r];
  }

  /** Replacing the present node at the head of a queue by its two children,
      queued at the back, lowers the weight. */
  lemma ExpandHeadLowersWeight<T>(q: seq<Tree<T>>)
    requires q != [] && q[0].Node?
    ensures Weight(q[1..] + [q[0].left, q[0].right]) < Weight(q)
  {
    WeightAppend(q[1..], [q[0].left, q[0].right]);
    WeightPair(q[0].left, q[0].right);
  }

  /** Replacing the present node on top of a stack (its last entry) by its two
      children lowers the weight. */
  lemma ExpandTopLowersWeight<T>(s: seq<Tree<T>>)
    requires s != [] && s[|s| - 1].Node?
    ensures Weight(s[..|s| - 1] + [s[|s| - 1].left, s[|s| - 1].right]) < Weight(s)
  {
    var below, top := s[..|s| - 1], s[|s| - 1];
    assert s == below + [top];
    WeightAppend(below, [top.left, top.right]);
    WeightPair(top.left, top.right);
    WeightAppend(below, [top]);
    assert [top][1..] == [];
    assert Weight([top]) == 2 * Size(top) + 1;
  }

  /** The distinct values of every tree in a forest. */
  ghost function ForestValueSet<T>(q: seq<Tree<T>>): set<T> {
    if q == [] then {} else ValueSet(q[0]) + ForestValueSet(q[1..])
  }

  lemma {:induction false} ForestValueSetAppend<T>(a: seq<Tree<T>>, b: seq<Tree<T>>)
    ensures ForestValueSet(a + b) == ForestValueSet(a) + ForestValueSet(b)
  {
    if a == [] {
      assert a + b == b;
    } else {
      assert (a + b)[1..] == a[1..] + b;
      ForestValueSetAppend(a[1..], b);
    }
  }

  /** Popping the top (last) entry of a stack splits off its values. */
  lemma ForestValueSetPop<T>(s: seq<Tree<T>>)
    requires s != []
    ensures ForestValueSet(s) == ForestValueSet(s[..|s| - 1]) + ValueSet(s[|s| - 1])
    ensures Weight(s[..|s| - 1]) < Weight(s)
  {
    var below, top := s[..|s| - 1], s[|s| - 1];
    assert s == below + [top];
    ForestValueSetAppend(below, [top]);
    WeightAppend(below, [top]);
    assert [top][1..] == [];
  }

  /** Pushing two entries onto a stack adds their values. */
  lemma ForestValueSetPush<T>(s: seq<Tree<T>>, l: Tree<T>, r: Tree<T>)
    ensures ForestValueSet(s + [l, r]) == ForestValueSet(s) + ValueSet(l) + ValueSet(r)
  {
    ForestValueSetAppend(s, [l, r]);
    assert [l, r][1..] == [r] && [r][1..] == [];
    assert ForestValueSet([r]) == ValueSet(r);
  }

  /** The values of every tree in a forest, with multiplicities. */
  ghost function ForestElements<T>(q: seq<Tree<T>>): multiset<T> {
    if q == [] then multiset{} else Elements(q[0]) + ForestElements(q[1..])
  }

  lemma {:induction false} ForestElementsAppend<T>(a: seq<Tree<T>>, b: seq<Tree<T>>)
    ensures ForestElements(a + b) == ForestElements(a) + ForestElements(b)
  {
    if a == [] {
      assert a + b == b;
    } else {
      assert (a + b)[1..] == a[1..] + b;
      ForestElementsAppend(a[1..], b);
    }
  }

  /** Replacing the present node at the head of a queue by its two children,
      queued at the back, keeps the values of the forest except the node's own. */
  lemma ForestElementsExpand<T>(q: seq<Tree<T>>)
    requires q != [] && q[0].Node?
    ensures ForestElements(q) == multiset{q[0].value} + ForestElements(q[1..] + [q[0].left, q[0].right])
  {
    var l, r := q[0].left, q[0].right;
    ForestElementsAppend(q[1..], [l, r]);
    assert [l, r][1..] == [r] && [r][1..] == [];
    assert ForestElements([r]) == Elements(r);
    assert ForestElements([l, r]) == Elements(l) + Elements(r);
  }
}
