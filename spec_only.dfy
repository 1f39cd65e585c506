/**
 * The documented contracts of `haveSameShape` and `findAllRootToLeafPaths`.
 * In the source both are unfinished: the first always answers false, the
 * second returns null. What follows is a specification of what their
 * comments promise, not a model of those bodies.
 */
module SpecOnly {
  import opened Trees
  import opened Paths

  /** Whether `a` and `b` have the same arrangement of present and absent
      children at every position, whatever their values: two empty trees do,
      an empty and a non-empty tree do not. */
  function SameShape<T>(a: Tree<T>, b: Tree<T>): bool {
    match (a, b)
    case (Nil, Nil) => true
    case (Node(_, al, ar), Node(_, bl, br)) => SameShape(al, bl) && SameShape(ar, br)
    case _ => false
  }

  /** `t` with every value erased. */
  function Shape<T>(t: Tree<T>): Tree<()> {
    match t
    case Nil => Nil
    case Node(_, l, r) => Node((), Shape(l), Shape(r))
  }

  /** Two trees have the same shape exactly when erasing their values makes
      them equal; hence the relation is reflexive and symmetric, and trees of
      the same shape have the same size. */
  lemma {:induction false} SameShapeIsEqualShape<T>(a: Tree<T>, b: Tree<T>)
    ensures SameShape(a, b) <==> Shape(a) == Shape(b)
    ensures SameShape(a, b) ==> Size(a) == Size(b) && SameShape(b, a)
  {
    match (a, b)
    case (Nil, Nil) =>
    case (Node(_, al, ar), Node(_, bl, br)) =>
      SameShapeIsEqualShape(al, bl);
      SameShapeIsEqualShape(ar, br);
    case (Nil, Node(_, _, _)) =>
    case (Node(_, _, _), Nil) =>
  }

  lemma {:induction false} SameShapeReflexive<T>(t: Tree<T>)
    ensures SameShape(t, t)
  {
    SameShapeIsEqualShape(t, t);
  }

  /** Every root-to-leaf path of `t`, each listing the values from the root
      down to a leaf; the paths through the left subtree come before those
      through the right one. The empty tree has none. */
  function RootToLeafPaths<T>(t: Tree<T>): seq<seq<T>> {
    match t
    case Nil => []
    case Node(v, l, r) =>
      if l.Nil? && r.Nil? then [[v]]
      else PrependAll(v, RootToLeafPaths(l)) + PrependAll(v, RootToLeafPaths(r))
  }

  /** Each path of `ps`, with `v` in front. */
  function PrependAll<T>(v: T, ps: seq<seq<T>>): (r: seq<seq<T>>)
    ensures |r| == |ps|
    ensures forall i :: 0 <= i < |ps| ==> r[i] == [v] + ps[i]
  {
    if ps == [] then [] else [[v] + ps[0]] + PrependAll(v, ps[1..])
  }

  lemma {:induction false} PrependAllMember<T>(v: T, ps: seq<seq<T>>, p: seq<T>)
    ensures p in PrependAll(v, ps) <==> |p| > 0 && p[0] == v && p[1..] in ps
  {
    if ps != [] {
      PrependAllMember(v, ps[1..], p);
      assert ps == [ps[0]] + ps[1..];
      if |p| > 0 && p[0] == v {
        assert p == [v] + p[1..];
      }
      assert ([v] + ps[0])[1..] == ps[0];
    }
  }

  /** The enumeration lists exactly the root-to-leaf paths, one per leaf. */
  lemma {:induction false} RootToLeafPathsAreThePaths<T>(t: Tree<T>, p: seq<T>)
    ensures p in RootToLeafPaths(t) <==> IsRootToLeafPath(t, p)
  {
    match t
    case Nil =>
    case Node(v, l, r) =>
      if !(l.Nil? && r.Nil?) && |p| > 0 {
        RootToLeafPathsAreThePaths(l, p[1..]);
        RootToLeafPathsAreThePaths(r, p[1..]);
        PrependAllMember(v, RootToLeafPaths(l), p);
        PrependAllMember(v, RootToLeafPaths(r), p);
      } else if l.Nil? && r.Nil? {
        assert p in [[v]] <==> p == [v];
        assert p == [v] <==> |p| == 1 && p[0] == v;
      } else {
        PrependAllMember(v, RootToLeafPaths(l), p);
        PrependAllMember(v, RootToLeafPaths(r), p);
      }
  }

  lemma {:induction false} RootToLeafPathCount<T>(t: Tree<T>)
    ensures |RootToLeafPaths(t)| == LeafCount(t)
  {
    match t
    case Nil =>
    case Node(v, l, r) =>
      RootToLeafPathCount(l);
      RootToLeafPathCount(r);
      SubtreesOfNode(t);
      assert [t][1..] == [];
      if l.Nil? && r.Nil? {
        assert Subtrees(l) == [] && Subtrees(r) == [];
        assert Leaves<T>([]) == [];
      }
  }

  /** Path `i` of `ps` ends at the value of the leaf `ls[i]`, for every `i`. */
  ghost predicate EndAt<T>(ps: seq<seq<T>>, ls: seq<Tree<T>>) {
    |ps| == |ls| &&
    forall i :: 0 <= i < |ps| ==> |ps[i]| > 0 && ls[i] == Node(ps[i][|ps[i]| - 1], Nil, Nil)
  }

  lemma EndAtPrepend<T>(v: T, ps: seq<seq<T>>, ls: seq<Tree<T>>)
    requires EndAt(ps, ls)
    ensures EndAt(PrependAll(v, ps), ls)
  {
    forall i | 0 <= i < |ps|
      ensures PrependAll(v, ps)[i][|ps[i]|] == ps[i][|ps[i]| - 1]
    {
      assert PrependAll(v, ps)[i] == [v] + ps[i];
    }
  }

  lemma EndAtAppend<T>(ps: seq<seq<T>>, ls: seq<Tree<T>>, qs: seq<seq<T>>, ms: seq<Tree<T>>)
    requires EndAt(ps, ls) && EndAt(qs, ms)
    ensures EndAt(ps + qs, ls + ms)
  {
    forall i | |ps| <= i < |ps| + |qs|
      ensures (ps + qs)[i] == qs[i - |ps|] && (ls + ms)[i] == ms[i - |ps|]
    {
    }
  }

  /** The enumeration is in pre-order: its i-th path ends at the i-th leaf
      that a pre-order walk of `t` meets. */
  lemma {:induction false} RootToLeafPathsFollowLeaves<T>(t: Tree<T>)
    ensures EndAt(RootToLeafPaths(t), Leaves(Subtrees(t)))
  {
    match t
    case Nil =>
    case Node(v, l, r) =>
      if l.Nil? && r.Nil? {
        assert Subtrees(t) == [t];
        assert Leaves(Subtrees(t)) == [t];
      } else {
        RootToLeafPathsFollowLeaves(l);
        RootToLeafPathsFollowLeaves(r);
        SubtreesOfNode(t);
        assert Leaves([t]) == [] by { assert [t][1..] == []; }
        EndAtPrepend(v, RootToLeafPaths(l), Leaves(Subtrees(l)));
        EndAtPrepend(v, RootToLeafPaths(r), Leaves(Subtrees(r)));
        EndAtAppend(PrependAll(v, RootToLeafPaths(l)), Leaves(Subtrees(l)),
                    PrependAll(v, RootToLeafPaths(r)), Leaves(Subtrees(r)));
      }
  }
}
