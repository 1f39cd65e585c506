/**
 * Root-to-leaf paths of a tree and strictly increasing sequences: the terms in
 * which the path-existence check is specified.
 */
module Paths {
  import opened Trees

  /** `p` lists the values met on the way from the root of `t` down to one of
      its leaves, root first. The empty tree has no such path. */
  ghost predicate IsRootToLeafPath<T>(t: Tree<T>, p: seq<T>) {
    match t
    case Nil => false
    case Node(v, l, r) =>
      |p| > 0 && p[0] == v &&
      if l.Nil? && r.Nil? then |p| == 1
      else IsRootToLeafPath(l, p[1..]) || IsRootToLeafPath(r, p[1..])
  }

  /** Each element is strictly greater than the one before it. */
  ghost predicate StrictlyIncreasing(s: seq<int>) {
    forall i :: 0 < i < |s| ==> s[i - 1] < s[i]
  }

  lemma IsRootToLeafPathNonEmpty<T>(t: Tree<T>, p: seq<T>)
    requires IsRootToLeafPath(t, p)
    ensures t.Node? && |p| > 0 && p[0] == t.value
  {
  }

  /** A sequence with a first element `v` increases strictly exactly when the
      rest does and, if there is a rest, it starts above `v`. */
  lemma IncreasingCons(v: int, p: seq<int>)
    ensures StrictlyIncreasing([v] + p) <==> (p == [] || (v < p[0] && StrictlyIncreasing(p)))
  {
    var s := [v] + p;
    if p != [] && v < p[0] && StrictlyIncreasing(p) {
      forall i | 0 < i < |s| ensures s[i - 1] < s[i] {
        if i > 1 {
          assert s[i - 1] == p[i - 2] && s[i] == p[i - 1];
        }
      }
    }
    if StrictlyIncreasing(s) && p != [] {
      assert s[0] < s[1];
      forall i | 0 < i < |p| ensures p[i - 1] < p[i] {
        assert s[i] == p[i - 1] && s[i + 1] == p[i];
      }
    }
  }
}
