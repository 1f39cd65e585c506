/**
 * Level order, stated two ways: level by level (the values at depth 0, then
 * depth 1, and so on, each level left to right), and as what a FIFO queue of
 * possibly absent subtrees emits when it is drained one entry at a time. The
 * main theorem here is that the two agree.
 */
module Levels {
  import opened Trees

  /** The values at depth `d` of `t`, left to right. */
  function Level<T>(t: Tree<T>, d: nat): seq<T> {
    match t
    case Nil => []
    case Node(v, l, r) => if d == 0 then [v] else Level(l, d - 1) + Level(r, d - 1)
  }

  /** Levels 0 to n - 1 of `t`, top to bottom. */
  function LevelsBelow<T>(t: Tree<T>, n: nat): seq<T> {
    if n == 0 then [] else LevelsBelow(t, n - 1) + Level(t, n - 1)
  }

  /** The level-order sequence of `t`: every level, top to bottom. */
  function LevelOrder<T>(t: Tree<T>): seq<T> {
    LevelsBelow(t, Height(t))
  }

  /** What a FIFO queue holding the forest `q` emits: the head entry is taken
      off; an absent entry is skipped; a present node emits its value and its
      two children join the back of the queue. */
  ghost function Drain<T>(q: seq<Tree<T>>): seq<T>
    decreases Weight(q)
  {
    if q == [] then []
    else match q[0]
      case Nil =>
        Drain(q[1..])
      case Node(v, l, r) =>
        ExpandHeadLowersWeight(q);
        [v] + Drain(q[1..] + [l, r])
  }

  // ---------------------------------------------------------------------
  // Forest versions of the level functions
  // ---------------------------------------------------------------------

  /** The values at depth `d` of every tree of `q`, tree after tree. */
  function ForestLevel<T>(q: seq<Tree<T>>, d: nat): seq<T> {
    if q == [] then [] else Level(q[0], d) + ForestLevel(q[1..], d)
  }

  function ForestLevelsBelow<T>(q: seq<Tree<T>>, n: nat): seq<T> {
    if n == 0 then [] else ForestLevelsBelow(q, n - 1) + ForestLevel(q, n - 1)
  }

  /** The children of the present trees of `q`, left before right, in order. */
  function Children<T>(q: seq<Tree<T>>): seq<Tree<T>> {
    if q == [] then []
    else (match q[0] case Nil => [] case Node(_, l, r) => [l, r]) + Children(q[1..])
  }

  function MaxHeight<T>(q: seq<Tree<T>>): nat {
    if q == [] then 0 else Max(Height(q[0]), MaxHeight(q[1..]))
  }

  lemma {:induction false} ForestLevelAppend<T>(a: seq<Tree<T>>, b: seq<Tree<T>>, d: nat)
    ensures ForestLevel(a + b, d) == ForestLevel(a, d) + ForestLevel(b, d)
  {
    if a == [] {
      assert a + b == b;
    } else {
      assert (a + b)[1..] == a[1..] + b;
      ForestLevelAppend(a[1..], b, d);
    }
  }

  lemma {:induction false} MaxHeightAppend<T>(a: seq<Tree<T>>, b: seq<Tree<T>>)
    ensures MaxHeight(a + b) == Max(MaxHeight(a), MaxHeight(b))
  {
    if a == [] {
      assert a + b == b;
    } else {
      assert (a + b)[1..] == a[1..] + b;
      MaxHeightAppend(a[1..], b);
    }
  }

  /** Depth d + 1 of a forest is depth d of its children. */
  lemma {:induction false} ForestLevelOfChildren<T>(q: seq<Tree<T>>, d: nat)
    ensures ForestLevel(Children(q), d) == ForestLevel(q, d + 1)
  {
    if q != [] {
      var c := match q[0] case Nil => [] case Node(_, l, r) => [l, r];
      assert Children(q) == c + Children(q[1..]);
      ForestLevelAppend(c, Children(q[1..]), d);
      ForestLevelOfChildren(q[1..], d);
      match q[0]
      case Nil =>
      case Node(_, l, r) =>
        assert c[1..] == [r] && [r][1..] == [];
    }
  }

  /** Taking the children removes one level; a forest of absent trees has
      neither children nor roots. */
  lemma {:induction false} ChildrenHeight<T>(q: seq<Tree<T>>)
    ensures MaxHeight(q) == 0 ==> Children(q) == [] && ForestLevel(q, 0) == []
    ensures MaxHeight(q) > 0 ==> MaxHeight(Children(q)) < MaxHeight(q)
  {
    if q != [] {
      var c := match q[0] case Nil => [] case Node(_, l, r) => [l, r];
      assert Children(q) == c + Children(q[1..]);
      MaxHeightAppend(c, Children(q[1..]));
      ChildrenHeight(q[1..]);
      match q[0]
      case Nil =>
      case Node(_, l, r) =>
        assert c[1..] == [r] && [r][1..] == [];
    }
  }

  /** Draining `q` followed by `rest` first emits the roots of `q`, and then
      behaves as draining `rest` with the children of `q` queued behind it. */
  lemma {:induction false} DrainRound<T>(q: seq<Tree<T>>, rest: seq<Tree<T>>)
    ensures Drain(q + rest) == ForestLevel(q, 0) + Drain(rest + Children(q))
    decreases |q|
  {
    if q == [] {
      assert q + rest == rest && rest + Children(q) == rest;
    } else {
      var x, q' := q[0], q[1..];
      assert (q + rest)[0] == x && (q + rest)[1..] == q' + rest;
      assert ForestLevel(q, 0) == Level(x, 0) + ForestLevel(q', 0);
      match x
      case Nil =>
        assert Drain(q + rest) == Drain(q' + rest);
        assert Children(q) == Children(q');
        DrainRound(q', rest);
      case Node(v, l, r) =>
        assert q' + rest + [l, r] == q' + (rest + [l, r]);
        DrainRound(q', rest + [l, r]);
        assert rest + [l, r] + Children(q') == rest + Children(q);
    }
  }

  /** Placing the roots of `q` before the levels of its children gives the
      levels of `q`. */
  lemma {:induction false} LevelsShift<T>(q: seq<Tree<T>>, m: nat)
    ensures ForestLevel(q, 0) + ForestLevelsBelow(Children(q), m) == ForestLevelsBelow(q, m + 1)
  {
    if m > 0 {
      LevelsShift(q, m - 1);
      ForestLevelOfChildren(q, m - 1);
    }
  }

  /** Draining a forest emits its levels top to bottom. */
  lemma {:induction false} DrainIsLevels<T>(q: seq<Tree<T>>, n: nat)
    requires MaxHeight(q) <= n
    ensures Drain(q) == ForestLevelsBelow(q, n)
    decreases n
  {
    ChildrenHeight(q);
    DrainRound(q, []);
    assert q + [] == q && [] + Children(q) == Children(q);
    if n == 0 {
      assert Drain(q) == [];
    } else {
      DrainIsLevels(Children(q), n - 1);
      LevelsShift(q, n - 1);
    }
  }

  lemma {:induction false} SingletonLevels<T>(t: Tree<T>, n: nat)
    ensures ForestLevelsBelow([t], n) == LevelsBelow(t, n)
  {
    if n > 0 {
      SingletonLevels(t, n - 1);
      assert [t][1..] == [];
      assert ForestLevel([t], n - 1) == Level(t, n - 1);
    }
  }

  /** The queue discipline of a breadth-first walk yields the level order. */
  lemma DrainSingleton<T>(t: Tree<T>)
    ensures Drain([t]) == LevelOrder(t)
  {
    assert [t][1..] == [];
    assert MaxHeight([t]) == Height(t);
    DrainIsLevels([t], Height(t));
    SingletonLevels(t, Height(t));
  }

  /** Draining a forest emits each of its values once. */
  lemma {:induction false} DrainElements<T>(q: seq<Tree<T>>)
    ensures multiset(Drain(q)) == ForestElements(q)
    decreases Weight(q)
  {
    if q != [] {
      var x, q' := q[0], q[1..];
      assert ForestElements(q) == Elements(x) + ForestElements(q');
      match x
      case Nil =>
        assert Drain(q) == Drain(q');
        DrainElements(q');
      case Node(v, l, r) =>
        ExpandHeadLowersWeight(q);
        ForestElementsExpand(q);
        DrainElements(q' + [l, r]);
    }
  }

  /** The level order lists every value of the tree exactly as often as it
      occurs, hence has one entry per node, and starts with the root. */
  lemma LevelOrderProperties<T>(t: Tree<T>)
    ensures t.Nil? ==> LevelOrder(t) == []
    ensures multiset(LevelOrder(t)) == Elements(t)
    ensures |LevelOrder(t)| == Size(t)
    ensures t.Node? ==> |LevelOrder(t)| > 0 && LevelOrder(t)[0] == t.value
  {
    DrainSingleton(t);
    DrainElements([t]);
    assert [t][1..] == [];
    ElementsCount(t);
    assert |multiset(LevelOrder(t))| == |LevelOrder(t)|;
  }
}
