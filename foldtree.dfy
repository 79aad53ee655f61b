/** The generic tree fold and the queries defined through it.
    A tree is a label with a list of subtrees (the `(label, subtrees)` tuple of
    the Python code); a forest is a list of trees. */
module FoldTree {

  datatype Tree<L> = Node(value: L, subtrees: seq<Tree<L>>)

  /** `foldtree` on a tree: `f` combines a label with the fold of its subtrees. */
  function FoldTree<L, A, B>(f: (L, A) -> B, g: (B, A) -> A, a: A, t: Tree<L>): B
    decreases t, 1
  {
    f(t.value, FoldForest(f, g, a, t.subtrees))
  }

  /** `foldtree` on a forest: `a` for the empty list, otherwise `g` combines the
      fold of the first tree with the fold of the rest. */
  function FoldForest<L, A, B>(f: (L, A) -> B, g: (B, A) -> A, a: A, ts: seq<Tree<L>>): A
    decreases ts, 0
  {
    if ts == [] then a
    else g(FoldTree(f, g, a, ts[0]), FoldForest(f, g, a, ts[1..]))
  }

  // ---------------------------------------------------------------------------
  // The combining functions of the derived queries.

  function Add(x: int, y: int): int { x + y }
  function Max(x: int, y: int): int { if x < y then y else x }
  function OnePlus<L>(value: L, folded: int): int { 1 + folded }
  function ConsLabel<L>(value: L, folded: seq<L>): seq<L> { [value] + folded }
  function Concat<L>(first: seq<L>, rest: seq<L>): seq<L> { first + rest }
  function Relabel<L, M>(func: L -> M): (L, seq<Tree<M>>) -> Tree<M>
  {
    (value: L, folded: seq<Tree<M>>) => Node(func(value), folded)
  }
  function ConsTree<M>(first: Tree<M>, rest: seq<Tree<M>>): seq<Tree<M>> { [first] + rest }

  // ---------------------------------------------------------------------------
  // The queries, each an instance of the fold.

  function SumTree(t: Tree<int>): int { FoldTree(Add, Add, 0, t) }

  function TreeLabels<L>(t: Tree<L>): seq<L> { FoldTree(ConsLabel, Concat, [], t) }

  function MapTree<L, M>(func: L -> M, t: Tree<L>): Tree<M> { FoldTree(Relabel(func), ConsTree, [], t) }

  function TreeSize<L>(t: Tree<L>): int { FoldTree(OnePlus, Add, 0, t) }

  function TreeDepth<L>(t: Tree<L>): int { FoldTree(OnePlus, Max, 0, t) }

  // ---------------------------------------------------------------------------
  // Reference definitions on sequences.

  function Sum(s: seq<int>): int
  {
    if s == [] then 0 else s[0] + Sum(s[1..])
  }

  function Flatten<L>(ss: seq<seq<L>>): seq<L>
  {
    if ss == [] then [] else ss[0] + Flatten(ss[1..])
  }

  function MapSeq<L, M>(func: L -> M, s: seq<L>): (r: seq<M>)
    ensures |r| == |s| && forall i :: 0 <= i < |s| ==> r[i] == func(s[i])
  {
    seq(|s|, i requires 0 <= i < |s| => func(s[i]))
  }

  lemma {:induction false} SumAppend(s: seq<int>, u: seq<int>)
    ensures Sum(s + u) == Sum(s) + Sum(u)
  {
    if s != [] {
      assert (s + u)[0] == s[0] && (s + u)[1..] == s[1..] + u;
      SumAppend(s[1..], u);
    } else {
      assert s + u == u;
    }
  }

  // ---------------------------------------------------------------------------
  // tree_labels: pre-order.

  /** The labels of a forest are the labels of its trees, one tree after another. */
  lemma {:induction false} ForestLabelsFlatten<L>(ts: seq<Tree<L>>)
    ensures FoldForest(ConsLabel, Concat, [], ts) == Flatten(MapSeq(TreeLabels, ts))
    decreases ts
  {
    if ts != [] {
      ForestLabelsFlatten(ts[1..]);
      assert MapSeq(TreeLabels, ts)[1..] == MapSeq(TreeLabels, ts[1..]);
    }
  }

  /** `tree_labels` lists labels in pre-order: the node's own label first, then
      the labels of each subtree in turn. */
  lemma TreeLabelsPreOrder<L>(t: Tree<L>)
    ensures TreeLabels(t) == [t.value] + Flatten(MapSeq(TreeLabels, t.subtrees))
    ensures |TreeLabels(t)| >= 1 && TreeLabels(t)[0] == t.value
  {
    ForestLabelsFlatten(t.subtrees);
  }

  // ---------------------------------------------------------------------------
  // sumtree and tree_size against tree_labels.

  lemma {:induction false} ForestSumIsLabelSum(ts: seq<Tree<int>>)
    ensures FoldForest(Add, Add, 0, ts) == Sum(FoldForest(ConsLabel, Concat, [], ts))
    decreases ts, 0
  {
    if ts != [] {
      TreeSumIsLabelSum(ts[0]);
      ForestSumIsLabelSum(ts[1..]);
      SumAppend(TreeLabels(ts[0]), FoldForest(ConsLabel, Concat, [], ts[1..]));
    }
  }

  /** `sumtree` adds up exactly the labels `tree_labels` lists. */
  lemma {:induction false} TreeSumIsLabelSum(t: Tree<int>)
    ensures SumTree(t) == Sum(TreeLabels(t))
    decreases t, 1
  {
    ForestSumIsLabelSum(t.subtrees);
    SumAppend([t.value], FoldForest(ConsLabel, Concat, [], t.subtrees));
  }

  lemma {:induction false} ForestSizeIsLabelCount<L>(ts: seq<Tree<L>>)
    ensures FoldForest(OnePlus, Add, 0, ts) == |FoldForest(ConsLabel, Concat, [], ts)|
    decreases ts, 0
  {
    if ts != [] {
      TreeSizeIsLabelCount(ts[0]);
      ForestSizeIsLabelCount(ts[1..]);
    }
  }

  /** `tree_size` counts the labels `tree_labels` lists; a lone node has size 1. */
  lemma {:induction false} TreeSizeIsLabelCount<L>(t: Tree<L>)
    ensures TreeSize(t) == |TreeLabels(t)|
    ensures t.subtrees == [] ==> TreeSize(t) == 1
    decreases t, 1
  {
    ForestSizeIsLabelCount(t.subtrees);
  }

  // ---------------------------------------------------------------------------
  // tree_depth.

  /** The depth of a forest bounds the depth of each of its trees, is reached by
      one of them, and is 0 exactly for the empty forest. */
  lemma {:induction false} ForestDepthIsMax<L>(ts: seq<Tree<L>>)
    ensures forall i :: 0 <= i < |ts| ==> TreeDepth(ts[i]) <= FoldForest(OnePlus, Max, 0, ts)
    ensures ts == [] ==> FoldForest(OnePlus, Max, 0, ts) == 0
    ensures ts != [] ==> exists i :: 0 <= i < |ts| && FoldForest(OnePlus, Max, 0, ts) == TreeDepth(ts[i])
    decreases ts
  {
    if ts != [] {
      ForestDepthIsMax(ts[1..]);
      var d := FoldForest(OnePlus, Max, 0, ts);
      forall i | 0 <= i < |ts| ensures TreeDepth(ts[i]) <= d {
        if i > 0 { assert ts[i] == ts[1..][i - 1]; }
      }
      TreeDepthWithinSize(ts[0]);
      if ts[1..] != [] && d != TreeDepth(ts[0]) {
        var j :| 0 <= j < |ts[1..]| && FoldForest(OnePlus, Max, 0, ts[1..]) == TreeDepth(ts[1..][j]);
        assert d == TreeDepth(ts[j + 1]);
      } else {
        assert d == TreeDepth(ts[0]);
      }
    }
  }

  /** A forest whose trees are all at most `k` deep is at most `k` deep. */
  lemma {:induction false} ForestDepthBound<L>(ts: seq<Tree<L>>, k: int)
    requires 0 <= k
    requires forall i :: 0 <= i < |ts| ==> TreeDepth(ts[i]) <= k
    ensures FoldForest(OnePlus, Max, 0, ts) <= k
    decreases ts
  {
    if ts != [] {
      assert TreeDepth(ts[0]) <= k;
      forall i | 0 <= i < |ts[1..]| ensures TreeDepth(ts[1..][i]) <= k {
        assert ts[1..][i] == ts[i + 1];
      }
      ForestDepthBound(ts[1..], k);
    }
  }

  /** `tree_depth` is 1 for a leaf and one more than the deepest subtree otherwise. */
  lemma TreeDepthNode<L>(t: Tree<L>)
    ensures t.subtrees == [] ==> TreeDepth(t) == 1
    ensures forall i :: 0 <= i < |t.subtrees| ==> TreeDepth(t.subtrees[i]) + 1 <= TreeDepth(t)
    ensures t.subtrees != [] ==>
      exists i :: 0 <= i < |t.subtrees| && TreeDepth(t) == TreeDepth(t.subtrees[i]) + 1
  {
    ForestDepthIsMax(t.subtrees);
  }

  lemma {:induction false} ForestDepthWithinSize<L>(ts: seq<Tree<L>>)
    ensures 0 <= FoldForest(OnePlus, Max, 0, ts) <= FoldForest(OnePlus, Add, 0, ts)
    decreases ts, 0
  {
    if ts != [] {
      TreeDepthWithinSize(ts[0]);
      ForestDepthWithinSize(ts[1..]);
    }
  }

  /** A tree is at least one node deep and no deeper than it has nodes. */
  lemma {:induction false} TreeDepthWithinSize<L>(t: Tree<L>)
    ensures 1 <= TreeDepth(t) <= TreeSize(t)
    decreases t, 1
  {
    ForestDepthWithinSize(t.subtrees);
  }

  // ---------------------------------------------------------------------------
  // maptree.

  lemma {:induction false} MapForestShape<L, M>(func: L -> M, ts: seq<Tree<L>>)
    ensures var ms := FoldForest(Relabel(func), ConsTree, [], ts);
      && |ms| == |ts|
      && (forall i :: 0 <= i < |ts| ==> ms[i] == MapTree(func, ts[i]))
    decreases ts
  {
    if ts != [] {
      MapForestShape(func, ts[1..]);
    }
  }

  /** `maptree` keeps the shape: the same node with the label transformed and
      the subtrees mapped one for one, in order. */
  lemma MapTreeNode<L, M>(func: L -> M, t: Tree<L>)
    ensures MapTree(func, t).value == func(t.value)
    ensures |MapTree(func, t).subtrees| == |t.subtrees|
    ensures forall i :: 0 <= i < |t.subtrees| ==>
      MapTree(func, t).subtrees[i] == MapTree(func, t.subtrees[i])
  {
    MapForestShape(func, t.subtrees);
  }

  /** `maptree` transforms the pre-order label list element by element. */
  lemma {:induction false} MapTreeLabels<L, M>(func: L -> M, t: Tree<L>)
    ensures TreeLabels(MapTree(func, t)) == MapSeq(func, TreeLabels(t))
    decreases t, 1
  {
    MapTreeNode(func, t);
    var m := MapTree(func, t);
    var kids := t.subtrees;
    forall i | 0 <= i < |kids| ensures MapSeq(TreeLabels, m.subtrees)[i] == MapSeq(func, TreeLabels(kids[i])) {
      MapTreeLabels(func, kids[i]);
    }
    MapFlatten(func, MapSeq(TreeLabels, kids), MapSeq(TreeLabels, m.subtrees));
    TreeLabelsPreOrder(t);
    TreeLabelsPreOrder(m);
  }

  lemma {:induction false} MapFlatten<L, M>(func: L -> M, ss: seq<seq<L>>, ms: seq<seq<M>>)
    requires |ms| == |ss| && forall i :: 0 <= i < |ss| ==> ms[i] == MapSeq(func, ss[i])
    ensures Flatten(ms) == MapSeq(func, Flatten(ss))
  {
    if ss != [] {
      MapFlatten(func, ss[1..], ms[1..]);
      assert MapSeq(func, ss[0] + Flatten(ss[1..])) == MapSeq(func, ss[0]) + MapSeq(func, Flatten(ss[1..]));
    }
  }

  lemma {:induction false} MapForestMeasures<L, M>(func: L -> M, ts: seq<Tree<L>>)
    ensures FoldForest(OnePlus, Add, 0, FoldForest(Relabel(func), ConsTree, [], ts)) == FoldForest(OnePlus, Add, 0, ts)
    ensures FoldForest(OnePlus, Max, 0, FoldForest(Relabel(func), ConsTree, [], ts)) == FoldForest(OnePlus, Max, 0, ts)
    decreases ts, 0
  {
    if ts != [] {
      MapTreeMeasures(func, ts[0]);
      MapForestMeasures(func, ts[1..]);
    }
  }

  /** `maptree` preserves the size and the depth of a tree. */
  lemma {:induction false} MapTreeMeasures<L, M>(func: L -> M, t: Tree<L>)
    ensures TreeSize(MapTree(func, t)) == TreeSize(t)
    ensures TreeDepth(MapTree(func, t)) == TreeDepth(t)
    decreases t, 1
  {
    MapForestMeasures(func, t.subtrees);
  }

  lemma {:induction false} MapForestIdentity<L>(ts: seq<Tree<L>>)
    ensures FoldForest(Relabel((x: L) => x), ConsTree, [], ts) == ts
    decreases ts, 0
  {
    if ts != [] {
      MapTreeIdentity(ts[0]);
      MapForestIdentity(ts[1..]);
    }
  }

  /** `maptree` with the identity gives back the same tree. */
  lemma {:induction false} MapTreeIdentity<L>(t: Tree<L>)
    ensures MapTree((x: L) => x, t) == t
    decreases t, 1
  {
    MapForestIdentity(t.subtrees);
  }

  // ---------------------------------------------------------------------------
  // The trees of the unit tests.

  function SmallTree(): Tree<int>
  {
    Node(1, [Node(2, []), Node(3, [Node(4, [])])])
  }

  function LargeTree(): Tree<int>
  {
    Node(1, [Node(2, [Node(3, []), Node(4, [Node(5, []), Node(6, [Node(7, [])])]), Node(8, [Node(9, [])])]),
             Node(10, [Node(11, [])])])
  }

  lemma SmallTreeQueries()
    ensures TreeLabels(SmallTree()) == [1, 2, 3, 4]
    ensures SumTree(SmallTree()) == 10
    ensures TreeSize(SmallTree()) == 4
    ensures TreeDepth(SmallTree()) == 3
    ensures TreeLabels(MapTree((x: int) => -x, SmallTree())) == [-1, -2, -3, -4]
  {
    TreeSumIsLabelSum(SmallTree());
    MapTreeLabels((x: int) => -x, SmallTree());
  }

  lemma LargeTreeLabels()
    ensures TreeLabels(LargeTree()) == [1, 2, 3, 4, 5, 6, 7, 8, 9, 10, 11]
  {
    var t := LargeTree();
    TreeLabelsPreOrder(t.subtrees[0].subtrees[1]);
    TreeLabelsPreOrder(t.subtrees[0]);
    TreeLabelsPreOrder(t);
  }

  lemma LargeTreeDepth()
    ensures TreeDepth(LargeTree()) == 5
  {
    var t := LargeTree();
    var a := t.subtrees[0];
    var c := a.subtrees[1];
    assert TreeDepth(c.subtrees[1]) == 2;
    assert TreeDepth(c) == 3;
    assert TreeDepth(a.subtrees[2]) == 2;
    assert TreeDepth(a) == 4;
    assert TreeDepth(t.subtrees[1]) == 2;
  }

  lemma LargeTreeQueries()
    ensures SumTree(LargeTree()) == 66
    ensures TreeSize(LargeTree()) == 11
    ensures TreeLabels(MapTree((x: int) => -x, LargeTree())) == [-1, -2, -3, -4, -5, -6, -7, -8, -9, -10, -11]
  {
    LargeTreeLabels();
    TreeSumIsLabelSum(LargeTree());
    TreeSizeIsLabelCount(LargeTree());
    MapTreeLabels((x: int) => -x, LargeTree());
  }

  lemma SmallDepths()
    ensures TreeSize(Node(1, [])) == 1 && TreeDepth(Node(1, [])) == 1
    ensures TreeDepth(Node(1, [Node(2, [])])) == 2
  {
  }
}
