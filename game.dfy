/** Lazy game trees: `reptree`/`gametree` unfold a label with a successor
    function, and `prune` cuts a tree at a given depth.

    The unfolded tree may be infinite and is only ever built as far as a
    consumer advances its children iterators. A `View` is what a consumer has
    seen of such a tree: a `Stub` is a node whose children have not been
    demanded yet, a `Forced` node lists its children. `RepTree(f, x, d)` is the
    view of `reptree(f, x)` after `d` levels of children have been demanded;
    `PrunedTree(f, x, n)` is the finite tree `prune(n, reptree(f, x))` stands
    for, in the `(label, subtrees)` form that the fold of `FoldTree` walks. */
module Game {
  import opened FoldTree

  datatype View<L> = Stub(value: L) | Forced(value: L, kids: seq<View<L>>)

  /** `reptree(f, x)` with its first `depth` levels of children demanded. */
  function RepTree<L>(f: L -> seq<L>, x: L, depth: nat): View<L>
    decreases depth
  {
    if depth == 0 then Stub(x)
    else Forced(x, seq(|f(x)|, i requires 0 <= i < |f(x)| => RepTree(f, f(x)[i], depth - 1)))
  }

  /** `gametree(moves, s)` is `reptree(moves, s)`. */
  function GameTree<L>(moves: L -> seq<L>, state: L, depth: nat): View<L>
  {
    RepTree(moves, state, depth)
  }

  /** `prune(n, t)`: at `n == 0` the node keeps its label and gets no children;
      otherwise its children are those of `t`, each pruned at `n - 1`, and
      children nobody has demanded stay undemanded. A negative `n` never
      reaches the base case. */
  function Prune<L>(n: int, t: View<L>): View<L>
    decreases t
  {
    if n == 0 then Forced(t.value, [])
    else match t
      case Stub(x) => Stub(x)
      case Forced(x, kids) =>
        Forced(x, seq(|kids|, i requires 0 <= i < |kids| => Prune(n - 1, kids[i])))
  }

  /** The finite tree `prune(n, reptree(f, x))` denotes. */
  function PrunedTree<L>(f: L -> seq<L>, x: L, n: nat): Tree<L>
    decreases n
  {
    if n == 0 then Node(x, [])
    else Node(x, seq(|f(x)|, i requires 0 <= i < |f(x)| => PrunedTree(f, f(x)[i], n - 1)))
  }

  /** A finite tree seen with every node's children demanded. */
  function Embed<L>(t: Tree<L>): View<L>
    decreases t
  {
    Forced(t.value, seq(|t.subtrees|, i requires 0 <= i < |t.subtrees| => Embed(t.subtrees[i])))
  }

  /** `v` is what a consumer sees of `w` when it demands no more of the tree
      than it did to see `w`: the same labels, and every node forced in `v`
      is forced in `w` with the same number of children. */
  ghost predicate Approximates<L>(v: View<L>, w: View<L>)
    decreases v
  {
    && v.value == w.value
    && (v.Forced? ==>
          && w.Forced?
          && |v.kids| == |w.kids|
          && forall i :: 0 <= i < |v.kids| ==> Approximates(v.kids[i], w.kids[i]))
  }

  // ---------------------------------------------------------------------------
  // reptree

  /** Every node of `v` above level `d` is forced, with children labelled by
      the successors of its label, in order, and every node at level `d` is a
      stub whose children nobody has demanded. */
  ghost predicate ObservedTo<L>(f: L -> seq<L>, v: View<L>, d: nat)
    decreases v
  {
    if d == 0 then v.Stub?
    else
      && v.Forced?
      && |v.kids| == |f(v.value)|
      && forall i :: 0 <= i < |v.kids| ==>
           v.kids[i].value == f(v.value)[i] && ObservedTo(f, v.kids[i], d - 1)
  }

  /** `RepTree(f, x, d)` is the one and only view rooted at `x` that follows
      `f` down to level `d` and has demanded nothing below it. */
  lemma {:induction false} RepTreeObserved<L>(f: L -> seq<L>, x: L, d: nat, v: View<L>)
    ensures RepTree(f, x, d).value == x
    ensures ObservedTo(f, RepTree(f, x, d), d)
    ensures v.value == x && ObservedTo(f, v, d) ==> v == RepTree(f, x, d)
    decreases d
  {
    if d > 0 {
      var r := RepTree(f, x, d);
      forall i | 0 <= i < |f(x)|
        ensures r.kids[i].value == f(x)[i] && ObservedTo(f, r.kids[i], d - 1)
      {
        RepTreeObserved(f, f(x)[i], d - 1, r.kids[i]);
      }
      if v.value == x && ObservedTo(f, v, d) {
        forall i | 0 <= i < |f(x)| ensures v.kids[i] == r.kids[i] {
          RepTreeObserved(f, f(x)[i], d - 1, v.kids[i]);
        }
        assert v.kids == r.kids;
      }
    }
  }

  /** Demanding more of `reptree(f, x)` never changes what was already seen. */
  lemma {:induction false} RepTreeDemandMore<L>(f: L -> seq<L>, x: L, d: nat, e: nat)
    requires d <= e
    ensures Approximates(RepTree(f, x, d), RepTree(f, x, e))
    decreases d
  {
    if d > 0 {
      forall i | 0 <= i < |f(x)|
        ensures Approximates(RepTree(f, x, d).kids[i], RepTree(f, x, e).kids[i])
      {
        RepTreeDemandMore(f, f(x)[i], d - 1, e - 1);
      }
    }
  }

  // ---------------------------------------------------------------------------
  // prune

  /** A negative depth prunes nothing: every view of the tree is returned as
      it is, so on an infinite tree the result never stops unfolding. */
  lemma {:induction false} PruneNegative<L>(n: int, t: View<L>)
    requires n < 0
    ensures Prune(n, t) == t
    decreases t
  {
    match t
    case Stub(_) =>
    case Forced(x, kids) =>
      forall i | 0 <= i < |kids| ensures Prune(n - 1, kids[i]) == kids[i] {
        PruneNegative(n - 1, kids[i]);
      }
      assert Prune(n, t).kids == kids;
  }

  /** Pruning never demands children: pruning a partial view gives a partial
      view of the pruned tree. */
  lemma {:induction false} PruneIsLazy<L>(n: int, v: View<L>, w: View<L>)
    requires Approximates(v, w)
    ensures Approximates(Prune(n, v), Prune(n, w))
    decreases v
  {
    if n != 0 && v.Forced? {
      forall i | 0 <= i < |v.kids|
        ensures Approximates(Prune(n, v).kids[i], Prune(n, w).kids[i])
      {
        PruneIsLazy(n - 1, v.kids[i], w.kids[i]);
      }
    }
  }

  /** Pruning twice is pruning once at the smaller depth. */
  lemma {:induction false} PruneTwice<L>(m: nat, n: nat, t: View<L>)
    ensures Prune(m, Prune(n, t)) == Prune(if m <= n then m else n, t)
    decreases t
  {
    if m != 0 && n != 0 && t.Forced? {
      var k := if m <= n then m else n;
      var lhs := Prune(m, Prune(n, t));
      var rhs := Prune(k, t);
      forall i | 0 <= i < |t.kids| ensures lhs.kids[i] == rhs.kids[i] {
        PruneTwice(m - 1, n - 1, t.kids[i]);
      }
      assert lhs.kids == rhs.kids;
    }
  }

  /** Observed at any depth `d >= n`, `prune(n, reptree(f, x))` is fully
      forced and is the finite tree `PrunedTree(f, x, n)`. */
  lemma {:induction false} PruneRepTree<L>(f: L -> seq<L>, x: L, n: nat, d: nat)
    requires n <= d
    ensures Prune(n, RepTree(f, x, d)) == Embed(PrunedTree(f, x, n))
    decreases n
  {
    if n > 0 {
      var lhs := Prune(n, RepTree(f, x, d));
      var rhs := Embed(PrunedTree(f, x, n));
      forall i | 0 <= i < |f(x)| ensures lhs.kids[i] == rhs.kids[i] {
        PruneRepTree(f, f(x)[i], n - 1, d - 1);
      }
      assert lhs.kids == rhs.kids;
    }
  }

  // ---------------------------------------------------------------------------
  // The pruned tree

  /** Every node of `t` above depth `n` has as children the successors of its
      label, in order, and every node at depth `n` has none. */
  ghost predicate UnfoldsTo<L>(f: L -> seq<L>, t: Tree<L>, n: nat)
    decreases t
  {
    if n == 0 then t.subtrees == []
    else
      && |t.subtrees| == |f(t.value)|
      && forall i :: 0 <= i < |t.subtrees| ==>
           t.subtrees[i].value == f(t.value)[i] && UnfoldsTo(f, t.subtrees[i], n - 1)
  }

  /** `PrunedTree(f, x, n)` is the one and only tree rooted at `x` that follows
      `f` down to depth `n` and stops there. */
  lemma {:induction false} PrunedTreeUnfolds<L>(f: L -> seq<L>, x: L, n: nat, t: Tree<L>)
    ensures PrunedTree(f, x, n).value == x
    ensures UnfoldsTo(f, PrunedTree(f, x, n), n)
    ensures t.value == x && UnfoldsTo(f, t, n) ==> t == PrunedTree(f, x, n)
    decreases n
  {
    if n > 0 {
      var p := PrunedTree(f, x, n);
      forall i | 0 <= i < |f(x)|
        ensures p.subtrees[i].value == f(x)[i] && UnfoldsTo(f, p.subtrees[i], n - 1)
      {
        PrunedTreeUnfolds(f, f(x)[i], n - 1, p.subtrees[i]);
      }
      if t.value == x && UnfoldsTo(f, t, n) {
        forall i | 0 <= i < |f(x)| ensures t.subtrees[i] == p.subtrees[i] {
          PrunedTreeUnfolds(f, f(x)[i], n - 1, t.subtrees[i]);
        }
        assert t.subtrees == p.subtrees;
      }
    }
  }

  /** A game in which every move lowers a measure `m` stops unfolding by
      depth `m(x)`: pruning at any depth from `m(x)` on gives the same tree. */
  lemma {:induction false} PrunedTreeSettles<L>(f: L -> seq<L>, m: L -> nat, x: L, n: nat, k: nat)
    requires forall y, i :: 0 <= i < |f(y)| ==> m(f(y)[i]) < m(y)
    requires m(x) <= n && m(x) <= k
    ensures PrunedTree(f, x, n) == PrunedTree(f, x, k)
    decreases m(x)
  {
    if |f(x)| > 0 {
      assert m(f(x)[0]) < m(x);
    }
    if n > 0 && k > 0 {
      var lhs := PrunedTree(f, x, n);
      var rhs := PrunedTree(f, x, k);
      forall i | 0 <= i < |f(x)| ensures lhs.subtrees[i] == rhs.subtrees[i] {
        PrunedTreeSettles(f, m, f(x)[i], n - 1, k - 1);
      }
      assert lhs.subtrees == rhs.subtrees;
    }
  }

  /** Under the same measure, the pruned tree is at most `m(x) + 1` levels
      deep, whatever the depth it is pruned at. */
  lemma {:induction false} PrunedTreeDepthMeasure<L>(f: L -> seq<L>, m: L -> nat, x: L, n: nat)
    requires forall y, i :: 0 <= i < |f(y)| ==> m(f(y)[i]) < m(y)
    ensures TreeDepth(PrunedTree(f, x, n)) <= m(x) + 1
    decreases n
  {
    var t := PrunedTree(f, x, n);
    TreeDepthNode(t);
    if t.subtrees != [] {
      var i :| 0 <= i < |t.subtrees| && TreeDepth(t) == TreeDepth(t.subtrees[i]) + 1;
      PrunedTreeDepthMeasure(f, m, f(x)[i], n - 1);
    }
  }

  /** `prune(n, reptree(f, x))` is at most `n + 1` nodes deep, as `tree_depth`
      counts; at depth 0 it is a single node. */
  lemma {:induction false} PrunedTreeDepth<L>(f: L -> seq<L>, x: L, n: nat)
    ensures 1 <= TreeDepth(PrunedTree(f, x, n)) <= n + 1
    ensures n == 0 ==> TreeSize(PrunedTree(f, x, n)) == 1
    decreases n
  {
    var p := PrunedTree(f, x, n);
    TreeDepthWithinSize(p);
    TreeDepthNode(p);
    TreeSizeIsLabelCount(p);
    assert TreeDepth(p) == 1 + FoldForest(OnePlus, Max, 0, p.subtrees);
    if n > 0 {
      forall i | 0 <= i < |p.subtrees| ensures TreeDepth(p.subtrees[i]) <= n {
        PrunedTreeDepth(f, f(x)[i], n - 1);
      }
      ForestDepthBound(p.subtrees, n);
    }
  }

  /** If every label has at least one successor, pruning at `n` keeps exactly
      `n + 1` levels. */
  lemma {:induction false} PrunedTreeDepthExact<L>(f: L -> seq<L>, x: L, n: nat)
    requires forall y :: |f(y)| > 0
    ensures TreeDepth(PrunedTree(f, x, n)) == n + 1
    decreases n
  {
    var p := PrunedTree(f, x, n);
    PrunedTreeDepth(f, x, n);
    if n > 0 {
      assert |f(x)| > 0;
      PrunedTreeDepthExact(f, f(x)[0], n - 1);
      TreeDepthNode(p);
      assert p.subtrees[0] == PrunedTree(f, f(x)[0], n - 1);
    }
  }
}
